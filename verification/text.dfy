/**
 * The string primitives the decoders rely on: .NET whitespace, `Trim`,
 * `IsNullOrWhiteSpace`, a case-insensitive prefix test and the integer
 * parsing done by `int.TryParse` / `uint.TryParse` on short fixed-width fields.
 */
module Text {
  import opened Wrappers

  /** `char.IsWhiteSpace`: the Unicode space separators, line/paragraph separators and U+0009..U+000D, U+0085. */
  predicate IsWhiteSpace(c: char) {
    ('\U{0009}' <= c <= '\U{000D}') || c == ' ' || c == '\U{0085}' || c == '\U{00A0}' || c == '\U{1680}'
    || ('\U{2000}' <= c <= '\U{200A}') || c == '\U{2028}' || c == '\U{2029}' || c == '\U{202F}'
    || c == '\U{205F}' || c == '\U{3000}'
  }

  /** `string.IsNullOrWhiteSpace` (a Dafny string is never null). */
  predicate IsBlank(s: string) {
    forall i :: 0 <= i < |s| ==> IsWhiteSpace(s[i])
  }

  /** `TrimStart()`: the longest suffix of `s` that does not start with whitespace. */
  function TrimStart(s: string): (r: string)
    ensures |r| <= |s| && r == s[|s| - |r|..]
    ensures forall i :: 0 <= i < |s| - |r| ==> IsWhiteSpace(s[i])
    ensures |r| > 0 ==> !IsWhiteSpace(r[0])
  {
    if |s| > 0 && IsWhiteSpace(s[0]) then TrimStart(s[1..]) else s
  }

  /** `TrimEnd()`: the longest prefix of `s` that does not end with whitespace. */
  function TrimEnd(s: string): (r: string)
    ensures |r| <= |s| && r == s[..|r|]
    ensures forall i :: |r| <= i < |s| ==> IsWhiteSpace(s[i])
    ensures |r| > 0 ==> !IsWhiteSpace(r[|r| - 1])
  {
    if |s| > 0 && IsWhiteSpace(s[|s| - 1]) then TrimEnd(s[..|s| - 1]) else s
  }

  /** `Trim()`: drops whitespace at both ends. */
  function Trim(s: string): (r: string)
    ensures |r| <= |s|
    ensures |r| > 0 ==> !IsWhiteSpace(r[0]) && !IsWhiteSpace(r[|r| - 1])
    ensures r == [] <==> IsBlank(s)
  {
    var t := TrimStart(s);
    var r := TrimEnd(t);
    assert r == [] ==> IsBlank(s) by {
      if r == [] {
        assert t == [];
      }
    }
    r
  }

  /** Trimming cuts white space off the two ends of `s` and nothing else: the result is a slice of `s`. */
  lemma TrimIsSlice(s: string)
    ensures exists a :: TrimmedAt(s, a, Trim(s))
  {
    var t := TrimStart(s);
    var r := TrimEnd(t);
    CutBothEnds(s, t, r, IsWhiteSpace);
    assert Trim(s) == r;
    assert TrimmedAt(s, |s| - |t|, r);
  }

  /**
   * Cutting a prefix of `p`-characters off `s` and then a suffix of
   * `p`-characters off what is left leaves a slice of `s` with only
   * `p`-characters around it.
   */
  lemma CutBothEnds<T>(s: seq<T>, t: seq<T>, r: seq<T>, p: T -> bool)
    requires |t| <= |s| && t == s[|s| - |t|..]
    requires forall i :: 0 <= i < |s| - |t| ==> p(s[i])
    requires |r| <= |t| && r == t[..|r|]
    requires forall i :: |r| <= i < |t| ==> p(t[i])
    ensures s[|s| - |t|..|s| - |t| + |r|] == r
    ensures forall i :: |s| - |t| + |r| <= i < |s| ==> p(s[i])
  {
    var a := |s| - |t|;
    forall i | a + |r| <= i < |s| ensures p(s[i]) {
      assert s[i] == t[i - a];
    }
  }

  /** `r` is the slice of `s` starting at `a`, and everything around it is white space. */
  predicate TrimmedAt(s: string, a: int, r: string) {
    && 0 <= a && a + |r| <= |s|
    && r == s[a..a + |r|]
    && (forall i :: 0 <= i < a ==> IsWhiteSpace(s[i]))
    && (forall i :: a + |r| <= i < |s| ==> IsWhiteSpace(s[i]))
  }

  /** Case folding used by the ignore-case comparisons: ASCII and Latin-1 upper-case letters to lower case. */
  function FoldCase(c: char): char {
    if 'A' <= c <= 'Z' || ('\U{00C0}' <= c <= '\U{00DE}' && c != '\U{00D7}') then (c as int + 32) as char else c
  }

  /** Only the space itself folds to a space. */
  lemma FoldCaseSpace(c: char)
    ensures FoldCase(c) == ' ' <==> c == ' '
  {
  }

  /** `s.StartsWith(prefix, ...IgnoreCase)`. */
  predicate StartsWithIgnoreCase(s: string, prefix: string) {
    |prefix| <= |s| && forall i :: 0 <= i < |prefix| ==> FoldCase(s[i]) == FoldCase(prefix[i])
  }

  // ---------------------------------------------------------------------------
  // Integer parsing
  // ---------------------------------------------------------------------------

  /** The whitespace `NumberStyles.Integer` allows around a number. */
  predicate IsNumberWhite(c: char) {
    ('\U{0009}' <= c <= '\U{000D}') || c == ' '
  }

  predicate IsDigit(c: char) {
    '0' <= c <= '9'
  }

  predicate AllDigits(s: string) {
    forall i :: 0 <= i < |s| ==> IsDigit(s[i])
  }

  function DigitValue(c: char): nat
    requires IsDigit(c)
  {
    c as int - '0' as int
  }

  /** The decimal value of a digit string, most significant digit first. */
  function DigitsValue(ds: string): nat
    requires AllDigits(ds)
  {
    if |ds| == 0 then 0 else DigitsValue(ds[..|ds| - 1]) * 10 + DigitValue(ds[|ds| - 1])
  }

  function StripNumberWhite(s: string): string
    decreases |s|
  {
    if |s| > 0 && IsNumberWhite(s[0]) then StripNumberWhite(s[1..])
    else if |s| > 0 && IsNumberWhite(s[|s| - 1]) then StripNumberWhite(s[..|s| - 1])
    else s
  }

  /** The unsigned body of a number: the text after an optional leading sign. */
  function Unsigned(t: string): string {
    if |t| > 0 && (t[0] == '-' || t[0] == '+') then t[1..] else t
  }

  /**
   * `int.TryParse(s, out v)`: surrounding white space, an optional sign and at
   * least one decimal digit. None stands for a `false` return.
   */
  function ParseInt(s: string): (r: Option<int>)
    ensures |s| == 0 ==> r == None
    ensures |s| == 1 ==> (r.Some? <==> IsDigit(s[0]))
    ensures |s| == 1 && IsDigit(s[0]) ==> r == Some(DigitValue(s[0]))
  {
    var t := StripNumberWhite(s);
    var ds := Unsigned(t);
    assert |s| == 1 ==> (|ds| > 0 && AllDigits(ds) <==> IsDigit(s[0])) && (IsDigit(s[0]) ==> ds == s) by {
      if |s| == 1 {
        if IsNumberWhite(s[0]) {
          assert StripNumberWhite(s) == StripNumberWhite(s[1..]);
          assert t == [];
        } else {
          assert t == s;
        }
      }
    }
    if |ds| > 0 && AllDigits(ds) then
      assert |s| == 1 ==> DigitsValue(ds) == DigitValue(s[0]) by {
        if |s| == 1 {
          assert ds[..0] == [];
        }
      }
      Some(if t[0] == '-' then -(DigitsValue(ds) as int) else DigitsValue(ds))
    else
      None
  }

  /** `uint.TryParse`: the same grammar; a negative value other than zero fails. */
  function ParseUInt(s: string): (r: Option<nat>)
    ensures r.Some? <==> ParseInt(s).Some? && ParseInt(s).value >= 0
    ensures r.Some? ==> r.value == ParseInt(s).value
  {
    match ParseInt(s)
    case Some(v) => if v >= 0 then Some(v) else None
    case None => None
  }

  /** Decimal digits of `n` without sign or padding: what the data files hold in their numeric columns. */
  function Show(n: nat): (r: string)
    ensures |r| > 0 && AllDigits(r)
    ensures DigitsValue(r) == n
  {
    var d := ['0' + (n % 10) as char];
    var r := if n < 10 then d else Show(n / 10) + d;
    assert r[..|r| - 1] == (if n < 10 then [] else Show(n / 10));
    r
  }

  /** Parsing what `Show` prints gives the number back. */
  lemma ParseShow(n: nat)
    ensures ParseInt(Show(n)) == Some(n)
    ensures ParseUInt(Show(n)) == Some(n)
  {
    var s := Show(n);
    assert !IsNumberWhite(s[0]) && !IsNumberWhite(s[|s| - 1]);
    assert StripNumberWhite(s) == s;
    assert Unsigned(s) == s;
  }

  /** A leading minus sign negates the parsed value. */
  lemma ParseNegativeShow(n: nat)
    ensures ParseInt("-" + Show(n)) == Some(-(n as int))
    ensures ParseUInt("-" + Show(n)) == (if n == 0 then Some(0) else None)
  {
    var s := "-" + Show(n);
    assert !IsNumberWhite(s[0]) && !IsNumberWhite(s[|s| - 1]);
    assert StripNumberWhite(s) == s;
    assert Unsigned(s) == Show(n);
  }

  // ---------------------------------------------------------------------------
  // The grammar `int.TryParse` accepts, stated independently of the parser
  // ---------------------------------------------------------------------------

  predicate AllNumberWhite(w: string) {
    forall i :: 0 <= i < |w| ==> IsNumberWhite(w[i])
  }

  predicate IsSign(x: string) {
    x == "" || x == "+" || x == "-"
  }

  /**
   * `s` splits as `s[..a]` white space, `s[a..b]` an optional sign, `s[b..c]`
   * one or more decimal digits (leading zeros allowed) and `s[c..]` white space.
   */
  predicate IsNumberText(s: string, a: int, b: int, c: int) {
    && 0 <= a <= b < c <= |s|
    && AllNumberWhite(s[..a])
    && IsSign(s[a..b])
    && AllDigits(s[b..c])
    && AllNumberWhite(s[c..])
  }

  /** The value such a split denotes. */
  function NumberValue(s: string, a: int, b: int, c: int): int
    requires IsNumberText(s, a, b, c)
  {
    if s[a..b] == "-" then -(DigitsValue(s[b..c]) as int) else DigitsValue(s[b..c])
  }

  /**
   * The parser accepts exactly the texts that split as white space, an
   * optional sign, digits and white space, and returns the value the split
   * denotes; every other text fails.
   */
  lemma ParseIntGrammar(s: string)
    ensures ParseInt(s).Some? <==> exists a, b, c :: IsNumberText(s, a, b, c)
    ensures forall a, b, c :: IsNumberText(s, a, b, c) ==> ParseInt(s) == Some(NumberValue(s, a, b, c))
  {
    forall a, b, c | IsNumberText(s, a, b, c) ensures ParseInt(s) == Some(NumberValue(s, a, b, c)) {
      ParseSplit(s, a, b, c);
    }
    if ParseInt(s).Some? {
      var a, b, c := SplitOfParsed(s);
    }
  }

  lemma ParseSplit(s: string, a: int, b: int, c: int)
    requires IsNumberText(s, a, b, c)
    ensures ParseInt(s) == Some(NumberValue(s, a, b, c))
  {
    assert !IsNumberWhite(s[a]) by {
      if a < b { assert s[a] == s[a..b][0]; } else { assert s[a] == s[b..c][0]; }
    }
    assert !IsNumberWhite(s[c - 1]) by {
      assert s[c - 1] == s[b..c][c - 1 - b];
    }
    StripAround(s, a, c);
    var t := s[a..c];
    if a < b {
      assert t[0] == s[a..b][0];
      assert Unsigned(t) == s[b..c];
    } else {
      assert t == s[b..c];
      assert !(t[0] == '-' || t[0] == '+') by { assert IsDigit(t[0]); }
    }
  }

  /** Stripping removes exactly the white space around a text that starts and ends with other characters. */
  lemma {:induction false} StripAround(s: string, a: int, c: int)
    requires 0 <= a < c <= |s| && AllNumberWhite(s[..a]) && AllNumberWhite(s[c..])
    requires !IsNumberWhite(s[a]) && !IsNumberWhite(s[c - 1])
    ensures StripNumberWhite(s) == s[a..c]
    decreases |s|
  {
    if a > 0 {
      assert IsNumberWhite(s[..a][0]);
      assert s[1..][a - 1..c - 1] == s[a..c];
      assert s[1..][..a - 1] == s[1..a];
      assert s[1..][c - 1..] == s[c..];
      StripAround(s[1..], a - 1, c - 1);
    } else if c < |s| {
      assert IsNumberWhite(s[c..][|s| - 1 - c]);
      var u := s[..|s| - 1];
      assert u[a..c] == s[a..c] && u[..a] == s[..a];
      assert forall i :: 0 <= i < |u[c..]| ==> u[c..][i] == s[c..][i];
      StripAround(u, a, c);
    } else {
      assert s[a..c] == s;
    }
  }

  /** `t` sits at `a` in `s`, with only white space around it. */
  predicate WhiteAround(s: string, a: int, t: string) {
    0 <= a && a + |t| <= |s| && t == s[a..a + |t|] && AllNumberWhite(s[..a]) && AllNumberWhite(s[a + |t|..])
  }

  /** Conversely, stripping leaves a slice of `s` with only white space around it. */
  lemma {:induction false} StripIsSlice(s: string) returns (a: int)
    ensures WhiteAround(s, a, StripNumberWhite(s))
    decreases |s|
  {
    var t := StripNumberWhite(s);
    if |s| > 0 && IsNumberWhite(s[0]) {
      var a' := StripIsSlice(s[1..]);
      a := a' + 1;
      WhiteInFront(s, a', t);
    } else if |s| > 0 && IsNumberWhite(s[|s| - 1]) {
      a := StripIsSlice(s[..|s| - 1]);
      WhiteBehind(s, a, t);
    } else {
      a := 0;
      assert s[..0] == [] && s[|s|..] == [];
    }
  }

  lemma WhiteInFront(s: string, a: int, t: string)
    requires |s| > 0 && IsNumberWhite(s[0]) && WhiteAround(s[1..], a, t)
    ensures WhiteAround(s, a + 1, t)
  {
    assert s[1..][a..a + |t|] == s[a + 1..a + 1 + |t|];
    assert s[..a + 1] == [s[0]] + s[1..][..a];
    assert s[1..][a + |t|..] == s[a + 1 + |t|..];
  }

  lemma WhiteBehind(s: string, a: int, t: string)
    requires |s| > 0 && IsNumberWhite(s[|s| - 1]) && WhiteAround(s[..|s| - 1], a, t)
    ensures WhiteAround(s, a, t)
  {
    var u := s[..|s| - 1];
    assert u[a..a + |t|] == s[a..a + |t|] && u[..a] == s[..a];
    assert s[a + |t|..] == u[a + |t|..] + [s[|s| - 1]];
  }

  lemma SplitOfParsed(s: string) returns (a: int, b: int, c: int)
    requires ParseInt(s).Some?
    ensures IsNumberText(s, a, b, c)
  {
    var t := StripNumberWhite(s);
    a := StripIsSlice(s);
    c := a + |t|;
    b := if t[0] == '-' || t[0] == '+' then a + 1 else a;
    assert s[b..c] == Unsigned(t);
    assert s[a..b] == t[..b - a];
  }

  /** `int.TryParse` into a 32-bit `int`: an out-of-range value fails like a malformed one. */
  function ParseInt32(s: string): (r: Option<int>)
    ensures r.Some? <==> ParseInt(s).Some? && -0x8000_0000 <= ParseInt(s).value < 0x8000_0000
    ensures r.Some? ==> r.value == ParseInt(s).value
  {
    match ParseInt(s)
    case Some(v) => if -0x8000_0000 <= v < 0x8000_0000 then Some(v) else None
    case None => None
  }

  /** `uint.TryParse` into a 32-bit `uint`. */
  function ParseUInt32(s: string): (r: Option<nat>)
    ensures r.Some? <==> ParseUInt(s).Some? && ParseUInt(s).value < 0x1_0000_0000
    ensures r.Some? ==> r.value == ParseUInt(s).value && r.value < 0x1_0000_0000
  {
    match ParseUInt(s)
    case Some(v) => if v < 0x1_0000_0000 then Some(v) else None
    case None => None
  }

  /** `int.TryParse` into `int` accepts exactly the number texts whose value fits in 32 bits. */
  lemma ParseInt32Grammar(s: string)
    ensures ParseInt32(s).Some? <==>
              exists a, b, c :: IsNumberText(s, a, b, c) && -0x8000_0000 <= NumberValue(s, a, b, c) < 0x8000_0000
    ensures forall a, b, c :: IsNumberText(s, a, b, c) && -0x8000_0000 <= NumberValue(s, a, b, c) < 0x8000_0000 ==>
              ParseInt32(s) == Some(NumberValue(s, a, b, c))
  {
    ParseIntGrammar(s);
  }

  /**
   * `uint.TryParse` into `uint` accepts exactly the number texts whose value
   * is between 0 and 2^32 - 1; "-0" is one of them.
   */
  lemma ParseUInt32Grammar(s: string)
    ensures ParseUInt32(s).Some? <==>
              exists a, b, c :: IsNumberText(s, a, b, c) && 0 <= NumberValue(s, a, b, c) < 0x1_0000_0000
    ensures forall a, b, c :: IsNumberText(s, a, b, c) && 0 <= NumberValue(s, a, b, c) < 0x1_0000_0000 ==>
              ParseUInt32(s) == Some(NumberValue(s, a, b, c))
  {
    ParseIntGrammar(s);
  }
}
