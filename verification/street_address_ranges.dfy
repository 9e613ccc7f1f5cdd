/**
 * `StreetAddressRange`: one odd, even or unnumbered run of addresses on a
 * street or named location. Its constructor corrects the building numbers
 * against the declared parity and estimates how many addresses the run holds.
 */
module StreetAddressRanges {
  import opened Wrappers
  import opened Text
  import opened Dates
  import opened Codes

  const UINT32_LIMIT: int := 0x1_0000_0000

  /** The source's `uint`. */
  type UInt32 = n: int | 0 <= n < UINT32_LIMIT

  datatype StreetAddressRange = StreetAddressRange(
    runningDate: Option<Date>,
    postalCode: string,
    municipalityCode: string,
    nameFi: string,
    nameSv: string,
    addressRange: seq<string>,
    parity: Parity,
    smallest: UInt32,
    highest: UInt32,
    potential: UInt32)

  /** `n` lies on the other side of the street than the declared parity (never for NoParity). */
  predicate WrongParity(p: Parity, n: int) {
    (p == Odd && n % 2 == 0) || (p == Even && n % 2 == 1)
  }

  /**
   * The two parity corrections of the constructor: a smallest number of the
   * wrong parity moves up by one (or empties the range when nothing lies above
   * it), then a highest number of the wrong parity above the smallest moves
   * down by one. Result: (smallest, highest).
   */
  function CorrectBuildingNumbers(p: Parity, s: UInt32, h: UInt32): (r: (UInt32, UInt32))
    ensures p == NoParity ==> r == (s, h)
    ensures WrongParity(p, s) ==> r.0 == (if h > s then s + 1 else 0)
    ensures WrongParity(p, s) && h <= s ==> r.1 == 0
    ensures !WrongParity(p, s) ==> r.0 == s
    ensures r.1 == h || (r.1 == h - 1 && r.1 >= r.0 && WrongParity(p, h)) || (r.1 == 0 && r.0 == 0 && WrongParity(p, s) && h <= s)
    ensures s <= h ==> r.0 <= r.1
    ensures r.1 > r.0 ==> !WrongParity(p, r.0) && !WrongParity(p, r.1)
    ensures h < s && h != 0 && !WrongParity(p, s) ==> r == (s, h)
  {
    var (s1, h1) := if WrongParity(p, s) then (if h > s then (s + 1, h) else (0, 0)) else (s, h);
    if h1 > s1 && WrongParity(p, h1) then (s1, h1 - 1) else (s1, h1)
  }

  /**
   * How many building numbers the corrected pair spans: a single address when
   * the highest is missing (0) or equal, every second number of a forward
   * range, nothing for an inverted range or a missing smallest number.
   */
  function NumericCount(s: UInt32, h: UInt32): (n: nat)
    ensures n == 0 <==> (s == 0 && h == 0) || (h != 0 && h < s)
    ensures (h == s || h == 0) ==> n <= 1
    ensures h > s ==> n == (h - s) / 2 + 1
    ensures n <= UINT32_LIMIT / 2
  {
    if h == s || h == 0 then (if s > 0 then 1 else 0)
    else if h > s then (h - s) / 2 + 1
    else 0
  }

  /** The final estimate: a named location without numbers still counts as one address. */
  function PotentialCount(numeric: nat, nameFi: string, nameSv: string): (r: nat)
    ensures r == 0 <==> numeric == 0 && IsBlank(nameFi) && IsBlank(nameSv)
    ensures numeric > 0 ==> r == numeric
    ensures numeric == 0 ==> r <= 1
  {
    if numeric == 0 then (if IsBlank(nameFi) && IsBlank(nameSv) then 0 else 1) else numeric
  }

  /** The constructor `new StreetAddressRange(...)`. */
  function NewStreetAddressRange(
    runningDate: Option<Date>, postalCode: string, municipalityCode: string,
    nameFi: string, nameSv: string, addressRange: seq<string>,
    parity: Parity, s: UInt32, h: UInt32): (r: StreetAddressRange)
    ensures (r.smallest, r.highest) == CorrectBuildingNumbers(parity, s, h)
    ensures r.potential == 0 <==> NumericCount(r.smallest, r.highest) == 0 && IsBlank(nameFi) && IsBlank(nameSv)
    ensures NumericCount(r.smallest, r.highest) > 0 ==> r.potential == NumericCount(r.smallest, r.highest)
    ensures r.potential <= NumericCount(r.smallest, r.highest) + 1
    ensures r.runningDate == runningDate && r.postalCode == postalCode && r.municipalityCode == municipalityCode
    ensures r.nameFi == nameFi && r.nameSv == nameSv && r.addressRange == addressRange && r.parity == parity
  {
    var (s1, h1) := CorrectBuildingNumbers(parity, s, h);
    var potential := PotentialCount(NumericCount(s1, h1), nameFi, nameSv);
    StreetAddressRange(runningDate, postalCode, municipalityCode, nameFi, nameSv, addressRange,
                       parity, s1, h1, potential)
  }

  // ---------------------------------------------------------------------------
  // An independent account of the numeric count
  // ---------------------------------------------------------------------------

  /** The side of the street a range lies on: the declared parity, or that of its smallest number. */
  function SideOf(p: Parity, s: int): (side: Parity)
    ensures side != NoParity && (p != NoParity ==> side == p) && (p == NoParity ==> !WrongParity(side, s))
  {
    if p != NoParity then p else if s % 2 == 1 then Odd else Even
  }

  /** Number of building numbers n >= 1 with lo <= n <= hi on the given side. */
  function BuildingNumbersOn(side: Parity, lo: int, hi: int): nat
    decreases hi - lo
  {
    if lo > hi then 0
    else (if lo >= 1 && !WrongParity(side, lo) then 1 else 0) + BuildingNumbersOn(side, lo + 1, hi)
  }

  lemma {:induction false} BuildingNumbersClosedForm(side: Parity, lo: int, hi: int)
    requires side != NoParity && 1 <= lo <= hi && !WrongParity(side, lo)
    ensures BuildingNumbersOn(side, lo, hi) == (hi - lo) / 2 + 1
    decreases hi - lo
  {
    assert WrongParity(side, lo + 1);
    assert BuildingNumbersOn(side, lo, hi) == 1 + BuildingNumbersOn(side, lo + 1, hi);
    if lo + 1 <= hi {
      assert BuildingNumbersOn(side, lo + 1, hi) == BuildingNumbersOn(side, lo + 2, hi);
      if lo + 2 <= hi {
        BuildingNumbersClosedForm(side, lo + 2, hi);
      }
    }
  }

  /**
   * The count agrees with counting the building numbers on the range's side of
   * the street from the smallest number to the highest (the smallest alone
   * when the highest is 0). The one case left out is a missing smallest number
   * (0) under a forward range of even or undeclared parity, where 0 itself is
   * counted as a building number.
   */
  lemma NumericCountCountsBuildingNumbers(p: Parity, s: UInt32, h: UInt32)
    requires !(s == 0 && h > 0 && p != Odd)
    ensures var (s1, h1) := CorrectBuildingNumbers(p, s, h);
            NumericCount(s1, h1) == BuildingNumbersOn(SideOf(p, s), s, if h == 0 then s else h)
  {
    var side := SideOf(p, s);
    if h == 0 || h == s {
      assert BuildingNumbersOn(side, s, s) == (if s >= 1 && !WrongParity(side, s) then 1 else 0) + BuildingNumbersOn(side, s + 1, s);
    } else if h > s {
      ForwardCount(p, s, h);
    }
  }

  /** A forward range: both sides count every second number from the first one on the range's side. */
  lemma ForwardCount(p: Parity, s: UInt32, h: UInt32)
    requires h > s && !(s == 0 && p != Odd)
    ensures var (s1, h1) := CorrectBuildingNumbers(p, s, h);
            NumericCount(s1, h1) == BuildingNumbersOn(SideOf(p, s), s, h)
  {
    if WrongParity(SideOf(p, s), s) || s == 0 {
      ForwardCountShifted(p, s, h);
    } else {
      ForwardCountKept(p, s, h);
    }
  }

  /** The smallest number is on the wrong side: counting starts one higher. */
  lemma ForwardCountShifted(p: Parity, s: UInt32, h: UInt32)
    requires h > s && !(s == 0 && p != Odd)
    requires WrongParity(SideOf(p, s), s) || s == 0
    ensures var (s1, h1) := CorrectBuildingNumbers(p, s, h);
            NumericCount(s1, h1) == BuildingNumbersOn(SideOf(p, s), s, h)
  {
    var side := SideOf(p, s);
    var (s1, h1) := CorrectBuildingNumbers(p, s, h);
    assert p != NoParity && side == p && WrongParity(p, s);
    assert s1 == s + 1;
    assert BuildingNumbersOn(side, s, h) == BuildingNumbersOn(side, s + 1, h);
    BuildingNumbersClosedForm(side, s + 1, h);
    assert h1 == h || h1 == h - 1;
  }

  /** The smallest number is already on the range's side. */
  lemma ForwardCountKept(p: Parity, s: UInt32, h: UInt32)
    requires h > s && !(s == 0 && p != Odd)
    requires !(WrongParity(SideOf(p, s), s) || s == 0)
    ensures var (s1, h1) := CorrectBuildingNumbers(p, s, h);
            NumericCount(s1, h1) == BuildingNumbersOn(SideOf(p, s), s, h)
  {
    var side := SideOf(p, s);
    var (s1, h1) := CorrectBuildingNumbers(p, s, h);
    assert s1 == s;
    BuildingNumbersClosedForm(side, s, h);
    assert h1 == h || h1 == h - 1;
  }

  /** The worked examples: the odd range 100..108 holds 101, 103, 105, 107 and so on. */
  lemma WorkedExamples()
    ensures var r := NewStreetAddressRange(None, "", "", "", "", [], Odd, 100, 108);
            r.smallest == 101 && r.highest == 107 && r.potential == 4
    ensures NewStreetAddressRange(None, "", "", "", "", [], Odd, 1, 1).potential == 1
    ensures NewStreetAddressRange(None, "", "", "Keskustie", "", [], NoParity, 0, 0).potential == 1
    ensures var r := NewStreetAddressRange(None, "", "", "", "", [], Odd, 5, 3);
            r.smallest == 5 && r.highest == 3 && r.potential == 0
    ensures CorrectBuildingNumbers(Even, 0, 5) == (0, 4)
    ensures CorrectBuildingNumbers(Even, 5, 3) == (0, 0)
  {
    assert !IsBlank("Keskustie") by { assert !IsWhiteSpace("Keskustie"[0]); }
  }
}
