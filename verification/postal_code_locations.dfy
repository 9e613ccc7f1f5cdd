/**
 * `PostalCodeLocation`: one postal code and what the address file says about
 * it, per municipality. The three dictionaries keyed by municipality code are
 * maps here; `attachOrder` is the order in which municipality codes first went
 * into `_municipalityByCode`, the order in which that dictionary enumerates them.
 */
module PostalCodeLocations {
  import opened Wrappers
  import opened Text
  import opened Dates
  import opened Codes
  import opened Municipalities
  import opened StreetAddressRanges
  import opened Ranking

  datatype PostalCodeLocation = PostalCodeLocation(
    runningDate: Option<Date>,
    code: string,
    nameFi: string,
    nameSv: string,
    abbrFi: string,
    abbrSv: string,
    entryIntoForce: Option<Date>,
    typeCode: Option<PostalCodeType>,
    municipalities: map<string, Municipality>,
    attachOrder: seq<string>,
    ranges: map<string, seq<StreetAddressRange>>,
    counts: map<string, int>,
    primary: Option<Municipality>)

  /** The attributes fixed when the location is created. */
  function Attributes(loc: PostalCodeLocation):
    (Option<Date>, string, string, string, string, string, Option<Date>, Option<PostalCodeType>)
  {
    (loc.runningDate, loc.code, loc.nameFi, loc.nameSv, loc.abbrFi, loc.abbrSv, loc.entryIntoForce, loc.typeCode)
  }

  /** Sum of the potential address counts of a list of ranges. */
  function TotalPotential(rs: seq<StreetAddressRange>): nat {
    if |rs| == 0 then 0 else TotalPotential(rs[..|rs| - 1]) + rs[|rs| - 1].potential
  }

  /**
   * The class invariant the operations below keep: the three maps share one
   * key set, which is exactly the set of attached codes (each attached once);
   * each municipality is stored under its own code; each count is the total of
   * its range list; each range belongs to this postal code and to the
   * municipality it is filed under.
   */
  ghost predicate Valid(loc: PostalCodeLocation) {
    && KeysAgree(loc)
    && AttachedOnce(loc)
    && StoredUnderOwnCode(loc)
    && CountsAreTotals(loc)
    && RangesFiled(loc)
  }

  ghost predicate KeysAgree(loc: PostalCodeLocation) {
    loc.municipalities.Keys == loc.ranges.Keys && loc.ranges.Keys == loc.counts.Keys
  }

  ghost predicate AttachedOnce(loc: PostalCodeLocation) {
    && (forall i, j :: 0 <= i < j < |loc.attachOrder| ==> loc.attachOrder[i] != loc.attachOrder[j])
    && (forall c :: c in loc.attachOrder <==> c in loc.municipalities)
  }

  ghost predicate StoredUnderOwnCode(loc: PostalCodeLocation) {
    forall c :: c in loc.municipalities ==> loc.municipalities[c].code == c
  }

  ghost predicate CountsAreTotals(loc: PostalCodeLocation) {
    forall c :: c in loc.counts ==> c in loc.ranges && loc.counts[c] == TotalPotential(loc.ranges[c])
  }

  ghost predicate RangesFiled(loc: PostalCodeLocation) {
    forall c, i :: c in loc.ranges && 0 <= i < |loc.ranges[c]| ==>
      loc.ranges[c][i].municipalityCode == c && loc.ranges[c][i].postalCode == loc.code
  }

  /** The primary constructor: no municipality attached yet, no primary chosen. */
  function NewPostalCodeLocation(
    runningDate: Option<Date>, code: string, nameFi: string, nameSv: string,
    abbrFi: string, abbrSv: string, entryIntoForce: Option<Date>,
    typeCode: Option<PostalCodeType>): (loc: PostalCodeLocation)
    ensures Valid(loc)
    ensures Attributes(loc) == (runningDate, code, nameFi, nameSv, abbrFi, abbrSv, entryIntoForce, typeCode)
    ensures loc.attachOrder == [] && loc.municipalities == map[] && loc.primary == None
  {
    PostalCodeLocation(runningDate, code, nameFi, nameSv, abbrFi, abbrSv, entryIntoForce, typeCode,
                       map[], [], map[], map[], None)
  }

  /**
   * `AddToMunicipality`: three `TryAdd`s keyed by the municipality's code. A
   * code already present keeps its municipality, range list and count, so a
   * repeated attach changes nothing.
   */
  function AddToMunicipality(loc: PostalCodeLocation, m: Municipality): (r: PostalCodeLocation)
    ensures m.code in r.municipalities && m.code in r.ranges && m.code in r.counts
    ensures Valid(loc) ==> Valid(r)
    ensures Valid(loc) && m.code in loc.municipalities ==> r == loc
    ensures m.code !in loc.municipalities ==>
              r.municipalities == loc.municipalities[m.code := m] && r.attachOrder == loc.attachOrder + [m.code]
    ensures Valid(loc) && m.code !in loc.municipalities ==>
              r.ranges == loc.ranges[m.code := []] && r.counts == loc.counts[m.code := 0]
    ensures forall c :: c in loc.municipalities ==> c in r.municipalities && r.municipalities[c] == loc.municipalities[c]
    ensures forall c :: c in r.municipalities ==> c in loc.municipalities || c == m.code
    ensures loc.attachOrder <= r.attachOrder
    ensures Attributes(r) == Attributes(loc) && r.primary == loc.primary
  {
    var c := m.code;
    var r := loc.(
      municipalities := if c in loc.municipalities then loc.municipalities else loc.municipalities[c := m],
      attachOrder := if c in loc.municipalities then loc.attachOrder else loc.attachOrder + [c],
      ranges := if c in loc.ranges then loc.ranges else loc.ranges[c := []],
      counts := if c in loc.counts then loc.counts else loc.counts[c := 0]);
    assert Valid(loc) && c !in loc.municipalities ==> Valid(r) by {
      if Valid(loc) && c !in loc.municipalities {
        AttachKeepsValid(loc, m, r);
      }
    }
    r
  }

  lemma AttachKeepsValid(loc: PostalCodeLocation, m: Municipality, r: PostalCodeLocation)
    requires Valid(loc) && m.code !in loc.municipalities
    requires r == loc.(municipalities := loc.municipalities[m.code := m],
                       attachOrder := loc.attachOrder + [m.code],
                       ranges := loc.ranges[m.code := []],
                       counts := loc.counts[m.code := 0])
    ensures Valid(r)
  {
    var c := m.code;
    assert KeysAgree(r);
    assert AttachedOnce(r) by {
      assert c !in loc.attachOrder;
      forall i, j | 0 <= i < j < |r.attachOrder| ensures r.attachOrder[i] != r.attachOrder[j] {
        if j < |loc.attachOrder| {
          assert r.attachOrder[i] == loc.attachOrder[i] && r.attachOrder[j] == loc.attachOrder[j];
        } else {
          assert r.attachOrder[j] == c && r.attachOrder[i] == loc.attachOrder[i];
        }
      }
      forall d ensures d in r.attachOrder <==> d in r.municipalities {
        assert d in r.attachOrder <==> d in loc.attachOrder || d == c;
      }
    }
    assert StoredUnderOwnCode(r) by {
      forall d | d in r.municipalities ensures r.municipalities[d].code == d {
        if d != c {
          assert r.municipalities[d] == loc.municipalities[d];
        }
      }
    }
    assert CountsAreTotals(r) by {
      forall d | d in r.counts ensures d in r.ranges && r.counts[d] == TotalPotential(r.ranges[d]) {
        if d != c {
          assert r.counts[d] == loc.counts[d] && r.ranges[d] == loc.ranges[d];
        }
      }
    }
    assert RangesFiled(r) by {
      forall d, i | d in r.ranges && 0 <= i < |r.ranges[d]|
        ensures r.ranges[d][i].municipalityCode == d && r.ranges[d][i].postalCode == r.code
      {
        assert d != c && r.ranges[d] == loc.ranges[d];
      }
    }
  }

  /** A repeated attach under the same code, whatever municipality value it carries, is a no-op. */
  lemma AddToMunicipalityIdempotent(loc: PostalCodeLocation, m: Municipality, m': Municipality)
    requires Valid(loc) && m'.code == m.code
    ensures AddToMunicipality(AddToMunicipality(loc, m), m') == AddToMunicipality(loc, m)
  {
  }

  /**
   * `AddStreetAddressRange`: attaches the municipality, then appends one newly
   * constructed range to its list and adds that range's potential count to its
   * total. Every other municipality code keeps its list and its count.
   */
  function AddStreetAddressRange(
    loc: PostalCodeLocation, runningDate: Option<Date>, m: Municipality,
    nameFi: string, nameSv: string, addressRange: seq<string>,
    parity: Parity, s: UInt32, h: UInt32): (r: PostalCodeLocation)
    ensures Valid(loc) ==> Valid(r)
    ensures r.municipalities == AddToMunicipality(loc, m).municipalities
    ensures r.attachOrder == AddToMunicipality(loc, m).attachOrder
    ensures Attributes(r) == Attributes(loc) && r.primary == loc.primary
    ensures Valid(loc) ==>
              var added := NewStreetAddressRange(runningDate, loc.code, m.code, nameFi, nameSv, addressRange, parity, s, h);
              && m.code in r.ranges && m.code in r.counts
              && r.ranges[m.code] == (if m.code in loc.ranges then loc.ranges[m.code] else []) + [added]
              && r.counts[m.code] == (if m.code in loc.counts then loc.counts[m.code] else 0) + added.potential
    ensures forall c :: c != m.code ==> (c in r.ranges <==> c in loc.ranges) && (c in r.counts <==> c in loc.counts)
    ensures forall c :: c != m.code && c in loc.ranges ==> r.ranges[c] == loc.ranges[c]
    ensures forall c :: c != m.code && c in loc.counts ==> r.counts[c] == loc.counts[c]
  {
    var attached := AddToMunicipality(loc, m);
    var c := m.code;
    var added := NewStreetAddressRange(runningDate, loc.code, c, nameFi, nameSv, addressRange, parity, s, h);
    var r := attached.(ranges := attached.ranges[c := attached.ranges[c] + [added]],
                       counts := attached.counts[c := attached.counts[c] + added.potential]);
    assert Valid(loc) ==> Valid(r) by {
      if Valid(loc) {
        AppendKeepsValid(attached, c, added, r);
      }
    }
    r
  }

  lemma AppendKeepsValid(loc: PostalCodeLocation, c: string, added: StreetAddressRange, r: PostalCodeLocation)
    requires Valid(loc) && c in loc.municipalities
    requires added.municipalityCode == c && added.postalCode == loc.code
    requires r == loc.(ranges := loc.ranges[c := loc.ranges[c] + [added]],
                       counts := loc.counts[c := loc.counts[c] + added.potential])
    ensures Valid(r)
  {
    assert KeysAgree(r);
    assert AttachedOnce(r) by {
      assert r.attachOrder == loc.attachOrder && r.municipalities == loc.municipalities;
    }
    assert StoredUnderOwnCode(r) by {
      assert r.municipalities == loc.municipalities;
    }
    AppendKeepsTotals(loc, c, added, r);
    AppendKeepsFiled(loc, c, added, r);
  }

  lemma AppendKeepsTotals(loc: PostalCodeLocation, c: string, added: StreetAddressRange, r: PostalCodeLocation)
    requires CountsAreTotals(loc) && c in loc.counts && c in loc.ranges
    requires r == loc.(ranges := loc.ranges[c := loc.ranges[c] + [added]],
                       counts := loc.counts[c := loc.counts[c] + added.potential])
    ensures CountsAreTotals(r)
  {
    var list := loc.ranges[c] + [added];
    assert list[..|list| - 1] == loc.ranges[c];
    forall d | d in r.counts ensures d in r.ranges && r.counts[d] == TotalPotential(r.ranges[d]) {
      if d != c {
        assert r.counts[d] == loc.counts[d] && r.ranges[d] == loc.ranges[d];
      }
    }
  }

  lemma AppendKeepsFiled(loc: PostalCodeLocation, c: string, added: StreetAddressRange, r: PostalCodeLocation)
    requires RangesFiled(loc) && c in loc.ranges && c in loc.counts
    requires added.municipalityCode == c && added.postalCode == loc.code
    requires r == loc.(ranges := loc.ranges[c := loc.ranges[c] + [added]],
                       counts := loc.counts[c := loc.counts[c] + added.potential])
    ensures RangesFiled(r)
  {
    forall d, i | d in r.ranges && 0 <= i < |r.ranges[d]|
      ensures r.ranges[d][i].municipalityCode == d && r.ranges[d][i].postalCode == r.code
    {
      if d == c && i < |loc.ranges[c]| {
        assert r.ranges[d][i] == loc.ranges[c][i];
      }
    }
  }

  // ---------------------------------------------------------------------------
  // Name similarity
  // ---------------------------------------------------------------------------

  /**
   * One language of `IsNameSimilarToMunicipalityName`: both names padded with
   * one space, neither blank, and one a case-insensitive prefix of the other.
   */
  predicate PaddedNamesMatch(a: string, b: string) {
    var pa := a + " ";
    var pb := b + " ";
    !IsBlank(pa) && !IsBlank(pb) && (StartsWithIgnoreCase(pa, pb) || StartsWithIgnoreCase(pb, pa))
  }

  /**
   * `IsNameSimilarToMunicipalityName`: the Finnish names match or the Swedish
   * names match, where two names match when neither is blank and they are
   * equal up to case, or one begins the other as a whole word.
   */
  predicate IsNameSimilarToMunicipalityName(loc: PostalCodeLocation, m: Municipality)
    ensures IsNameSimilarToMunicipalityName(loc, m) <==>
              NamesAlike(m.nameFi, loc.nameFi) || NamesAlike(m.nameSv, loc.nameSv)
  {
    PaddedNamesMatchIsWordPrefix(m.nameFi, loc.nameFi);
    PaddedNamesMatchIsWordPrefix(m.nameSv, loc.nameSv);
    PaddedNamesMatch(m.nameFi, loc.nameFi) || PaddedNamesMatch(m.nameSv, loc.nameSv)
  }

  /** The unpadded reading of one language's match. */
  predicate NamesAlike(a: string, b: string) {
    !IsBlank(a) && !IsBlank(b) && (EqualIgnoringCase(a, b) || WordPrefix(a, b) || WordPrefix(b, a))
  }

  /** `short` begins `long` as a whole word: a case-insensitive prefix followed by a space. */
  predicate WordPrefix(long: string, short: string) {
    |short| < |long| && StartsWithIgnoreCase(long, short) && long[|short|] == ' '
  }

  predicate EqualIgnoringCase(a: string, b: string) {
    |a| == |b| && StartsWithIgnoreCase(a, b)
  }

  lemma PaddedBlank(a: string)
    ensures IsBlank(a + " ") <==> IsBlank(a)
  {
    if IsBlank(a + " ") {
      forall i | 0 <= i < |a| ensures IsWhiteSpace(a[i]) {
        assert (a + " ")[i] == a[i];
      }
    }
  }

  lemma PaddedPrefix(a: string, b: string)
    ensures StartsWithIgnoreCase(a + " ", b + " ") <==> EqualIgnoringCase(a, b) || WordPrefix(a, b)
  {
    var pa, pb := a + " ", b + " ";
    if StartsWithIgnoreCase(pa, pb) {
      forall i | 0 <= i < |b| ensures FoldCase(a[i]) == FoldCase(b[i]) {
        assert pa[i] == a[i] && pb[i] == b[i];
      }
      if |b| < |a| {
        assert FoldCase(pa[|b|]) == FoldCase(pb[|b|]);
        FoldCaseSpace(a[|b|]);
      }
    }
    if EqualIgnoringCase(a, b) || WordPrefix(a, b) {
      forall i | 0 <= i < |pb| ensures FoldCase(pa[i]) == FoldCase(pb[i]) {
        if i < |b| {
          assert pa[i] == a[i] && pb[i] == b[i];
        }
      }
    }
  }

  /**
   * What the space padding achieves: two names match in a language exactly
   * when neither is blank and they are equal up to case, or one is a whole-word
   * prefix of the other.
   */
  lemma PaddedNamesMatchIsWordPrefix(a: string, b: string)
    ensures PaddedNamesMatch(a, b) <==> NamesAlike(a, b)
  {
    PaddedBlank(a);
    PaddedBlank(b);
    PaddedPrefix(a, b);
    PaddedPrefix(b, a);
    if EqualIgnoringCase(b, a) {
      assert EqualIgnoringCase(a, b);
    }
  }

  /** The examples the source's comment gives: "Vihtijärvi" is not "Vihti", "Laukaa As" is "Laukaa". */
  lemma SimilarityExamples()
    ensures !PaddedNamesMatch("Vihtijärvi", "Vihti")
    ensures PaddedNamesMatch("Laukaa As", "Laukaa")
    ensures PaddedNamesMatch("LAUKAA", "Laukaa")
  {
    PaddedNamesMatchIsWordPrefix("Vihtijärvi", "Vihti");
    PaddedNamesMatchIsWordPrefix("Laukaa As", "Laukaa");
    PaddedNamesMatchIsWordPrefix("LAUKAA", "Laukaa");
    assert !IsWhiteSpace("Vihti"[0]) && !IsWhiteSpace("Laukaa"[0]);
    assert !IsWhiteSpace("Laukaa As"[0]) && !IsWhiteSpace("LAUKAA"[0]);
    assert "Vihtijärvi"[5] != ' ';
    assert FoldCase("Vihtijärvi"[5]) != FoldCase(' ');
  }

  // ---------------------------------------------------------------------------
  // Ranking and the primary municipality
  // ---------------------------------------------------------------------------

  /** The sort key of an attached municipality. */
  function RankOf(loc: PostalCodeLocation, c: string): Rank
    requires c in loc.municipalities && c in loc.counts
  {
    Rank(c, IsNameSimilarToMunicipalityName(loc, loc.municipalities[c]), loc.counts[c])
  }

  function RanksOf(loc: PostalCodeLocation, codes: seq<string>): (r: seq<Rank>)
    requires forall c :: c in codes ==> c in loc.municipalities && c in loc.counts
    ensures |r| == |codes| && forall i :: 0 <= i < |codes| ==> r[i] == RankOf(loc, codes[i])
  {
    if |codes| == 0 then [] else [RankOf(loc, codes[0])] + RanksOf(loc, codes[1..])
  }

  /** The keys of the attached municipalities, in attachment order. */
  function AttachedRanks(loc: PostalCodeLocation): seq<Rank>
    requires Valid(loc)
  {
    RanksOf(loc, loc.attachOrder)
  }

  /**
   * The ranking `GetMunicipalities` sorts by: a permutation of the attached
   * keys in which nothing outranks an earlier entry and tied entries keep
   * their attachment order.
   */
  function RankMunicipalities(loc: PostalCodeLocation): (r: seq<Rank>)
    requires Valid(loc)
    ensures Sorted(r)
    ensures multiset(r) == multiset(AttachedRanks(loc))
    ensures forall k :: TiedWith(r, k) == TiedWith(AttachedRanks(loc), k)
    ensures |r| == |loc.attachOrder|
    ensures forall i :: 0 <= i < |r| ==> r[i].code in loc.municipalities && r[i] == RankOf(loc, r[i].code)
  {
    var ranks := AttachedRanks(loc);
    var r := StableSort(ranks);
    assert |r| == |ranks| by {
      assert |multiset(r)| == |multiset(ranks)|;
    }
    assert forall i :: 0 <= i < |r| ==> r[i].code in loc.municipalities && r[i] == RankOf(loc, r[i].code) by {
      forall i | 0 <= i < |r| ensures r[i].code in loc.municipalities && r[i] == RankOf(loc, r[i].code) {
        assert r[i] in multiset(r);
        var j :| 0 <= j < |ranks| && ranks[j] == r[i];
        assert loc.attachOrder[j] in loc.attachOrder;
      }
    }
    r
  }

  /** The municipalities a sequence of keys stands for. */
  function MunicipalitiesFor(loc: PostalCodeLocation, ranked: seq<Rank>): (ms: seq<Municipality>)
    requires forall i :: 0 <= i < |ranked| ==> ranked[i].code in loc.municipalities
    ensures |ms| == |ranked| && forall i :: 0 <= i < |ranked| ==> ms[i] == loc.municipalities[ranked[i].code]
  {
    if |ranked| == 0 then [] else [loc.municipalities[ranked[0].code]] + MunicipalitiesFor(loc, ranked[1..])
  }

  /** `GetMunicipalities`: the attached municipalities in ranking order. */
  function GetMunicipalities(loc: PostalCodeLocation): (ms: seq<Municipality>)
    requires Valid(loc)
    ensures |ms| == |loc.attachOrder|
    ensures forall i :: 0 <= i < |ms| ==> ms[i].code in loc.municipalities && loc.municipalities[ms[i].code] == ms[i]
    ensures forall i :: 0 <= i < |ms| ==> ms[i].code == RankMunicipalities(loc)[i].code
    ensures forall i, j :: 0 <= i < j < |ms| ==> !Outranks(RankOf(loc, ms[j].code), RankOf(loc, ms[i].code))
    ensures forall c :: c in loc.municipalities ==> loc.municipalities[c] in ms
  {
    var ranked := RankMunicipalities(loc);
    var ms := MunicipalitiesFor(loc, ranked);
    RankedMunicipalities(loc, ranked, ms);
    ms
  }

  lemma RankedMunicipalities(loc: PostalCodeLocation, ranked: seq<Rank>, ms: seq<Municipality>)
    requires Valid(loc) && ranked == RankMunicipalities(loc)
    requires |ms| == |ranked| && forall i :: 0 <= i < |ranked| ==> ms[i] == loc.municipalities[ranked[i].code]
    ensures forall i :: 0 <= i < |ms| ==> ms[i].code == ranked[i].code && ms[i].code in loc.municipalities
    ensures forall i, j :: 0 <= i < j < |ms| ==> !Outranks(RankOf(loc, ms[j].code), RankOf(loc, ms[i].code))
    ensures forall c :: c in loc.municipalities ==> loc.municipalities[c] in ms
  {
    assert StoredUnderOwnCode(loc);
    assert forall i :: 0 <= i < |ms| ==> ms[i].code == ranked[i].code;
    forall i, j | 0 <= i < j < |ms| ensures !Outranks(RankOf(loc, ms[j].code), RankOf(loc, ms[i].code)) {
      assert ranked[i] == RankOf(loc, ms[i].code) && ranked[j] == RankOf(loc, ms[j].code);
    }
    EveryAttachedIsRanked(loc, ranked, ms);
  }

  lemma EveryAttachedIsRanked(loc: PostalCodeLocation, ranked: seq<Rank>, ms: seq<Municipality>)
    requires Valid(loc) && ranked == RankMunicipalities(loc)
    requires |ms| == |ranked| && forall i :: 0 <= i < |ranked| ==> ms[i] == loc.municipalities[ranked[i].code]
    ensures forall c :: c in loc.municipalities ==> loc.municipalities[c] in ms
  {
    forall c | c in loc.municipalities ensures loc.municipalities[c] in ms {
      var ranks := AttachedRanks(loc);
      assert AttachedOnce(loc);
      var j :| 0 <= j < |loc.attachOrder| && loc.attachOrder[j] == c;
      assert ranks[j] in multiset(ranked);
      var i :| 0 <= i < |ranked| && ranked[i] == ranks[j];
      assert ms[i] == loc.municipalities[c];
    }
  }

  /**
   * `PrimaryMunicipality`: the cached value if there is one; otherwise the
   * first of `GetMunicipalities`, which is then cached in the returned
   * location. None stands for the exception `First()` throws when no
   * municipality is attached.
   */
  function PrimaryMunicipality(loc: PostalCodeLocation): (r: Option<(Municipality, PostalCodeLocation)>)
    requires Valid(loc)
    ensures loc.primary.Some? ==> r == Some((loc.primary.value, loc))
    ensures loc.primary.None? ==> (r.Some? <==> |loc.attachOrder| > 0)
    ensures loc.primary.None? && r.Some? ==>
              var (m, cached) := r.value;
              && m.code in loc.municipalities && loc.municipalities[m.code] == m
              && cached == loc.(primary := Some(m))
              && m == GetMunicipalities(loc)[0]
              && (forall c :: c in loc.municipalities ==> !Outranks(RankOf(loc, c), RankOf(loc, m.code)))
              && forall i, j :: 0 <= i < j < |loc.attachOrder| && loc.attachOrder[j] == m.code ==>
                   !Tied(RankOf(loc, loc.attachOrder[i]), RankOf(loc, m.code))
  {
    if loc.primary.Some? then Some((loc.primary.value, loc))
    else if |loc.attachOrder| == 0 then None
    else
      var ms := GetMunicipalities(loc);
      var m := ms[0];
      assert forall c :: c in loc.municipalities ==> !Outranks(RankOf(loc, c), RankOf(loc, m.code)) by {
        forall c | c in loc.municipalities ensures !Outranks(RankOf(loc, c), RankOf(loc, m.code)) {
          var i :| 0 <= i < |ms| && ms[i] == loc.municipalities[c];
          if i > 0 {
            assert ms[i].code == c;
          }
        }
      }
      FirstRankedIsEarliest(loc);
      Some((m, loc.(primary := Some(m))))
  }

  /**
   * Among the municipalities that tie for first place, the ranking puts the
   * one attached earliest in front: the sort is stable.
   */
  lemma FirstRankedIsEarliest(loc: PostalCodeLocation)
    requires Valid(loc) && |loc.attachOrder| > 0
    ensures forall i, j :: 0 <= i < j < |loc.attachOrder| && loc.attachOrder[j] == RankMunicipalities(loc)[0].code ==>
              !Tied(RankOf(loc, loc.attachOrder[i]), RankOf(loc, loc.attachOrder[j]))
  {
    var ranked := RankMunicipalities(loc);
    var ranks := AttachedRanks(loc);
    var k := ranked[0];
    TiedWithHead(ranked);
    assert TiedWith(ranks, k) == TiedWith(ranked, k);
    forall i, j | 0 <= i < |loc.attachOrder| && 0 <= j < |loc.attachOrder| && loc.attachOrder[j] == k.code && Tied(ranks[i], k)
      ensures j <= i
    {
      TiedWithEarliest(ranks, k, i);
      var h :| 0 <= h <= i && TiedWith(ranks, k)[0] == ranks[h];
      assert loc.attachOrder[h] == loc.attachOrder[j];
      assert AttachedOnce(loc);
    }
  }

  /** The operations that change a location after it is created. */
  datatype Update =
    | Attach(m: Municipality)
    | AddRange(runningDate: Option<Date>, m: Municipality, nameFi: string, nameSv: string,
               addressRange: seq<string>, parity: Parity, s: UInt32, h: UInt32)

  /** One update; either kind attaches `m` first, so both leave the same municipalities attached. */
  function ApplyUpdate(loc: PostalCodeLocation, u: Update): (r: PostalCodeLocation)
    ensures Valid(loc) ==> Valid(r)
    ensures Attributes(r) == Attributes(loc) && r.primary == loc.primary
    ensures r.municipalities == AddToMunicipality(loc, u.m).municipalities
    ensures r.attachOrder == AddToMunicipality(loc, u.m).attachOrder
  {
    match u
    case Attach(m) => AddToMunicipality(loc, m)
    case AddRange(d, m, fi, sv, ar, p, s, h) => AddStreetAddressRange(loc, d, m, fi, sv, ar, p, s, h)
  }

  function ApplyUpdates(loc: PostalCodeLocation, us: seq<Update>): (r: PostalCodeLocation)
    ensures Valid(loc) ==> Valid(r)
    ensures Attributes(r) == Attributes(loc) && r.primary == loc.primary
    ensures loc.attachOrder <= r.attachOrder
    ensures forall c :: c in loc.municipalities ==> c in r.municipalities && r.municipalities[c] == loc.municipalities[c]
    decreases |us|
  {
    if |us| == 0 then loc else ApplyUpdates(ApplyUpdate(loc, us[0]), us[1..])
  }

  /**
   * Once read, the primary municipality is fixed: whatever is attached or
   * added afterwards, later reads return the cached municipality, even when the
   * ranking would now put another municipality first.
   */
  lemma PrimaryIsFixedAfterFirstRead(loc: PostalCodeLocation, m: Municipality, us: seq<Update>)
    requires Valid(loc) && loc.primary == Some(m)
    ensures PrimaryMunicipality(ApplyUpdates(loc, us)) == Some((m, ApplyUpdates(loc, us)))
  {
  }
}
