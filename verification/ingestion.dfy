/**
 * The read passes of `PostalCodes_FI` and the memoised `GetPostalCodes`. The
 * three static dictionaries are a `Registry` threaded through pure per-line
 * steps; the `current*` locals of a pass are its `Cursors`. The exception
 * `new DateTime` throws on an impossible date ends a pass with `Threw`,
 * carrying the registry as far as it was filled.
 */
module Ingestion {
  import opened Wrappers
  import opened Dates
  import opened Codes
  import opened Municipalities
  import opened StreetAddressRanges
  import opened PostalCodeLocations
  import opened Records

  /** `_regions`, `_municipalities` and `_postalCodes`, each keyed by code. */
  datatype Registry = Registry(
    regions: map<string, AdministrativeRegion>,
    municipalities: map<string, Municipality>,
    postalCodes: map<string, PostalCodeLocation>)

  const EmptyRegistry: Registry := Registry(map[], map[], map[])

  /** Regions and municipalities are stored under their own codes, which is what the cursor shortcut relies on. */
  predicate Keyed(reg: Registry) {
    && (forall k :: k in reg.regions ==> reg.regions[k].code == k)
    && (forall k :: k in reg.municipalities ==> reg.municipalities[k].code == k)
  }

  /**
   * What the passes keep true of the registry: entries are stored under their
   * own codes; a municipality's region is the registered one; every postal
   * code is a valid location with at least one municipality attached, and the
   * municipalities it holds are the registered ones.
   */
  ghost predicate Consistent(reg: Registry) {
    && Keyed(reg)
    && RegionsRegistered(reg)
    && PostalCodesLinked(reg)
  }

  ghost predicate RegionsRegistered(reg: Registry) {
    forall k :: k in reg.municipalities ==> RegionRegistered(reg, reg.municipalities[k].region)
  }

  ghost predicate RegionRegistered(reg: Registry, region: Option<AdministrativeRegion>) {
    region.Some? ==> region.value.code in reg.regions && reg.regions[region.value.code] == region.value
  }

  ghost predicate PostalCodesLinked(reg: Registry) {
    forall k :: k in reg.postalCodes ==> LocationLinked(reg, k, reg.postalCodes[k])
  }

  ghost predicate LocationLinked(reg: Registry, k: string, loc: PostalCodeLocation) {
    && loc.code == k
    && Valid(loc)
    && |loc.attachOrder| > 0
    && forall c :: c in loc.municipalities ==> c in reg.municipalities && reg.municipalities[c] == loc.municipalities[c]
  }

  lemma EmptyRegistryConsistent()
    ensures Consistent(EmptyRegistry) && |EmptyRegistry.postalCodes| == 0
  {
  }

  /**
   * `b` grows `a`: regions and municipalities are never replaced (the first
   * one registered under a code wins), and a postal code keeps its attributes
   * and every municipality attached to it.
   */
  ghost predicate Extends(a: Registry, b: Registry) {
    && (forall k :: k in a.regions ==> k in b.regions && b.regions[k] == a.regions[k])
    && (forall k :: k in a.municipalities ==> k in b.municipalities && b.municipalities[k] == a.municipalities[k])
    && (forall k :: k in a.postalCodes ==> k in b.postalCodes && LocationGrows(a.postalCodes[k], b.postalCodes[k]))
  }

  ghost predicate LocationGrows(a: PostalCodeLocation, b: PostalCodeLocation) {
    && Attributes(b) == Attributes(a)
    && forall c :: c in a.municipalities ==> c in b.municipalities && b.municipalities[c] == a.municipalities[c]
  }

  lemma ExtendsTransitive(a: Registry, b: Registry, c: Registry)
    requires Extends(a, b) && Extends(b, c)
    ensures Extends(a, c)
  {
  }

  // ---------------------------------------------------------------------------
  // Lookups
  // ---------------------------------------------------------------------------

  /** `TryGetValue`, else `Add`: what is already stored under `k` wins over `created`. */
  function GetOrCreate<V>(m: map<string, V>, k: string, created: V): (r: (V, map<string, V>))
    ensures r.1.Keys == m.Keys + {k}
    ensures k in r.1 && r.1[k] == r.0
    ensures forall j :: j in m ==> r.1[j] == m[j]
    ensures k !in m ==> r.0 == created
  {
    if k in m then (m[k], m) else (created, m[k := created])
  }

  /** A second call with the same code finds the entry the first one stored. */
  lemma GetOrCreateIdempotent<V>(m: map<string, V>, k: string, created: V, created': V)
    ensures var (v, m') := GetOrCreate(m, k, created); GetOrCreate(m', k, created') == (v, m')
  {
  }

  /** The pass's local `current*` variables; the postal code is held by its code. */
  datatype Cursors = Cursors(
    region: Option<AdministrativeRegion>,
    municipality: Option<Municipality>,
    postalCode: Option<string>)

  const NoCursors: Cursors := Cursors(None, None, None)

  /** Every cursor is the entry registered under its code. */
  predicate CursorsAgree(reg: Registry, cur: Cursors) {
    && RegionCursorAgrees(reg.regions, cur.region)
    && MunicipalityCursorAgrees(reg.municipalities, cur.municipality)
    && (cur.postalCode.Some? ==> cur.postalCode.value in reg.postalCodes)
  }

  predicate RegionCursorAgrees(regions: map<string, AdministrativeRegion>, cursor: Option<AdministrativeRegion>) {
    cursor.Some? ==> cursor.value.code in regions && regions[cursor.value.code] == cursor.value
  }

  predicate MunicipalityCursorAgrees(municipalities: map<string, Municipality>, cursor: Option<Municipality>) {
    cursor.Some? ==> cursor.value.code in municipalities && municipalities[cursor.value.code] == cursor.value
  }

  /**
   * `if (currentRegion == null || currentRegion.Code != code) { lookup or add }`:
   * the shortcut through the cursor finds what the plain lookup would.
   */
  function ResolveRegion(regions: map<string, AdministrativeRegion>, cursor: Option<AdministrativeRegion>,
                         code: string, created: AdministrativeRegion): (r: (AdministrativeRegion, map<string, AdministrativeRegion>))
    requires RegionCursorAgrees(regions, cursor)
    ensures r == GetOrCreate(regions, code, created)
  {
    if cursor.Some? && cursor.value.code == code then (cursor.value, regions)
    else GetOrCreate(regions, code, created)
  }

  /** The same shortcut for the municipality cursor. */
  function ResolveMunicipality(municipalities: map<string, Municipality>, cursor: Option<Municipality>,
                               code: string, created: Municipality): (r: (Municipality, map<string, Municipality>))
    requires MunicipalityCursorAgrees(municipalities, cursor)
    ensures r == GetOrCreate(municipalities, code, created)
  {
    if cursor.Some? && cursor.value.code == code then (cursor.value, municipalities)
    else GetOrCreate(municipalities, code, created)
  }

  /** The location a record starts when its postal code is new. */
  function NewLocationOf(code: string, fields: PostalCodeFields, runningDate: Option<Date>): (loc: PostalCodeLocation)
    requires !fields.entryIntoForce.InvalidDate?
    ensures Valid(loc) && loc.code == code && loc.attachOrder == [] && loc.municipalities == map[] && loc.ranges == map[]
    ensures loc.entryIntoForce == fields.entryIntoForce.AsOption() && loc.typeCode == fields.typeCode
  {
    NewPostalCodeLocation(runningDate, code, fields.nameFi, fields.nameSv, fields.abbrFi, fields.abbrSv,
                          fields.entryIntoForce.AsOption(), fields.typeCode)
  }

  /**
   * The postal code of a record: the cursor's, else the registered one, else a
   * new location. Its entry-into-force date is turned into a `DateTime` only
   * in the last case, so only then can it throw (None).
   */
  function EnsurePostalCode(pcs: map<string, PostalCodeLocation>, cursor: Option<string>,
                            code: string, fields: PostalCodeFields, runningDate: Option<Date>)
    : (r: Option<map<string, PostalCodeLocation>>)
    requires cursor.Some? ==> cursor.value in pcs
    ensures r.None? <==> code !in pcs && fields.entryIntoForce.InvalidDate?
    ensures r.Some? ==> r.value.Keys == pcs.Keys + {code} && forall k :: k in pcs ==> r.value[k] == pcs[k]
    ensures r.Some? && code !in pcs ==> r.value[code] == NewLocationOf(code, fields, runningDate)
  {
    if cursor == Some(code) || code in pcs then Some(pcs)
    else if fields.entryIntoForce.InvalidDate? then None
    else Some(pcs[code := NewLocationOf(code, fields, runningDate)])
  }

  /** The location registered under `code` before a record is applied, or the new one the record starts. */
  function LocationBefore(reg: Registry, code: string, fields: PostalCodeFields, runningDate: Option<Date>)
    : PostalCodeLocation
    requires code in reg.postalCodes || !fields.entryIntoForce.InvalidDate?
  {
    if code in reg.postalCodes then reg.postalCodes[code] else NewLocationOf(code, fields, runningDate)
  }

  /**
   * Resolves the postal code of a record and applies `u` (attach, or add a
   * range) to it. Whatever the cursor, the outcome is that of a plain lookup,
   * and every other postal code is left as it was.
   */
  function RegisterPostalCode(reg: Registry, cursor: Option<string>, code: string, fields: PostalCodeFields,
                              runningDate: Option<Date>, u: Update): (r: Option<Registry>)
    requires cursor.Some? ==> cursor.value in reg.postalCodes
    ensures r.None? <==> code !in reg.postalCodes && fields.entryIntoForce.InvalidDate?
    ensures r.Some? ==>
              r.value == reg.(postalCodes := reg.postalCodes[code := ApplyUpdate(LocationBefore(reg, code, fields, runningDate), u)])
  {
    var ensured := EnsurePostalCode(reg.postalCodes, cursor, code, fields, runningDate);
    if ensured.None? then None
    else
      var before := ensured.value[code];
      var after := ApplyUpdate(before, u);
      assert before == LocationBefore(reg, code, fields, runningDate);
      SameUpdate(ensured.value, reg.postalCodes, code, after);
      Some(reg.(postalCodes := ensured.value[code := after]))
  }

  /** Two maps that agree everywhere but at `k` agree once `k` is overwritten. */
  lemma SameUpdate<V>(a: map<string, V>, b: map<string, V>, k: string, v: V)
    requires a.Keys == b.Keys + {k}
    requires forall j :: j in b ==> a[j] == b[j]
    ensures a[k := v] == b[k := v]
  {
  }

  // ---------------------------------------------------------------------------
  // Registration keeps the registry consistent
  // ---------------------------------------------------------------------------

  lemma RegionRegistrationKeepsConsistent(reg: Registry, code: string, created: AdministrativeRegion)
    requires Consistent(reg) && created.code == code
    ensures var r := reg.(regions := GetOrCreate(reg.regions, code, created).1);
            Consistent(r) && Extends(reg, r)
  {
    var r := reg.(regions := GetOrCreate(reg.regions, code, created).1);
    assert RegionsRegistered(r) by {
      forall k | k in r.municipalities ensures RegionRegistered(r, r.municipalities[k].region) {
        assert RegionRegistered(reg, reg.municipalities[k].region);
      }
    }
    assert PostalCodesLinked(r) by {
      forall k | k in r.postalCodes ensures LocationLinked(r, k, r.postalCodes[k]) {
        assert LocationLinked(reg, k, reg.postalCodes[k]);
      }
    }
  }

  lemma MunicipalityRegistrationKeepsConsistent(reg: Registry, code: string, created: Municipality)
    requires Consistent(reg) && created.code == code && RegionRegistered(reg, created.region)
    ensures var r := reg.(municipalities := GetOrCreate(reg.municipalities, code, created).1);
            Consistent(r) && Extends(reg, r)
  {
    var r := reg.(municipalities := GetOrCreate(reg.municipalities, code, created).1);
    assert RegionsRegistered(r) by {
      forall k | k in r.municipalities ensures RegionRegistered(r, r.municipalities[k].region) {
        if k != code || code in reg.municipalities {
          assert RegionRegistered(reg, reg.municipalities[k].region);
        }
      }
    }
    assert PostalCodesLinked(r) by {
      forall k | k in r.postalCodes ensures LocationLinked(r, k, r.postalCodes[k]) {
        assert LocationLinked(reg, k, reg.postalCodes[k]);
      }
    }
  }

  /** What a record's postal code starts from is a valid location under that code. */
  lemma LocationBeforeValid(reg: Registry, code: string, fields: PostalCodeFields, runningDate: Option<Date>)
    requires Consistent(reg)
    requires code in reg.postalCodes || !fields.entryIntoForce.InvalidDate?
    ensures var before := LocationBefore(reg, code, fields, runningDate);
            && Valid(before) && before.code == code
            && (code !in reg.postalCodes ==> before.municipalities == map[] && before.ranges == map[])
  {
    if code in reg.postalCodes {
      assert LocationLinked(reg, code, reg.postalCodes[code]);
    }
  }

  lemma UpdateKeepsConsistent(reg: Registry, pc: string, before: PostalCodeLocation, u: Update, r: Registry)
    requires Consistent(reg)
    requires pc in reg.postalCodes ==> before == reg.postalCodes[pc]
    requires pc !in reg.postalCodes ==> Valid(before) && before.code == pc && before.municipalities == map[]
    requires u.m.code in reg.municipalities && reg.municipalities[u.m.code] == u.m
    requires r == reg.(postalCodes := reg.postalCodes[pc := ApplyUpdate(before, u)])
    ensures Consistent(r) && Extends(reg, r)
  {
    var after := ApplyUpdate(before, u);
    UpdatedLocationLinked(reg, pc, before, u);
    ReplacedLocationLinked(reg, pc, after, r);
    assert pc in reg.postalCodes ==> LocationGrows(before, after);
    ReplacedLocationGrows(reg, pc, after, r);
  }

  lemma UpdatedLocationLinked(reg: Registry, pc: string, before: PostalCodeLocation, u: Update)
    requires Consistent(reg)
    requires pc in reg.postalCodes ==> before == reg.postalCodes[pc]
    requires pc !in reg.postalCodes ==> Valid(before) && before.code == pc && before.municipalities == map[]
    requires u.m.code in reg.municipalities && reg.municipalities[u.m.code] == u.m
    ensures LocationLinked(reg, pc, ApplyUpdate(before, u))
  {
    assert Valid(before) && before.code == pc by {
      if pc in reg.postalCodes {
        assert LocationLinked(reg, pc, before);
      }
    }
    assert forall c :: c in before.municipalities ==> c in reg.municipalities && reg.municipalities[c] == before.municipalities[c] by {
      if pc in reg.postalCodes {
        assert LocationLinked(reg, pc, before);
      }
    }
    AppliedLocationLinked(reg, pc, before, u);
  }

  lemma AppliedLocationLinked(reg: Registry, pc: string, before: PostalCodeLocation, u: Update)
    requires Valid(before) && before.code == pc
    requires forall c :: c in before.municipalities ==> c in reg.municipalities && reg.municipalities[c] == before.municipalities[c]
    requires u.m.code in reg.municipalities && reg.municipalities[u.m.code] == u.m
    ensures LocationLinked(reg, pc, ApplyUpdate(before, u))
  {
    var after := ApplyUpdate(before, u);
    var attached := AddToMunicipality(before, u.m);
    assert after.municipalities == attached.municipalities && after.attachOrder == attached.attachOrder;
    assert Attributes(after) == Attributes(before);
    assert Valid(after);
    assert u.m.code in after.attachOrder by {
      assert AttachedOnce(after);
    }
    forall c | c in after.municipalities
      ensures c in reg.municipalities && reg.municipalities[c] == after.municipalities[c]
    {
      if c !in before.municipalities {
        assert c == u.m.code && attached.municipalities == before.municipalities[c := u.m];
      }
    }
  }

  /** Replacing one location by a linked one keeps every location linked. */
  lemma ReplacedLocationLinked(reg: Registry, pc: string, after: PostalCodeLocation, r: Registry)
    requires Consistent(reg) && LocationLinked(reg, pc, after)
    requires r == reg.(postalCodes := reg.postalCodes[pc := after])
    ensures Consistent(r)
  {
    assert PostalCodesLinked(r) by {
      forall k | k in r.postalCodes ensures LocationLinked(r, k, r.postalCodes[k]) {
        if k != pc {
          assert LocationLinked(reg, k, reg.postalCodes[k]);
        }
      }
    }
  }

  /** Replacing one location by a grown one extends the registry. */
  lemma ReplacedLocationGrows(reg: Registry, pc: string, after: PostalCodeLocation, r: Registry)
    requires pc in reg.postalCodes ==> LocationGrows(reg.postalCodes[pc], after)
    requires r == reg.(postalCodes := reg.postalCodes[pc := after])
    ensures Extends(reg, r)
  {
    forall k | k in reg.postalCodes ensures k in r.postalCodes && LocationGrows(reg.postalCodes[k], r.postalCodes[k]) {
      if k != pc {
        assert r.postalCodes[k] == reg.postalCodes[k];
      }
    }
  }

  // ---------------------------------------------------------------------------
  // One record
  // ---------------------------------------------------------------------------

  /** The result of one record: go on with the next line, or stop with the exception. */
  datatype LineResult = Next(reg: Registry, cursors: Cursors) | Abort(reg: Registry)

  /**
   * A record throws exactly when its running date, or the entry-into-force
   * date of a postal code not registered yet, is an impossible date.
   */
  predicate Throws(reg: Registry, runningDate: DateField, code: string, fields: PostalCodeFields) {
    runningDate.InvalidDate? || (code !in reg.postalCodes && fields.entryIntoForce.InvalidDate?)
  }

  /**
   * One "PONOT" record: region, then municipality (a new one placed in that
   * region), then postal code, which gets the municipality attached.
   */
  function PostalCodeStep(reg: Registry, cur: Cursors, rec: PostalCodeRecord): (r: LineResult)
    requires Keyed(reg) && CursorsAgree(reg, cur)
    ensures Keyed(r.reg)
    ensures r.Abort? <==> Throws(reg, rec.runningDate, rec.postalCode, rec.location)
    ensures rec.runningDate.InvalidDate? ==> r.reg == reg
    ensures r.Next? ==> CursorsAgree(r.reg, r.cursors)
    ensures r.Next? ==>
              && rec.regionCode in r.reg.regions
              && rec.municipalityCode in r.reg.municipalities
              && rec.postalCode in r.reg.postalCodes
              && rec.municipalityCode in r.reg.postalCodes[rec.postalCode].municipalities
    ensures r.Next? && rec.municipalityCode !in reg.municipalities ==>
              r.reg.municipalities[rec.municipalityCode].region == Some(r.reg.regions[rec.regionCode])
  {
    if rec.runningDate.InvalidDate? then Abort(reg)
    else
      var runningDate := rec.runningDate.AsOption();
      var (region, regions) :=
        ResolveRegion(reg.regions, cur.region, rec.regionCode,
                      AdministrativeRegion(runningDate, rec.regionCode, rec.regionNameFi, rec.regionNameSv));
      var created := Municipality(runningDate, Some(region), rec.municipalityCode,
                                  rec.municipalityNameFi, rec.municipalityNameSv, rec.distribution);
      var (municipality, municipalities) :=
        ResolveMunicipality(reg.municipalities, cur.municipality, rec.municipalityCode, created);
      var reg2 := Registry(regions, municipalities, reg.postalCodes);
      match RegisterPostalCode(reg2, cur.postalCode, rec.postalCode, rec.location, runningDate, Attach(municipality))
      case None => Abort(reg2)
      case Some(reg3) => Next(reg3, Cursors(Some(region), Some(municipality), Some(rec.postalCode)))
  }

  lemma PostalCodeStepKeepsConsistent(reg: Registry, cur: Cursors, rec: PostalCodeRecord)
    requires Consistent(reg) && CursorsAgree(reg, cur)
    ensures Consistent(PostalCodeStep(reg, cur, rec).reg) && Extends(reg, PostalCodeStep(reg, cur, rec).reg)
  {
    if !rec.runningDate.InvalidDate? {
      var runningDate := rec.runningDate.AsOption();
      var createdRegion := AdministrativeRegion(runningDate, rec.regionCode, rec.regionNameFi, rec.regionNameSv);
      var (region, regions) := GetOrCreate(reg.regions, rec.regionCode, createdRegion);
      var reg1 := reg.(regions := regions);
      RegionRegistrationKeepsConsistent(reg, rec.regionCode, createdRegion);
      var created := Municipality(runningDate, Some(region), rec.municipalityCode,
                                  rec.municipalityNameFi, rec.municipalityNameSv, rec.distribution);
      var (municipality, municipalities) := GetOrCreate(reg1.municipalities, rec.municipalityCode, created);
      var reg2 := reg1.(municipalities := municipalities);
      MunicipalityRegistrationKeepsConsistent(reg1, rec.municipalityCode, created);
      ExtendsTransitive(reg, reg1, reg2);
      match RegisterPostalCode(reg2, cur.postalCode, rec.postalCode, rec.location, runningDate, Attach(municipality))
      case None =>
      case Some(reg3) =>
        LocationBeforeValid(reg2, rec.postalCode, rec.location, runningDate);
        UpdateKeepsConsistent(reg2, rec.postalCode, LocationBefore(reg2, rec.postalCode, rec.location, runningDate),
                              Attach(municipality), reg3);
        ExtendsTransitive(reg, reg2, reg3);
    }
  }

  /**
   * A postal code record adds nothing but its own region, municipality and
   * postal code, and a region or municipality it creates is built from the
   * record's columns (the municipality placed in the record's region).
   */
  lemma PostalCodeStepAddsOnlyItsOwn(reg: Registry, cur: Cursors, rec: PostalCodeRecord)
    requires Keyed(reg) && CursorsAgree(reg, cur)
    ensures var r := PostalCodeStep(reg, cur, rec).reg;
            && r.regions.Keys <= reg.regions.Keys + {rec.regionCode}
            && r.municipalities.Keys <= reg.municipalities.Keys + {rec.municipalityCode}
            && r.postalCodes.Keys <= reg.postalCodes.Keys + {rec.postalCode}
    ensures var r := PostalCodeStep(reg, cur, rec).reg;
            !rec.runningDate.InvalidDate? && rec.regionCode !in reg.regions ==>
              && rec.regionCode in r.regions
              && r.regions[rec.regionCode]
                 == AdministrativeRegion(rec.runningDate.AsOption(), rec.regionCode, rec.regionNameFi, rec.regionNameSv)
    ensures var r := PostalCodeStep(reg, cur, rec).reg;
            !rec.runningDate.InvalidDate? && rec.municipalityCode !in reg.municipalities ==>
              && rec.regionCode in r.regions
              && rec.municipalityCode in r.municipalities
              && r.municipalities[rec.municipalityCode]
                 == Municipality(rec.runningDate.AsOption(), Some(r.regions[rec.regionCode]), rec.municipalityCode,
                                 rec.municipalityNameFi, rec.municipalityNameSv, rec.distribution)
  {
  }

  /** The ranges a postal code lists under a municipality, none when either is not registered. */
  function RangesBefore(reg: Registry, pc: string, mc: string): seq<StreetAddressRange> {
    if pc in reg.postalCodes && mc in reg.postalCodes[pc].ranges then reg.postalCodes[pc].ranges[mc] else []
  }

  /**
   * One "KATUN" record: municipality (a new one without region or language
   * distribution, its names untrimmed), then postal code, to which one
   * street address range is added.
   */
  function AddressStep(reg: Registry, cur: Cursors, rec: AddressRecord): (r: LineResult)
    requires Keyed(reg) && CursorsAgree(reg, cur)
    ensures Keyed(r.reg)
    ensures r.Abort? <==> Throws(reg, rec.runningDate, rec.postalCode, rec.location)
    ensures rec.runningDate.InvalidDate? ==> r.reg == reg
    ensures r.Next? ==> CursorsAgree(r.reg, r.cursors)
    ensures r.reg.regions == reg.regions
    ensures NewMunicipalitiesUnplaced(reg, r.reg)
  {
    if rec.runningDate.InvalidDate? then Abort(reg)
    else
      var runningDate := rec.runningDate.AsOption();
      var created := Municipality(runningDate, None, rec.municipalityCode, rec.municipalityNameFi, rec.municipalityNameSv, None);
      var (municipality, municipalities) :=
        ResolveMunicipality(reg.municipalities, cur.municipality, rec.municipalityCode, created);
      var reg1 := reg.(municipalities := municipalities);
      var f := rec.range;
      var u := AddRange(runningDate, municipality, f.streetFi, f.streetSv, f.addressRange, f.parity, f.smallest, f.highest);
      match RegisterPostalCode(reg1, cur.postalCode, rec.postalCode, rec.location, runningDate, u)
      case None => Abort(reg1)
      case Some(reg2) =>
        assert reg2.regions == reg.regions && reg2.municipalities == municipalities && rec.postalCode in reg2.postalCodes;
        Next(reg2, cur.(municipality := Some(municipality), postalCode := Some(rec.postalCode)))
  }

  /**
   * An address record adds nothing but its own municipality and postal code,
   * and a municipality it creates has the record's names and neither region
   * nor language distribution.
   */
  lemma AddressStepAddsOnlyItsOwn(reg: Registry, cur: Cursors, rec: AddressRecord)
    requires Keyed(reg) && CursorsAgree(reg, cur)
    ensures var r := AddressStep(reg, cur, rec).reg;
            && r.municipalities.Keys <= reg.municipalities.Keys + {rec.municipalityCode}
            && r.postalCodes.Keys <= reg.postalCodes.Keys + {rec.postalCode}
    ensures var r := AddressStep(reg, cur, rec).reg;
            !rec.runningDate.InvalidDate? && rec.municipalityCode !in reg.municipalities ==>
              && rec.municipalityCode in r.municipalities
              && r.municipalities[rec.municipalityCode]
                 == Municipality(rec.runningDate.AsOption(), None, rec.municipalityCode,
                                 rec.municipalityNameFi, rec.municipalityNameSv, None)
  {
  }

  /** Municipalities first registered between `a` and `b` have neither region nor language distribution. */
  ghost predicate NewMunicipalitiesUnplaced(a: Registry, b: Registry) {
    forall c :: c in b.municipalities && c !in a.municipalities ==>
      b.municipalities[c].region.None? && b.municipalities[c].distribution.None?
  }

  lemma AddressStepKeepsConsistent(reg: Registry, cur: Cursors, rec: AddressRecord)
    requires Consistent(reg) && CursorsAgree(reg, cur)
    ensures Consistent(AddressStep(reg, cur, rec).reg) && Extends(reg, AddressStep(reg, cur, rec).reg)
  {
    if !rec.runningDate.InvalidDate? {
      var runningDate := rec.runningDate.AsOption();
      var created := Municipality(runningDate, None, rec.municipalityCode, rec.municipalityNameFi, rec.municipalityNameSv, None);
      var (municipality, municipalities) := GetOrCreate(reg.municipalities, rec.municipalityCode, created);
      var reg1 := reg.(municipalities := municipalities);
      MunicipalityRegistrationKeepsConsistent(reg, rec.municipalityCode, created);
      var f := rec.range;
      var u := AddRange(runningDate, municipality, f.streetFi, f.streetSv, f.addressRange, f.parity, f.smallest, f.highest);
      match RegisterPostalCode(reg1, cur.postalCode, rec.postalCode, rec.location, runningDate, u)
      case None =>
      case Some(reg2) =>
        LocationBeforeValid(reg1, rec.postalCode, rec.location, runningDate);
        UpdateKeepsConsistent(reg1, rec.postalCode, LocationBefore(reg1, rec.postalCode, rec.location, runningDate), u, reg2);
        ExtendsTransitive(reg, reg1, reg2);
    }
  }

  /**
   * An address record appends exactly one range, built from its columns, to
   * the list of its postal code under its municipality; every other list and
   * every other postal code stays as it was.
   */
  ghost predicate AppendsOneRange(a: Registry, b: Registry, rec: AddressRecord) {
    && !rec.runningDate.InvalidDate?
    && rec.postalCode in b.postalCodes
    && RangeAppended(a, b.postalCodes[rec.postalCode], rec)
    && OthersUnchanged(a.postalCodes, b.postalCodes, rec.postalCode)
  }

  ghost predicate RangeAppended(a: Registry, after: PostalCodeLocation, rec: AddressRecord)
    requires !rec.runningDate.InvalidDate?
  {
    var pc := rec.postalCode;
    var mc := rec.municipalityCode;
    var f := rec.range;
    && mc in after.ranges
    && after.ranges[mc] == RangesBefore(a, pc, mc) +
         [NewStreetAddressRange(rec.runningDate.AsOption(), pc, mc, f.streetFi, f.streetSv,
                                f.addressRange, f.parity, f.smallest, f.highest)]
    && (forall c :: c != mc && c in after.ranges ==> after.ranges[c] == RangesBefore(a, pc, c))
  }

  ghost predicate OthersUnchanged<V>(a: map<string, V>, b: map<string, V>, k: string) {
    forall j :: j in a && j != k ==> j in b && b[j] == a[j]
  }

  lemma AddressStepAppendsOneRange(reg: Registry, cur: Cursors, rec: AddressRecord)
    requires Consistent(reg) && CursorsAgree(reg, cur)
    ensures AddressStep(reg, cur, rec).Next? ==> AppendsOneRange(reg, AddressStep(reg, cur, rec).reg, rec)
  {
    if !rec.runningDate.InvalidDate? {
      var runningDate := rec.runningDate.AsOption();
      var created := Municipality(runningDate, None, rec.municipalityCode, rec.municipalityNameFi, rec.municipalityNameSv, None);
      var (municipality, municipalities) := GetOrCreate(reg.municipalities, rec.municipalityCode, created);
      var reg1 := reg.(municipalities := municipalities);
      var f := rec.range;
      var u := AddRange(runningDate, municipality, f.streetFi, f.streetSv, f.addressRange, f.parity, f.smallest, f.highest);
      match RegisterPostalCode(reg1, cur.postalCode, rec.postalCode, rec.location, runningDate, u)
      case None =>
      case Some(reg2) =>
        assert LocationBefore(reg1, rec.postalCode, rec.location, runningDate)
            == LocationBefore(reg, rec.postalCode, rec.location, runningDate);
        RangeAppendedTo(reg, rec, u, reg2);
    }
  }

  lemma RangeAppendedTo(reg: Registry, rec: AddressRecord, u: Update, reg2: Registry)
    requires Consistent(reg) && !rec.runningDate.InvalidDate?
    requires u.m.code == rec.municipalityCode
    requires var f := rec.range;
             u == AddRange(rec.runningDate.AsOption(), u.m, f.streetFi, f.streetSv, f.addressRange, f.parity, f.smallest, f.highest)
    requires rec.postalCode in reg.postalCodes || !rec.location.entryIntoForce.InvalidDate?
    requires reg2.postalCodes == reg.postalCodes[rec.postalCode :=
               ApplyUpdate(LocationBefore(reg, rec.postalCode, rec.location, rec.runningDate.AsOption()), u)]
    ensures AppendsOneRange(reg, reg2, rec)
  {
    var before := LocationBefore(reg, rec.postalCode, rec.location, rec.runningDate.AsOption());
    LocationBeforeValid(reg, rec.postalCode, rec.location, rec.runningDate.AsOption());
    AddressRangeAppended(reg, rec, u);
    UpdateLeavesOthers(reg.postalCodes, rec.postalCode, ApplyUpdate(before, u));
  }

  lemma AddressRangeAppended(reg: Registry, rec: AddressRecord, u: Update)
    requires !rec.runningDate.InvalidDate?
    requires u.m.code == rec.municipalityCode
    requires var f := rec.range;
             u == AddRange(rec.runningDate.AsOption(), u.m, f.streetFi, f.streetSv, f.addressRange, f.parity, f.smallest, f.highest)
    requires rec.postalCode in reg.postalCodes || !rec.location.entryIntoForce.InvalidDate?
    requires var before := LocationBefore(reg, rec.postalCode, rec.location, rec.runningDate.AsOption());
             Valid(before) && before.code == rec.postalCode && (rec.postalCode !in reg.postalCodes ==> before.ranges == map[])
    ensures RangeAppended(reg, ApplyUpdate(LocationBefore(reg, rec.postalCode, rec.location, rec.runningDate.AsOption()), u), rec)
  {
    var pc := rec.postalCode;
    var before := LocationBefore(reg, pc, rec.location, rec.runningDate.AsOption());
    var mc := rec.municipalityCode;
    var f := rec.range;
    var after := ApplyUpdate(before, u);
    assert after == AddStreetAddressRange(before, rec.runningDate.AsOption(), u.m, f.streetFi, f.streetSv,
                                          f.addressRange, f.parity, f.smallest, f.highest);
    assert forall c :: RangesBefore(reg, pc, c) == (if c in before.ranges then before.ranges[c] else []);
    forall c | c != mc && c in after.ranges ensures after.ranges[c] == RangesBefore(reg, pc, c) {
      assert c in before.ranges && after.ranges[c] == before.ranges[c];
    }
  }

  lemma UpdateLeavesOthers<V>(a: map<string, V>, k: string, v: V)
    ensures OthersUnchanged(a, a[k := v], k)
  {
  }

  // ---------------------------------------------------------------------------
  // Passes
  // ---------------------------------------------------------------------------

  /** The two fixed-width files, each read by the same loop with its own record step. */
  datatype Format = PostalCodeFile | BasicAddressFile {
    function LineLength(): nat {
      if PostalCodeFile? then POSTAL_CODE_LINE_LENGTH else BASIC_ADDRESS_LINE_LENGTH
    }

    function Tag(): string {
      if PostalCodeFile? then POSTAL_CODE_TAG else BASIC_ADDRESS_TAG
    }
  }

  /** Decodes one record line of the format and applies it. */
  function Step(format: Format, reg: Registry, cur: Cursors, line: string): (r: LineResult)
    requires |line| == format.LineLength()
    requires Keyed(reg) && CursorsAgree(reg, cur)
    ensures Keyed(r.reg)
    ensures r.Next? ==> CursorsAgree(r.reg, r.cursors)
    ensures format.BasicAddressFile? ==> r.reg.regions == reg.regions && NewMunicipalitiesUnplaced(reg, r.reg)
  {
    if format.PostalCodeFile? then PostalCodeStep(reg, cur, DecodePostalCodeLine(line))
    else AddressStep(reg, cur, DecodeAddressLine(line))
  }

  lemma StepKeepsConsistent(format: Format, reg: Registry, cur: Cursors, line: string)
    requires |line| == format.LineLength()
    requires Consistent(reg) && CursorsAgree(reg, cur)
    ensures Consistent(Step(format, reg, cur, line).reg) && Extends(reg, Step(format, reg, cur, line).reg)
  {
    if format.PostalCodeFile? {
      PostalCodeStepKeepsConsistent(reg, cur, DecodePostalCodeLine(line));
    } else {
      AddressStepKeepsConsistent(reg, cur, DecodeAddressLine(line));
    }
  }

  /** How a pass, or `GetPostalCodes`, ends; `Threw` holds the registry the exception left behind. */
  datatype Outcome = Done(reg: Registry) | Threw(reg: Registry)

  /**
   * The `do ... while` read loop over the lines `ReadLine` returns, the end of
   * the sequence standing for `null`: a line of another length ends it, a
   * blank line or one with another tag is skipped, a record line is applied.
   */
  function Pass(format: Format, reg: Registry, cur: Cursors, lines: seq<string>): (r: Outcome)
    requires Keyed(reg) && CursorsAgree(reg, cur)
    ensures Keyed(r.reg)
    ensures format.BasicAddressFile? ==> r.reg.regions == reg.regions
    decreases |lines|, 1
  {
    if |lines| == 0 then Done(reg)
    else
      match Classify(lines[0], format.LineLength(), format.Tag())
      case EndOfData => Done(reg)
      case Skipped => Pass(format, reg, cur, lines[1..])
      case Record => PassRecord(format, reg, cur, lines[0], lines[1..])
  }

  /** A record line applied, then the rest of the pass; the exception ends it. */
  function PassRecord(format: Format, reg: Registry, cur: Cursors, line: string, rest: seq<string>): (r: Outcome)
    requires |line| == format.LineLength()
    requires Keyed(reg) && CursorsAgree(reg, cur)
    ensures Keyed(r.reg)
    ensures format.BasicAddressFile? ==> r.reg.regions == reg.regions
    decreases |rest| + 1, 0
  {
    match Step(format, reg, cur, line)
    case Abort(reg') => Threw(reg')
    case Next(reg', cur') => Pass(format, reg', cur', rest)
  }

  /**
   * A pass, however it ends, leaves a consistent registry that extends the
   * one it started from; the municipalities the address pass adds have no
   * region and no language distribution.
   */
  lemma {:induction false} PassKeepsConsistent(format: Format, reg: Registry, cur: Cursors, lines: seq<string>)
    requires Consistent(reg) && CursorsAgree(reg, cur)
    ensures var r := Pass(format, reg, cur, lines);
            && Consistent(r.reg) && Extends(reg, r.reg)
            && (format.BasicAddressFile? ==> NewMunicipalitiesUnplaced(reg, r.reg))
    decreases |lines|, 1
  {
    if |lines| > 0 {
      match Classify(lines[0], format.LineLength(), format.Tag())
      case EndOfData =>
      case Skipped =>
        PassKeepsConsistent(format, reg, cur, lines[1..]);
      case Record =>
        PassRecordKeepsConsistent(format, reg, cur, lines[0], lines[1..]);
    }
  }

  lemma {:induction false} PassRecordKeepsConsistent(format: Format, reg: Registry, cur: Cursors,
                                                     line: string, rest: seq<string>)
    requires |line| == format.LineLength()
    requires Consistent(reg) && CursorsAgree(reg, cur)
    ensures var r := PassRecord(format, reg, cur, line, rest);
            && Consistent(r.reg) && Extends(reg, r.reg)
            && (format.BasicAddressFile? ==> NewMunicipalitiesUnplaced(reg, r.reg))
    decreases |rest| + 1, 0
  {
    StepKeepsConsistent(format, reg, cur, line);
    match Step(format, reg, cur, line)
    case Abort(_) =>
    case Next(reg', cur') =>
      PassKeepsConsistent(format, reg', cur', rest);
      ExtendsTransitive(reg, reg', Pass(format, reg', cur', rest).reg);
  }

  /**
   * A line of another length (including the empty line and the end of the
   * file) ends the pass: nothing after it is read.
   */
  lemma {:induction false} EndOfDataStopsPass(format: Format, reg: Registry, cur: Cursors,
                                              pre: seq<string>, line: string, post: seq<string>)
    requires Keyed(reg) && CursorsAgree(reg, cur)
    requires |line| != format.LineLength()
    ensures Pass(format, reg, cur, pre + [line] + post) == Pass(format, reg, cur, pre)
    decreases |pre|, 1
  {
    if |pre| == 0 {
      assert pre + [line] + post == [line] + post;
    } else {
      assert pre + [line] + post == pre + ([line] + post);
      assert pre[1..] + [line] + post == pre[1..] + ([line] + post);
      HeadTail(pre, [line] + post);
      match Classify(pre[0], format.LineLength(), format.Tag())
      case EndOfData =>
      case Skipped =>
        EndOfDataStopsPass(format, reg, cur, pre[1..], line, post);
      case Record =>
        EndOfDataAfterRecord(format, reg, cur, pre[0], pre[1..], line, post);
    }
  }

  lemma {:induction false} EndOfDataAfterRecord(format: Format, reg: Registry, cur: Cursors, x: string,
                                                pre: seq<string>, line: string, post: seq<string>)
    requires |x| == format.LineLength()
    requires Keyed(reg) && CursorsAgree(reg, cur)
    requires |line| != format.LineLength()
    ensures PassRecord(format, reg, cur, x, pre + [line] + post) == PassRecord(format, reg, cur, x, pre)
    decreases |pre| + 1, 0
  {
    match Step(format, reg, cur, x)
    case Abort(_) =>
    case Next(reg', cur') =>
      EndOfDataStopsPass(format, reg', cur', pre, line, post);
  }

  lemma HeadTail(a: seq<string>, b: seq<string>)
    requires |a| > 0
    ensures (a + b)[0] == a[0] && (a + b)[1..] == a[1..] + b
  {
  }

  /** A blank line, or one with another record tag, has no effect on the pass. */
  lemma {:induction false} SkippedLineIgnored(format: Format, reg: Registry, cur: Cursors,
                                              pre: seq<string>, line: string, post: seq<string>)
    requires Keyed(reg) && CursorsAgree(reg, cur)
    requires Classify(line, format.LineLength(), format.Tag()) == Skipped
    ensures Pass(format, reg, cur, pre + [line] + post) == Pass(format, reg, cur, pre + post)
    decreases |pre|, 1
  {
    if |pre| == 0 {
      assert pre + [line] + post == [line] + post && pre + post == post;
      HeadTail([line], post);
    } else {
      assert pre + [line] + post == pre + ([line] + post);
      assert pre[1..] + [line] + post == pre[1..] + ([line] + post);
      HeadTail(pre, [line] + post);
      HeadTail(pre, post);
      match Classify(pre[0], format.LineLength(), format.Tag())
      case EndOfData =>
      case Skipped =>
        SkippedLineIgnored(format, reg, cur, pre[1..], line, post);
      case Record =>
        SkippedLineAfterRecord(format, reg, cur, pre[0], pre[1..], line, post);
    }
  }

  lemma {:induction false} SkippedLineAfterRecord(format: Format, reg: Registry, cur: Cursors, x: string,
                                                  pre: seq<string>, line: string, post: seq<string>)
    requires |x| == format.LineLength()
    requires Keyed(reg) && CursorsAgree(reg, cur)
    requires Classify(line, format.LineLength(), format.Tag()) == Skipped
    ensures PassRecord(format, reg, cur, x, pre + [line] + post) == PassRecord(format, reg, cur, x, pre + post)
    decreases |pre| + 1, 0
  {
    match Step(format, reg, cur, x)
    case Abort(_) =>
    case Next(reg', cur') =>
      SkippedLineIgnored(format, reg', cur', pre, line, post);
  }

  // ---------------------------------------------------------------------------
  // Entry points
  // ---------------------------------------------------------------------------

  /**
   * `ReadPostalCodeFile` / `ReadBasicAddressFile`: the lines of the file the
   * directory lookup chose, None when there is no such file; each pass starts
   * with empty cursors.
   */
  function ReadFile(format: Format, reg: Registry, file: Option<seq<string>>): (r: Outcome)
    requires Keyed(reg)
    ensures Keyed(r.reg)
    ensures file.None? ==> r == Done(reg)
    ensures format.BasicAddressFile? ==> r.reg.regions == reg.regions
  {
    match file
    case None => Done(reg)
    case Some(lines) => Pass(format, reg, NoCursors, lines)
  }

  /**
   * `GetPostalCodes`: reads both files only while no postal code is
   * registered; once one is, the registry is returned as it is, whatever the
   * files now hold. An exception in the first pass skips the second.
   */
  function GetPostalCodes(reg: Registry, postalCodeFile: Option<seq<string>>, basicAddressFile: Option<seq<string>>)
    : (r: Outcome)
    requires Keyed(reg)
    ensures Keyed(r.reg)
    ensures |reg.postalCodes| > 0 ==> r == Done(reg)
    ensures |reg.postalCodes| == 0 && ReadFile(PostalCodeFile, reg, postalCodeFile).Threw? ==>
              r == ReadFile(PostalCodeFile, reg, postalCodeFile)
    ensures |reg.postalCodes| == 0 && ReadFile(PostalCodeFile, reg, postalCodeFile).Done? ==>
              r == ReadFile(BasicAddressFile, ReadFile(PostalCodeFile, reg, postalCodeFile).reg, basicAddressFile)
  {
    if |reg.postalCodes| > 0 then Done(reg)
    else
      match ReadFile(PostalCodeFile, reg, postalCodeFile)
      case Threw(reg') => Threw(reg')
      case Done(reg') => ReadFile(BasicAddressFile, reg', basicAddressFile)
  }

  /**
   * Whatever the files hold and however the call ends, the registry stays
   * consistent and only grows, and every postal code in it has a municipality
   * attached, so the `PrimaryMunicipality` the final ordering reads never
   * throws.
   */
  lemma GetPostalCodesKeepsConsistent(reg: Registry, pcf: Option<seq<string>>, baf: Option<seq<string>>)
    requires Consistent(reg)
    ensures var r := GetPostalCodes(reg, pcf, baf);
            && Consistent(r.reg) && Extends(reg, r.reg)
            && forall k :: k in r.reg.postalCodes ==> Valid(r.reg.postalCodes[k]) && PrimaryMunicipality(r.reg.postalCodes[k]).Some?
  {
    var r := GetPostalCodes(reg, pcf, baf);
    if |reg.postalCodes| == 0 {
      if pcf.Some? {
        PassKeepsConsistent(PostalCodeFile, reg, NoCursors, pcf.value);
      }
      var first := ReadFile(PostalCodeFile, reg, pcf);
      if first.Done? && baf.Some? {
        PassKeepsConsistent(BasicAddressFile, first.reg, NoCursors, baf.value);
        ExtendsTransitive(reg, first.reg, r.reg);
      }
    }
    forall k | k in r.reg.postalCodes
      ensures Valid(r.reg.postalCodes[k]) && PrimaryMunicipality(r.reg.postalCodes[k]).Some?
    {
      assert LocationLinked(r.reg, k, r.reg.postalCodes[k]);
    }
  }

  /**
   * The first call starts from the empty static dictionaries: whatever the
   * files hold, the registry it leaves is consistent, and every postal code in
   * it has a primary municipality.
   */
  lemma FirstCallConsistent(pcf: Option<seq<string>>, baf: Option<seq<string>>)
    ensures var r := GetPostalCodes(EmptyRegistry, pcf, baf);
            && Consistent(r.reg)
            && forall k :: k in r.reg.postalCodes ==> Valid(r.reg.postalCodes[k]) && PrimaryMunicipality(r.reg.postalCodes[k]).Some?
  {
    EmptyRegistryConsistent();
    GetPostalCodesKeepsConsistent(EmptyRegistry, pcf, baf);
  }

  /** A second call after a successful first one returns the first call's registry, whatever the files. */
  lemma FirstReadWins(reg: Registry, pcf: Option<seq<string>>, baf: Option<seq<string>>,
                      pcf': Option<seq<string>>, baf': Option<seq<string>>)
    requires Keyed(reg)
    requires GetPostalCodes(reg, pcf, baf).Done? && |GetPostalCodes(reg, pcf, baf).reg.postalCodes| > 0
    ensures GetPostalCodes(GetPostalCodes(reg, pcf, baf).reg, pcf', baf') == GetPostalCodes(reg, pcf, baf)
  {
  }
}
