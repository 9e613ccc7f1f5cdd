# PostalCodes_FI in Dafny

A verified model of the core of the `PostalCodes_FI` library. The library reads the two fixed-width
files of the Finnish postal service:

- the postal code file `PCF_*.dat`, 220-character "PONOT" records;
- the basic address file `BAF_*.dat`, 256-character "KATUN" records.

From them it builds three registries, each keyed by code: administrative regions, municipalities and
postal code locations. A postal code location lists the municipalities it covers. Under each one it
keeps the street address ranges of the postal code and a running estimate of how many addresses they
hold. From this the location ranks its municipalities and fixes a primary one.

The model is functional:

- entities are immutable datatypes;
- the static dictionaries are a `Registry` value threaded through the passes;
- each read loop is a recursive fold of a per-line step over the file's lines;
- the loop's `current*` locals are a `Cursors` value.

Modules, in dependency order:

| module | file | what it holds |
|---|---|---|
| `Wrappers` | wrappers.dfy | `Option` |
| `Text` | text.dfy | .NET whitespace, `Trim`, case-insensitive prefix, `int.TryParse` / `uint.TryParse` |
| `Dates` | dates.dfy | (year, month, day) dates and what `new DateTime` accepts |
| `Codes` | codes.dfy | the enums `Parity`, `PostalCodeType`, `LanguageDistributionCode` |
| `Municipalities` | municipalities.dfy | `AdministrativeRegion`, `Municipality`, `IsFinnishMajority` |
| `StreetAddressRanges` | street_address_ranges.dfy | the `StreetAddressRange` constructor and an independent count of building numbers |
| `Ranking` | ranking.dfy | the stable descending sort of municipality keys |
| `PostalCodeLocations` | postal_code_locations.dfy | `PostalCodeLocation`, its invariant, attach, add range, similarity, ranking, cached primary |
| `Records` | records.dfy | line classification and the column decoders of both formats |
| `Ingestion` | ingestion.dfy | the registry, the per-record steps, the two passes and `GetPostalCodes` |

`new DateTime(...)` throws on an impossible date, and nothing in the library catches the exception.
The model therefore ends a pass with `Outcome.Threw(reg)`. `reg` is the registry as far as the pass
had filled it, because the static dictionaries keep what was added before the throw. An
entry-into-force date is only converted when the postal code is new, so only then can it throw.

The code behaves as follows on these edges:

- A line of the wrong length ends the read loop (the `do ... while` condition). It is not skipped.
- An impossible date throws out of the pass. The line is not skipped.
- The parity column is the empty slice `[186..186]`, so the decoded parity is always None.
- An inverted pair of building numbers with a non-zero highest number, such as 5..3, stays inverted
  when the smallest number already has the declared parity, or the parity is None. When the smallest
  number has the wrong parity, the pair becomes (0, 0): (Even, 5, 3) gives 0..0. So "smallest ≤
  highest after correction" is not guaranteed for an inverted raw pair.

## Model

| member | source | states |
|---|---|---|
| Text.Trim | PostalCodes_FI/PostalCodes_FI.cs:81 | the result is no longer than the input, has no white space at either end, and is empty exactly when the input is blank |
| Text.TrimIsSlice | PostalCodes_FI/PostalCodes_FI.cs:81 | the trimmed text is a contiguous slice of the input, and everything before and after that slice is white space |
| Text.ParseIntGrammar | PostalCodes_FI/PostalCodes_FI.cs:77 | a text parses exactly when it splits as white space, an optional `+` or `-`, one or more decimal digits (leading zeros allowed) and white space; the result is the digits' value, negated after `-`; every other text fails |
| Text.ParseInt32Grammar | PostalCodes_FI/PostalCodes_FI.cs:77 | `int.TryParse` into `int` succeeds exactly on such a text whose value lies in -2^31 .. 2^31 - 1, and returns that value |
| Text.ParseUInt32Grammar | PostalCodes_FI/PostalCodes_FI.cs:237 | `uint.TryParse` succeeds exactly on such a text whose value lies in 0 .. 2^32 - 1 ("-0" included), and returns that value |
| Text.ParseShow | PostalCodes_FI/PostalCodes_FI.cs:237 | parsing the decimal digits of n gives n back, with both the signed and the unsigned parse |
| Text.ParseNegativeShow | PostalCodes_FI/PostalCodes_FI.cs:237 | a leading minus negates the value; the unsigned parse rejects every negative number except -0 |
| Dates.FromParsedParts | PostalCodes_FI/PostalCodes_FI.cs:77-80 | no date unless all three parts parse; otherwise the triple, valid exactly when the `DateTime` constructor accepts it |
| Codes.ParityFromInt | PostalCodes_FI/Parity.cs:13-27 | the cast gives back the parity whose value is n, for 0..2 |
| Codes.PostalCodeTypeFromInt | PostalCodes_FI/PostalCodeType.cs:12-46 | the cast keeps the integer value, and unnamed values never collide with named ones |
| Codes.PostalCodeTypeRoundTrip | PostalCodes_FI/PostalCodeType.cs:12-46 | casting a type's value gives back the same type |
| Codes.DistributionFromInt | PostalCodes_FI/LanguageDistributionCode.cs:12-34 | the cast keeps the integer value, and unnamed values never collide with named ones |
| Codes.DistributionRoundTrip | PostalCodes_FI/LanguageDistributionCode.cs:12-34 | casting a distribution's value gives back the same distribution |
| Municipalities.IsFinnishMajority | PostalCodes_FI/Municipality.cs:49-57 | true with no distribution; otherwise true exactly for the values 1 (Finnish) and 2 (Bilingual) |
| Municipalities.FinnishMajorityByDigit | PostalCodes_FI/Municipality.cs:53-55 | for every digit of the distribution column: true exactly for 1 and 2, false for 3 and 4 and for the unnamed 0 and 5-9 |
| StreetAddressRanges.CorrectBuildingNumbers | PostalCodes_FI/StreetAddressRange.cs:88-112 | None parity changes nothing; a wrong-parity smallest number moves up by one, or both numbers become 0 when nothing lies above it, and only then are both cleared; otherwise the highest number is kept or drops by one to the declared parity, never below the smallest; an ordered pair stays ordered; a corrected forward range has both ends on the declared side; an inverted pair with a non-zero highest number is left as it was when the smallest number already has the declared parity, or the parity is None |
| StreetAddressRanges.NumericCount | PostalCodes_FI/StreetAddressRange.cs:113-125 | the count is 0 exactly for a missing smallest and highest number or an inverted range; it is at most 1 for a single number; it is (h - s) / 2 + 1 for a forward range |
| StreetAddressRanges.PotentialCount | PostalCodes_FI/StreetAddressRange.cs:126-138 | the estimate is 0 exactly when the numeric count is 0 and both names are blank; a non-zero numeric count is kept |
| StreetAddressRanges.NewStreetAddressRange | PostalCodes_FI/StreetAddressRange.cs:68-139 | the stored numbers are the corrected pair; the potential count is the numeric count when that is positive, and otherwise exactly 1 for a named location and 0 when both names are blank |
| StreetAddressRanges.NumericCountCountsBuildingNumbers | PostalCodes_FI/StreetAddressRange.cs:88-125 | the count equals the number of building numbers on the range's side of the street between the smallest and the highest number, checked against an independent enumeration |
| StreetAddressRanges.WorkedExamples | PostalCodes_FI/StreetAddressRange.cs:91-138 | (Odd, 100, 108) gives 101..107 and 4 addresses; (Odd, 1, 1) gives 1; a named location without numbers gives 1; (Odd, 5, 3) gives 0 |
| Ranking.StableSort | PostalCodes_FI/PostalCodeLocation.cs:127-130 | the result is ordered by descending similarity, then descending count; it is a permutation of the input; entries with equal keys keep their input order |
| Ranking.TiedWithEarliest | PostalCodes_FI/PostalCodeLocation.cs:127-130 | the first entry of a group of equal keys comes no later in the input than any other entry of that group |
| Ranking.StableOrderingIsUnique | PostalCodes_FI/PostalCodeLocation.cs:127-130 | two sorted sequences that keep every group of equal keys in the same order are equal, so the ranking is fully determined |
| PostalCodeLocations.NewPostalCodeLocation | PostalCodes_FI/PostalCodeLocation.cs:20-74 | a new location satisfies the class invariant, keeps its constructor arguments, and has nothing attached and no primary |
| PostalCodeLocations.AddToMunicipality | PostalCodes_FI/PostalCodeLocation.cs:92-97 | the code ends up in all three maps; the invariant is kept; a code already attached changes nothing; a new code is stored with an empty list and a zero count and goes last in the attachment order |
| PostalCodeLocations.AddToMunicipalityIdempotent | PostalCodes_FI/PostalCodeLocation.cs:92-97 | attaching the same code twice, whatever municipality value the second call carries, equals attaching it once |
| PostalCodeLocations.AddStreetAddressRange | PostalCodes_FI/PostalCodeLocation.cs:144-159 | attaches the municipality, appends exactly one newly built range to its list and adds exactly that range's count to its total; every other code keeps its list and its count; the invariant, including "count = sum of the list", is kept |
| PostalCodeLocations.IsNameSimilarToMunicipalityName | PostalCodes_FI/PostalCodeLocation.cs:105-119 | a municipality's name is similar to the postal code's exactly when the Finnish names match or the Swedish names match, where two names match when neither is blank and they are equal up to case or one begins the other as a whole word |
| PostalCodeLocations.PaddedNamesMatchIsWordPrefix | PostalCodes_FI/PostalCodeLocation.cs:105-119 | with the space padding, two names match exactly when neither is blank and they are equal up to case, or one is a whole-word prefix of the other |
| PostalCodeLocations.SimilarityExamples | PostalCodes_FI/PostalCodeLocation.cs:107 | "Vihtijärvi" does not match "Vihti"; "Laukaa As" and "LAUKAA" match "Laukaa" |
| PostalCodeLocations.RankMunicipalities | PostalCodes_FI/PostalCodeLocation.cs:125-131 | the ranking is sorted, is a permutation of the attached municipalities' keys, and keeps ties in attachment order |
| PostalCodeLocations.GetMunicipalities | PostalCodes_FI/PostalCodeLocation.cs:125-131 | every attached municipality appears, each once; no municipality is listed after one it outranks |
| PostalCodeLocations.PrimaryMunicipality | PostalCodes_FI/PostalCodeLocation.cs:79-86 | the cached value when there is one; otherwise the first of `GetMunicipalities`: an attached municipality that nothing outranks and that no municipality attached before it ties with, so among tied leaders the earliest attached wins; it is then cached; undefined exactly when nothing is attached |
| PostalCodeLocations.FirstRankedIsEarliest | PostalCodes_FI/PostalCodeLocation.cs:127-130 | no municipality attached before the first-ranked one has the same similarity and the same count |
| PostalCodeLocations.ApplyUpdates | PostalCodes_FI/PostalCodeLocation.cs:92-159 | any sequence of attaches and added ranges keeps the invariant and the constructor attributes; the old attachment order is a prefix of the new one; every attached municipality stays attached with the same value |
| PostalCodeLocations.PrimaryIsFixedAfterFirstRead | PostalCodes_FI/PostalCodeLocation.cs:83 | once the primary municipality has been read, later attaches and ranges never change it |
| Records.Classify | PostalCodes_FI/PostalCodes_FI.cs:66-75 | a line of another length ends the pass; a line is decoded exactly when it has the right length, is not blank and starts with the tag; anything else is skipped |
| Records.RegionCodeOf | PostalCodes_FI/PostalCodes_FI.cs:81 | the region code is its five-character column trimmed: a slice of the column with only white space around it, empty exactly when the column is blank |
| Records.PostalCodeOf | PostalCodes_FI/PostalCodes_FI.cs:116 | the postal code is the untrimmed five-character column |
| Records.MunicipalityCodeOf | PostalCodes_FI/PostalCodes_FI.cs:96 | the municipality code of the postal code file is the untrimmed three-character column |
| Records.TypeCodeOf | PostalCodes_FI/PostalCodes_FI.cs:134-138 | a type exactly when the type column is a digit, with that digit as its value |
| Records.DistributionOf | PostalCodes_FI/PostalCodes_FI.cs:107-111 | a distribution exactly when its column is a digit, with that digit as its value |
| Records.AddressMunicipalityNamesOf | PostalCodes_FI/PostalCodes_FI.cs:189-190 | the municipality names of the address file are the untrimmed 20-character columns |
| Records.ParityOf | PostalCodes_FI/PostalCodes_FI.cs:223-231 | the parity read from the empty slice at 186 is always None |
| Records.HighestOf | PostalCodes_FI/PostalCodes_FI.cs:241-254 | the punctuation slice is empty, so the highest number comes only from columns 200-205, or is 0 |
| Records.RangeEndpointsOf | PostalCodes_FI/PostalCodes_FI.cs:232-256 | each endpoint is its two trimmed number columns joined, because the letter and mark slices are empty |
| Records.TokensOf | PostalCodes_FI/PostalCodes_FI.cs:257-269 | no token for a blank start; exactly the start when the end is blank or equal to the start; otherwise exactly the two tokens start and end |
| Records.TokensAreDistinctEndpoints | PostalCodes_FI/PostalCodes_FI.cs:257-269 | the tokens are the non-blank endpoints without repeats: each is a non-blank endpoint, no two are equal, the start is among them exactly when it is not blank, and so is a non-blank end then |
| Records.PostalCodeFieldsAreTrimmedColumns | PostalCodes_FI/PostalCodes_FI.cs:125-128 | the Finnish and Swedish names and abbreviations of a postal code are their columns trimmed: each is a slice of its column with only white space around it |
| Records.AddressRangeFieldsOf | PostalCodes_FI/PostalCodes_FI.cs:221-256 | None parity, and the smallest and highest numbers parsed from their trimmed columns or 0 |
| Records.AddressRangeFieldsAreTrimmedColumns | PostalCodes_FI/PostalCodes_FI.cs:221-269 | the street names are their columns trimmed, each a slice of its column with only white space around it; the address range is built from the trimmed number columns |
| Records.DecodePostalCodeLine | PostalCodes_FI/PostalCodes_FI.cs:76-138 | every field of a postal code record comes from its own column decoder: code, running date, location fields with their entry date, region code and names, municipality code and names, language distribution |
| Records.DecodeAddressLine | PostalCodes_FI/PostalCodes_FI.cs:174-256 | every field of an address record comes from its own column decoder: code, running date, location fields (the entry date is read from the street name columns), municipality code and names, and the address range fields |
| Ingestion.GetOrCreate | PostalCodes_FI/PostalCodes_FI.cs:84-94 | a registered code resolves to the stored entry and the new attributes are ignored; otherwise exactly that one entry is added; nothing else changes |
| Ingestion.GetOrCreateIdempotent | PostalCodes_FI/PostalCodes_FI.cs:99-114 | a second get-or-create of the same code finds what the first one stored and changes nothing |
| Ingestion.ResolveRegion | PostalCodes_FI/PostalCodes_FI.cs:82-95 | while the cursor is the registry's entry for its code, the cursor shortcut gives what a plain lookup gives |
| Ingestion.ResolveMunicipality | PostalCodes_FI/PostalCodes_FI.cs:97-115 | while the cursor is the registry's entry for its code, the cursor shortcut gives what a plain lookup gives |
| Ingestion.EnsurePostalCode | PostalCodes_FI/PostalCodes_FI.cs:117-142 | the postal code is found or created; creation throws exactly when the code is new and its entry date is impossible; other codes are untouched |
| Ingestion.RegisterPostalCode | PostalCodes_FI/PostalCodes_FI.cs:116-143 | whatever the cursor, the update lands on the registered or newly created location, and only that location changes |
| Ingestion.RegionRegistrationKeepsConsistent | PostalCodes_FI/PostalCodes_FI.cs:82-95 | registering a region keeps the registry consistent and never replaces an entry |
| Ingestion.MunicipalityRegistrationKeepsConsistent | PostalCodes_FI/PostalCodes_FI.cs:97-115 | registering a municipality whose region is registered keeps the registry consistent and never replaces an entry |
| Ingestion.UpdateKeepsConsistent | PostalCodes_FI/PostalCodes_FI.cs:143 | attaching a registered municipality, or adding a range under one, keeps every location linked to the registry and only grows it |
| Ingestion.PostalCodeStep | PostalCodes_FI/PostalCodes_FI.cs:76-143 | a record throws exactly on an impossible running date or on a new postal code with an impossible entry date; otherwise its region, municipality and postal code are registered, the municipality is attached, a new municipality is placed in the record's region, and the cursors stay in step with the registry |
| Ingestion.PostalCodeStepAddsOnlyItsOwn | PostalCodes_FI/PostalCodes_FI.cs:82-143 | a postal code record, thrown or not, adds no region, municipality or postal code but its own; a region it creates has the record's running date, code and names, and a municipality it creates has the record's running date, code, names and distribution and is placed in the record's region |
| Ingestion.PostalCodeStepKeepsConsistent | PostalCodes_FI/PostalCodes_FI.cs:76-143 | a postal code record, thrown or not, keeps the registry consistent and only grows it |
| Ingestion.AddressStep | PostalCodes_FI/PostalCodes_FI.cs:174-272 | throws under the same conditions; never touches the regions; a municipality it creates has no region and no distribution |
| Ingestion.AddressStepAddsOnlyItsOwn | PostalCodes_FI/PostalCodes_FI.cs:174-272 | an address record, thrown or not, adds no municipality or postal code but its own; a municipality it creates has the record's running date, code and untrimmed names, with no region and no distribution |
| Ingestion.AddressStepKeepsConsistent | PostalCodes_FI/PostalCodes_FI.cs:174-272 | an address record keeps the registry consistent and only grows it; no existing municipality's region is ever reassigned |
| Ingestion.AddressStepAppendsOneRange | PostalCodes_FI/PostalCodes_FI.cs:270-272 | an address record appends exactly one range, built from its columns, to its postal code's list under its municipality; every other list and every other postal code is unchanged |
| Ingestion.Step | PostalCodes_FI/PostalCodes_FI.cs:66-146 | a decoded record keeps the cursors in step with the registry; the address format never changes regions |
| Ingestion.StepKeepsConsistent | PostalCodes_FI/PostalCodes_FI.cs:66-146 | any record of either format keeps the registry consistent and only grows it |
| Ingestion.Pass | PostalCodes_FI/PostalCodes_FI.cs:66-146 | the read loop keeps regions and municipalities stored under their own codes; the address pass leaves the regions as they were |
| Ingestion.PassKeepsConsistent | PostalCodes_FI/PostalCodes_FI.cs:164-275 | a whole pass, ending normally or by the exception, keeps the registry consistent and only grows it; the municipalities the address pass adds have no region and no distribution |
| Ingestion.EndOfDataStopsPass | PostalCodes_FI/PostalCodes_FI.cs:146 | nothing after the first line of another length is read |
| Ingestion.SkippedLineIgnored | PostalCodes_FI/PostalCodes_FI.cs:69-75 | a blank line, or one with another tag, can be removed without changing the pass |
| Ingestion.ReadFile | PostalCodes_FI/PostalCodes_FI.cs:55-58 | a missing file leaves the registry as it was |
| Ingestion.GetPostalCodes | PostalCodes_FI/PostalCodes_FI.cs:38-44 | the files are read only while no postal code is registered; the address file is read only if the postal code pass did not throw |
| Ingestion.GetPostalCodesKeepsConsistent | PostalCodes_FI/PostalCodes_FI.cs:38-48 | the registry stays consistent and only grows, and every postal code has a municipality attached, so the primary municipality that the final ordering reads is defined |
| Ingestion.FirstCallConsistent | PostalCodes_FI/PostalCodes_FI.cs:19-48 | starting from the empty static dictionaries, whatever the files hold, the first call leaves a consistent registry in which every postal code's primary municipality is defined |
| Ingestion.FirstReadWins | PostalCodes_FI/PostalCodes_FI.cs:40-44 | after a call that registered a postal code, later calls return the same registry whatever the files hold |

## Left out

- File discovery and reading are left out. The model does not pick the latest `PCF_*`/`BAF_*` file by name, and it does not model `FileStream`, `StreamReader` or Latin-1 decoding. A file is `Option<seq<string>>`: None when no file was found, otherwise its lines. The end of the sequence stands for `ReadLine` returning null.
- The final `OrderBy`/`ThenBy` in `GetPostalCodes` is left out, because it uses culture-sensitive string ordering. `GetPostalCodes` returns the registry outcome, and `GetPostalCodesKeepsConsistent` shows that the primary municipality that ordering reads is defined.
- Text.FoldCase: `CurrentCultureIgnoreCase` is approximated by folding ASCII and Latin-1 upper-case letters. Culture rules (Turkish i, multi-character folds) are not modelled. Nor are the characters the culture comparison ignores, such as the soft hyphen U+00AD inside Latin-1: the model compares them like any other character.
- Text.ParseInt: the `int.TryParse` and `uint.TryParse` grammar is reduced to optional surrounding ASCII white space, an optional sign and decimal digits. Thousands separators, culture signs and other `NumberStyles` are not modelled. Nor are trailing `'\0'` characters after the digits and trailing white space, which .NET accepts (as in "12\0") and the model rejects. The fields are at most five characters.
- Dates.IsValid: a `DateTime` is a (year, month, day) triple. Time of day, `DateTimeKind.Local` and time zones are not modelled.
- PostalCodeLocations.AddStreetAddressRange: the `int` running total is unbounded, with no 32-bit wrap. The total wraps once it reaches 2^31 or more addresses under one postal code and municipality (exactly 2^31 already becomes -2^31). The `(int)` cast of one range's `uint` count also wraps for a count of 2^31 or more, such as (None, 1, 4294967295). Decoded columns hold at most five digits, so no single range reaches that.
- StreetAddressRanges.NumericCountCountsBuildingNumbers: this does not cover a missing smallest number (0) in a forward range of Even or None parity. There the constructor counts 0 as a building number. The decoded parity is always None, so such a range counts one more than its building numbers.
- Cursor identity: the postal code cursor is held by its code, not as a reference, because the location is a value here. The lookup shortcut is proved equivalent to a plain lookup, so this changes nothing observable.
- The `Language` enum is left out, because nothing in the library uses it.
- The console program that prints the report (`GetFinnishPostalCodes/Program.cs`) is left out, with its culture switch, special-code filter and per-municipality ordering.
- Concurrency is left out. The static registries are not thread-safe in the library, and the model has no concurrent callers.
