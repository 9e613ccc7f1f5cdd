/**
 * The two fixed-width line formats: the postal code file (220 characters,
 * tag "PONOT") and the basic address file (256 characters, tag "KATUN").
 * Columns are zero-based, end-exclusive character offsets.
 */
module Records {
  import opened Wrappers
  import opened Text
  import opened Dates
  import opened Codes
  import opened StreetAddressRanges

  const POSTAL_CODE_LINE_LENGTH: nat := 220
  const BASIC_ADDRESS_LINE_LENGTH: nat := 256
  const POSTAL_CODE_TAG: string := "PONOT"
  const BASIC_ADDRESS_TAG: string := "KATUN"

  /** What a read loop does with one line. */
  datatype LineKind =
    | EndOfData   // null, empty or of another length: the loop ends
    | Skipped     // right length but blank or with another tag: the loop goes on
    | Record      // decoded

  function Classify(line: string, length: nat, tag: string): (k: LineKind)
    requires |tag| == 5 && length >= 5
    ensures k == EndOfData <==> |line| != length
    ensures k == Record <==> |line| == length && !IsBlank(line) && line[..5] == tag
  {
    if |line| != length then EndOfData
    else if IsBlank(line) || line[..5] != tag then Skipped
    else Record
  }

  /** A yyyyMMdd column group starting at `at`, each part read with `int.TryParse`. */
  function DateAt(line: string, at: nat): DateField
    requires at + 8 <= |line|
  {
    FromParsedParts(ParseInt32(line[at..at + 4]), ParseInt32(line[at + 4..at + 6]), ParseInt32(line[at + 6..at + 8]))
  }

  /** The data update date, columns 5..13 of both formats. */
  function RunningDateOf(line: string): DateField
    requires |line| >= 13
  {
    DateAt(line, 5)
  }

  /** The postal code, columns 13..18 of both formats, not trimmed. */
  function PostalCodeOf(line: string): (code: string)
    requires |line| >= 18
    ensures |code| == 5
  {
    line[13..18]
  }

  /** The postal code attributes both formats share (columns 18..111). */
  datatype PostalCodeFields = PostalCodeFields(
    nameFi: string,
    nameSv: string,
    abbrFi: string,
    abbrSv: string,
    entryIntoForce: DateField,
    typeCode: Option<PostalCodeType>)

  function PostalCodeFieldsOf(line: string): (f: PostalCodeFields)
    requires |line| >= 111
    ensures f.typeCode == TypeCodeOf(line)
    ensures f.entryIntoForce == DateAt(line, 102)
  {
    PostalCodeFields(Trim(line[18..48]), Trim(line[48..78]), Trim(line[78..90]), Trim(line[90..102]),
                     DateAt(line, 102), TypeCodeOf(line))
  }

  /** `v` is the text of columns `from..to` of `line` with the white space around it cut off. */
  ghost predicate TrimmedColumn(line: string, from: nat, to: nat, v: string)
    requires from <= to <= |line|
  {
    exists a :: TrimmedAt(line[from..to], a, v)
  }

  /**
   * The four names of a postal code are their columns, trimmed: each is a
   * slice of its column with only white space around it.
   */
  lemma PostalCodeFieldsAreTrimmedColumns(line: string)
    requires |line| >= 111
    ensures var f := PostalCodeFieldsOf(line);
            && f.nameFi == Trim(line[18..48]) && f.nameSv == Trim(line[48..78])
            && f.abbrFi == Trim(line[78..90]) && f.abbrSv == Trim(line[90..102])
            && TrimmedColumn(line, 18, 48, f.nameFi) && TrimmedColumn(line, 48, 78, f.nameSv)
            && TrimmedColumn(line, 78, 90, f.abbrFi) && TrimmedColumn(line, 90, 102, f.abbrSv)
  {
    TrimIsSlice(line[18..48]);
    TrimIsSlice(line[48..78]);
    TrimIsSlice(line[78..90]);
    TrimIsSlice(line[90..102]);
  }

  /** The one-digit postal code type, column 110; None when it does not parse. */
  function TypeCodeOf(line: string): (t: Option<PostalCodeType>)
    requires |line| >= 111
    ensures t.Some? <==> IsDigit(line[110])
    ensures t.Some? ==> TypeValue(t.value) == DigitValue(line[110])
  {
    match ParseInt32(line[110..111])
    case Some(n) => Some(PostalCodeTypeFromInt(n))
    case None => None
  }

  // ---------------------------------------------------------------------------
  // Postal code file: region and municipality columns
  // ---------------------------------------------------------------------------

  /** The region code, columns 111..116, trimmed. */
  function RegionCodeOf(line: string): (code: string)
    requires |line| == POSTAL_CODE_LINE_LENGTH
    ensures |code| <= 5
    ensures code == [] <==> IsBlank(line[111..116])
    ensures TrimmedColumn(line, 111, 116, code)
  {
    TrimIsSlice(line[111..116]);
    Trim(line[111..116])
  }

  function RegionNamesOf(line: string): (string, string)
    requires |line| == POSTAL_CODE_LINE_LENGTH
  {
    (Trim(line[116..146]), Trim(line[146..176]))
  }

  /** The municipality code, columns 176..179, NOT trimmed (unlike the region code). */
  function MunicipalityCodeOf(line: string): (code: string)
    requires |line| == POSTAL_CODE_LINE_LENGTH
    ensures |code| == 3
  {
    line[176..179]
  }

  function MunicipalityNamesOf(line: string): (string, string)
    requires |line| == POSTAL_CODE_LINE_LENGTH
  {
    (Trim(line[179..199]), Trim(line[199..219]))
  }

  /** The language distribution digit, column 219, cast into the enum without a range check. */
  function DistributionOf(line: string): (d: Option<LanguageDistributionCode>)
    requires |line| == POSTAL_CODE_LINE_LENGTH
    ensures d.Some? <==> IsDigit(line[219])
    ensures d.Some? ==> DistributionValue(d.value) == DigitValue(line[219]) && WellFormedDistribution(d.value)
  {
    match ParseInt32(line[219..220])
    case Some(n) => Some(DistributionFromInt(n))
    case None => None
  }

  // ---------------------------------------------------------------------------
  // Basic address file
  // ---------------------------------------------------------------------------

  /** The municipality code, columns 213..216, not trimmed. */
  function AddressMunicipalityCodeOf(line: string): (code: string)
    requires |line| == BASIC_ADDRESS_LINE_LENGTH
    ensures |code| == 3
  {
    line[213..216]
  }

  /** The municipality names, columns 216..236 and 236..256, used untrimmed. */
  function AddressMunicipalityNamesOf(line: string): (names: (string, string))
    requires |line| == BASIC_ADDRESS_LINE_LENGTH
    ensures |names.0| == 20 && |names.1| == 20
  {
    (line[216..236], line[236..256])
  }

  /** The street address range columns of one address line. */
  datatype AddressRangeFields = AddressRangeFields(
    streetFi: string,
    streetSv: string,
    addressRange: seq<string>,
    parity: Parity,
    smallest: UInt32,
    highest: UInt32)

  function ParsedOrZero(s: string): UInt32 {
    match ParseUInt32(s)
    case Some(v) => v
    case None => 0
  }

  /** The parity column is the empty slice 186..186, so `int.TryParse` always fails. */
  function ParityOf(line: string): (p: Parity)
    requires |line| == BASIC_ADDRESS_LINE_LENGTH
    ensures p == NoParity
  {
    match ParseInt32(line[186..186])
    case Some(n) => if 0 <= n <= 2 then ParityFromInt(n) else NoParity
    case None => NoParity
  }

  /**
   * The highest number: the second token (207..212) when the punctuation
   * column holds "-", falling back to the first token (200..205). The
   * punctuation column is the empty slice 206..206, so only 200..205 counts.
   */
  function HighestOf(line: string): (h: UInt32)
    requires |line| == BASIC_ADDRESS_LINE_LENGTH
    ensures h == ParsedOrZero(Trim(line[200..205]))
  {
    var highestMark := Trim(line[206..206]);
    var first: UInt32 := ParsedOrZero(Trim(line[200..205]));
    var second: UInt32 := ParsedOrZero(Trim(line[207..212]));
    var highestFromSecond: UInt32 := if highestMark == "-" then second else 0;
    if highestFromSecond == 0 then first else highestFromSecond
  }

  /**
   * The range start and end strings, each the concatenation of number,
   * delivery letter, punctuation, number, delivery letter; the letter and
   * punctuation columns are empty slices, so only the two numbers remain.
   */
  function RangeEndpointsOf(line: string): (r: (string, string))
    requires |line| == BASIC_ADDRESS_LINE_LENGTH
    ensures r.0 == Trim(line[187..192]) + Trim(line[194..199])
    ensures r.1 == Trim(line[200..205]) + Trim(line[207..212])
  {
    var low := Endpoint(Trim(line[187..192]), Trim(line[192..192]), Trim(line[193..193]), Trim(line[194..199]), Trim(line[199..199]));
    var high := Endpoint(Trim(line[200..205]), Trim(line[205..205]), Trim(line[206..206]), Trim(line[207..212]), Trim(line[212..212]));
    assert low == Trim(line[187..192]) + Trim(line[194..199]) by {
      EmptyColumnsVanish(Trim(line[187..192]), line[192..192], line[193..193], Trim(line[194..199]), line[199..199]);
    }
    assert high == Trim(line[200..205]) + Trim(line[207..212]) by {
      EmptyColumnsVanish(Trim(line[200..205]), line[205..205], line[206..206], Trim(line[207..212]), line[212..212]);
    }
    (low, high)
  }

  /** Joining an endpoint whose letter and punctuation columns are empty keeps only the numbers. */
  lemma EmptyColumnsVanish(number1: string, letter1: string, mark: string, number2: string, letter2: string)
    requires |letter1| == 0 && |mark| == 0 && |letter2| == 0
    ensures Endpoint(number1, Trim(letter1), Trim(mark), number2, Trim(letter2)) == number1 + number2
  {
    TrimOfEmpty(letter1);
    TrimOfEmpty(mark);
    TrimOfEmpty(letter2);
    JoinEmpty(number1, Trim(letter1), Trim(mark), number2, Trim(letter2));
  }

  /** One range endpoint: number, delivery letter, punctuation, number, delivery letter. */
  function Endpoint(number1: string, letter1: string, mark: string, number2: string, letter2: string): string {
    number1 + letter1 + mark + number2 + letter2
  }

  lemma JoinEmpty(number1: string, letter1: string, mark: string, number2: string, letter2: string)
    requires letter1 == [] && mark == [] && letter2 == []
    ensures Endpoint(number1, letter1, mark, number2, letter2) == number1 + number2
  {
    assert number1 + letter1 == number1;
    assert number2 + letter2 == number2;
  }

  lemma TrimOfEmpty(s: string)
    requires |s| == 0
    ensures Trim(s) == []
  {
  }

  /** The address range tokens: none, one, or start and end when they differ. */
  function TokensOf(start: string, end: string): (tokens: seq<string>)
    ensures |tokens| == 0 <==> IsBlank(start)
    ensures |tokens| == 1 <==> !IsBlank(start) && (IsBlank(end) || end == start)
    ensures |tokens| > 0 ==> tokens[0] == start
    ensures |tokens| == 2 ==> tokens[1] == end && end != start
    ensures |tokens| <= 2
    ensures !IsBlank(start) && !IsBlank(end) && end != start ==> tokens == [start, end]
  {
    if IsBlank(start) then []
    else if IsBlank(end) || end == start then [start]
    else [start, end]
  }

  /**
   * The tokens are the non-blank endpoints without repeats, start first: each
   * token is an endpoint and not blank, no two are equal, and a non-blank start
   * brings every non-blank endpoint in.
   */
  lemma TokensAreDistinctEndpoints(start: string, end: string)
    ensures var t := TokensOf(start, end);
            && (forall i :: 0 <= i < |t| ==> !IsBlank(t[i]) && (t[i] == start || t[i] == end))
            && (forall i, j :: 0 <= i < j < |t| ==> t[i] != t[j])
            && (!IsBlank(start) <==> start in t)
            && (!IsBlank(start) && !IsBlank(end) ==> end in t)
  {
  }

  /** The street address range columns of one address line. */
  function AddressRangeFieldsOf(line: string): (f: AddressRangeFields)
    requires |line| == BASIC_ADDRESS_LINE_LENGTH
    ensures f.parity == NoParity
    ensures f.smallest == ParsedOrZero(Trim(line[187..192]))
    ensures f.highest == ParsedOrZero(Trim(line[200..205]))
  {
    var (start, end) := RangeEndpointsOf(line);
    AddressRangeFields(Trim(line[102..132]), Trim(line[132..162]), TokensOf(start, end),
                       ParityOf(line), ParsedOrZero(Trim(line[187..192])), HighestOf(line))
  }

  /**
   * The street names of an address line are their columns, trimmed, and the
   * address range is built from the trimmed number and letter columns.
   */
  lemma AddressRangeFieldsAreTrimmedColumns(line: string)
    requires |line| == BASIC_ADDRESS_LINE_LENGTH
    ensures var f := AddressRangeFieldsOf(line);
            && f.streetFi == Trim(line[102..132]) && f.streetSv == Trim(line[132..162])
            && TrimmedColumn(line, 102, 132, f.streetFi) && TrimmedColumn(line, 132, 162, f.streetSv)
            && f.addressRange == TokensOf(Trim(line[187..192]) + Trim(line[194..199]),
                                          Trim(line[200..205]) + Trim(line[207..212]))
  {
    TrimIsSlice(line[102..132]);
    TrimIsSlice(line[132..162]);
  }

  // ---------------------------------------------------------------------------
  // Whole records
  // ---------------------------------------------------------------------------

  /** A "PONOT" line decoded column by column. */
  datatype PostalCodeRecord = PostalCodeRecord(
    runningDate: DateField,
    postalCode: string,
    location: PostalCodeFields,
    regionCode: string,
    regionNameFi: string,
    regionNameSv: string,
    municipalityCode: string,
    municipalityNameFi: string,
    municipalityNameSv: string,
    distribution: Option<LanguageDistributionCode>)

  function DecodePostalCodeLine(line: string): (rec: PostalCodeRecord)
    requires |line| == POSTAL_CODE_LINE_LENGTH
    ensures rec.postalCode == PostalCodeOf(line) && rec.municipalityCode == MunicipalityCodeOf(line)
    ensures rec.regionCode == RegionCodeOf(line) && rec.runningDate == RunningDateOf(line)
    ensures rec.location == PostalCodeFieldsOf(line) && rec.location.entryIntoForce == DateAt(line, 102)
    ensures (rec.regionNameFi, rec.regionNameSv) == RegionNamesOf(line)
    ensures (rec.municipalityNameFi, rec.municipalityNameSv) == MunicipalityNamesOf(line)
    ensures rec.distribution == DistributionOf(line)
  {
    var (regionFi, regionSv) := RegionNamesOf(line);
    var (nameFi, nameSv) := MunicipalityNamesOf(line);
    PostalCodeRecord(RunningDateOf(line), PostalCodeOf(line), PostalCodeFieldsOf(line),
                     RegionCodeOf(line), regionFi, regionSv,
                     MunicipalityCodeOf(line), nameFi, nameSv, DistributionOf(line))
  }

  /** A "KATUN" line decoded column by column. */
  datatype AddressRecord = AddressRecord(
    runningDate: DateField,
    postalCode: string,
    location: PostalCodeFields,
    municipalityCode: string,
    municipalityNameFi: string,
    municipalityNameSv: string,
    range: AddressRangeFields)

  function DecodeAddressLine(line: string): (rec: AddressRecord)
    requires |line| == BASIC_ADDRESS_LINE_LENGTH
    ensures rec.postalCode == PostalCodeOf(line) && rec.municipalityCode == AddressMunicipalityCodeOf(line)
    ensures rec.runningDate == RunningDateOf(line) && rec.location.entryIntoForce == DateAt(line, 102)
    ensures rec.location == PostalCodeFieldsOf(line)
    ensures (rec.municipalityNameFi, rec.municipalityNameSv) == AddressMunicipalityNamesOf(line)
    ensures rec.range == AddressRangeFieldsOf(line)
  {
    var (nameFi, nameSv) := AddressMunicipalityNamesOf(line);
    AddressRecord(RunningDateOf(line), PostalCodeOf(line), PostalCodeFieldsOf(line),
                  AddressMunicipalityCodeOf(line), nameFi, nameSv, AddressRangeFieldsOf(line))
  }
}
