/**
 * The library's enumerations. C# lets any integer be cast into an enum, so the
 * two enums that are filled from a one-digit column carry an extra case for the
 * values that have no name.
 */
module Codes {

  /** `Parity` (None = 0, Odd = 1, Even = 2); `None` is spelled NoParity here. */
  datatype Parity = NoParity | Odd | Even

  function ParityValue(p: Parity): int {
    match p
    case NoParity => 0
    case Odd => 1
    case Even => 2
  }

  /** `(Parity) n`, which the decoder only performs for 0 <= n <= 2. */
  function ParityFromInt(n: int): (p: Parity)
    ensures 0 <= n <= 2 ==> ParityValue(p) == n
  {
    if n == 1 then Odd else if n == 2 then Even else NoParity
  }

  /** `PostalCodeType` (Normal = 1 .. Technical = 8), plus any other cast value. */
  datatype PostalCodeType =
    | Normal | POBox | Corporate | Compilation | ReplyMail
    | SmartPostParcelMachine | PickUpPoint | Technical
    | UndefinedType(value: int)

  function TypeValue(t: PostalCodeType): int {
    match t
    case Normal => 1
    case POBox => 2
    case Corporate => 3
    case Compilation => 4
    case ReplyMail => 5
    case SmartPostParcelMachine => 6
    case PickUpPoint => 7
    case Technical => 8
    case UndefinedType(v) => v
  }

  /** A value a cast can produce: unnamed values never collide with named ones. */
  predicate WellFormedType(t: PostalCodeType) {
    t.UndefinedType? ==> !(1 <= t.value <= 8)
  }

  /** `(PostalCodeType) n`. */
  function PostalCodeTypeFromInt(n: int): (t: PostalCodeType)
    ensures TypeValue(t) == n && WellFormedType(t)
  {
    match n
    case 1 => Normal
    case 2 => POBox
    case 3 => Corporate
    case 4 => Compilation
    case 5 => ReplyMail
    case 6 => SmartPostParcelMachine
    case 7 => PickUpPoint
    case 8 => Technical
    case _ => UndefinedType(n)
  }

  lemma PostalCodeTypeRoundTrip(t: PostalCodeType)
    requires WellFormedType(t)
    ensures PostalCodeTypeFromInt(TypeValue(t)) == t
  {
  }

  /** `LanguageDistributionCode` (Finnish = 1 .. Swedish = 4), plus any other cast value. */
  datatype LanguageDistributionCode =
    | Finnish | Bilingual | Bilingual2 | Swedish
    | UndefinedDistribution(value: int)

  function DistributionValue(d: LanguageDistributionCode): int {
    match d
    case Finnish => 1
    case Bilingual => 2
    case Bilingual2 => 3
    case Swedish => 4
    case UndefinedDistribution(v) => v
  }

  predicate WellFormedDistribution(d: LanguageDistributionCode) {
    d.UndefinedDistribution? ==> !(1 <= d.value <= 4)
  }

  /** `(LanguageDistributionCode) n`. */
  function DistributionFromInt(n: int): (d: LanguageDistributionCode)
    ensures DistributionValue(d) == n && WellFormedDistribution(d)
  {
    match n
    case 1 => Finnish
    case 2 => Bilingual
    case 3 => Bilingual2
    case 4 => Swedish
    case _ => UndefinedDistribution(n)
  }

  lemma DistributionRoundTrip(d: LanguageDistributionCode)
    requires WellFormedDistribution(d)
    ensures DistributionFromInt(DistributionValue(d)) == d
  {
  }
}
