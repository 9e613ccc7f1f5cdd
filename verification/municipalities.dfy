/** Administrative regions and municipalities, the two immutable entities of the registry. */
module Municipalities {
  import opened Wrappers
  import opened Dates
  import opened Codes

  /** `AdministrativeRegion`: a NUTS 3 region, identified by its code. */
  datatype AdministrativeRegion = AdministrativeRegion(
    runningDate: Option<Date>,
    code: string,
    nameFi: string,
    nameSv: string)

  /**
   * `Municipality`: identified by its three-character code. The region is
   * absent for a municipality first met in the basic address file, and the
   * language distribution is absent when its column did not parse.
   */
  datatype Municipality = Municipality(
    runningDate: Option<Date>,
    region: Option<AdministrativeRegion>,
    code: string,
    nameFi: string,
    nameSv: string,
    distribution: Option<LanguageDistributionCode>)

  /**
   * `IsFinnishMajority`: whether the Finnish name is shown first. In terms of
   * the digit that was cast into the enum: true when there is none, or when it
   * is 1 (Finnish) or 2 (Bilingual).
   */
  function IsFinnishMajority(m: Municipality): (r: bool)
    ensures m.distribution.None? ==> r
    ensures m.distribution.Some? && WellFormedDistribution(m.distribution.value) ==>
              (r <==> DistributionValue(m.distribution.value) in {1, 2})
  {
    match m.distribution
    case None => true
    case Some(d) => d == Finnish || d == Bilingual
  }

  /** The language-order rule for every digit the one-character distribution column can hold. */
  lemma FinnishMajorityByDigit(m: Municipality, n: int)
    requires 0 <= n <= 9 && m.distribution == Some(DistributionFromInt(n))
    ensures IsFinnishMajority(m) <==> n == 1 || n == 2
    ensures n in {3, 4} ==> !IsFinnishMajority(m)
    ensures (n == 0 || n >= 5) ==> !IsFinnishMajority(m)
  {
  }
}
