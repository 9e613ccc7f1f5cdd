/**
 * Calendar dates as (year, month, day) triples. `new DateTime(year, month, day,
 * 0, 0, 0, DateTimeKind.Local)` throws unless the triple is a real Gregorian
 * date in years 1..9999; time of day and time zone are not modelled.
 */
module Dates {
  import opened Wrappers

  datatype Date = Date(year: int, month: int, day: int)

  predicate IsLeapYear(year: int) {
    year % 4 == 0 && (year % 100 != 0 || year % 400 == 0)
  }

  function DaysInMonth(year: int, month: int): (n: int)
    requires 1 <= month <= 12
    ensures 28 <= n <= 31
    ensures month == 2 ==> (n == 29 <==> IsLeapYear(year))
    ensures month != 2 ==> (n == 30 <==> month in {4, 6, 9, 11})
  {
    if month == 2 then (if IsLeapYear(year) then 29 else 28)
    else if month == 4 || month == 6 || month == 9 || month == 11 then 30
    else 31
  }

  /** The triples the `DateTime` constructor accepts without throwing. */
  predicate IsValid(d: Date) {
    1 <= d.year <= 9999 && 1 <= d.month <= 12 && 1 <= d.day <= DaysInMonth(d.year, d.month)
  }

  /**
   * A date column group after decoding: absent when one of its three integer
   * parses fails, otherwise a date that the constructor accepts or rejects.
   */
  datatype DateField = NoDate | ValidDate(date: Date) | InvalidDate(date: Date) {

    /** The nullable `DateTime?` a decoded group stands for; defined only when construction did not throw. */
    function AsOption(): Option<Date>
      requires !InvalidDate?
    {
      if ValidDate? then Some(date) else None
    }
  }

  /** `if (TryParse(y) && TryParse(m) && TryParse(d)) date = new DateTime(y, m, d, ...)`. */
  function FromParsedParts(year: Option<int>, month: Option<int>, day: Option<int>): (r: DateField)
    ensures r.NoDate? <==> year.None? || month.None? || day.None?
    ensures !r.NoDate? ==> r.date == Date(year.value, month.value, day.value)
    ensures r.ValidDate? <==> !r.NoDate? && IsValid(r.date)
  {
    if year.Some? && month.Some? && day.Some? then
      var d := Date(year.value, month.value, day.value);
      if IsValid(d) then ValidDate(d) else InvalidDate(d)
    else
      NoDate
  }
}
