/** The run's reference date: the day before the run date (`date.today() - timedelta(days=1)`)
    rendered with `strftime('%Y%m%d')`. Dates follow Python's proleptic Gregorian calendar
    with years 1 to 9999. */
module Calendar {
  import opened Wrappers
  import opened Text

  const MIN_YEAR := 1
  const MAX_YEAR := 9999

  datatype Date = Date(year: int, month: int, day: int)

  predicate IsLeapYear(y: int) {
    y % 4 == 0 && (y % 100 != 0 || y % 400 == 0)
  }

  function DaysInMonth(y: int, m: int): (n: int)
    requires 1 <= m <= 12
    ensures 28 <= n <= 31
    ensures n == 29 <==> m == 2 && IsLeapYear(y)
  {
    if m == 2 then (if IsLeapYear(y) then 29 else 28)
    else if m == 4 || m == 6 || m == 9 || m == 11 then 30
    else 31
  }

  /** A date Python's `date` type can hold. */
  predicate Valid(d: Date) {
    MIN_YEAR <= d.year <= MAX_YEAR && 1 <= d.month <= 12 && 1 <= d.day <= DaysInMonth(d.year, d.month)
  }

  /** Chronological order of dates. */
  predicate Before(a: Date, b: Date) {
    a.year < b.year || (a.year == b.year && (a.month < b.month || (a.month == b.month && a.day < b.day)))
  }

  /** The day before `d`; None where Python raises OverflowError (there is no day before 0001-01-01). */
  function Yesterday(d: Date): (r: Option<Date>)
    requires Valid(d)
    ensures r.None? <==> d == Date(MIN_YEAR, 1, 1)
    ensures r.Some? ==> Valid(r.value) && Before(r.value, d)
  {
    if d.day > 1 then Some(Date(d.year, d.month, d.day - 1))
    else if d.month > 1 then Some(Date(d.year, d.month - 1, DaysInMonth(d.year, d.month - 1)))
    else if d.year > MIN_YEAR then Some(Date(d.year - 1, 12, 31))
    else None
  }

  /** The day after `d`; None past 9999-12-31. The inverse against which Yesterday is checked. */
  function Tomorrow(d: Date): (r: Option<Date>)
    requires Valid(d)
  {
    if d.day < DaysInMonth(d.year, d.month) then Some(Date(d.year, d.month, d.day + 1))
    else if d.month < 12 then Some(Date(d.year, d.month + 1, 1))
    else if d.year < MAX_YEAR then Some(Date(d.year + 1, 1, 1))
    else None
  }

  /** Yesterday is the latest valid date strictly before `d`: every earlier date is it or
      before it, and nothing after it is before `d`. This is what rolling back over month
      ends, leap days and year ends has to achieve. */
  lemma YesterdayIsLatestEarlierDate(d: Date, e: Date)
    requires Valid(d) && Valid(e) && Yesterday(d).Some?
    ensures Before(e, d) <==> (e == Yesterday(d).value || Before(e, Yesterday(d).value))
  {
  }

  /** Stepping back a day and then forward a day returns to the run date. */
  lemma TomorrowOfYesterday(d: Date)
    requires Valid(d) && Yesterday(d).Some?
    ensures Tomorrow(Yesterday(d).value) == Some(d)
  {
  }

  /** Stepping forward a day and then back a day returns to the start. */
  lemma YesterdayOfTomorrow(d: Date)
    requires Valid(d) && Tomorrow(d).Some?
    ensures Valid(Tomorrow(d).value) && Yesterday(Tomorrow(d).value) == Some(d)
  {
  }

  /** `strftime('%Y%m%d')`: four-digit year, two-digit month, two-digit day, zero-padded. */
  function Stamp(d: Date): (s: string)
    requires Valid(d)
    ensures |s| == 8 && AllDigits(s)
  {
    Digits(d.year, 4) + Digits(d.month, 2) + Digits(d.day, 2)
  }

  /** Reads a `YYYYMMDD` stamp back into a date; None if it is not one. */
  function ParseStamp(s: string): (r: Option<Date>)
    ensures r.Some? ==> Valid(r.value)
  {
    if |s| == 8 && AllDigits(s) then
      var d := Date(DigitsValue(s[..4]), DigitsValue(s[4..6]), DigitsValue(s[6..]));
      if Valid(d) then Some(d) else None
    else None
  }

  /** The stamp encodes the date exactly: parsing it gives the date back. */
  lemma {:induction false} StampRoundTrip(d: Date)
    requires Valid(d)
    ensures ParseStamp(Stamp(d)) == Some(d)
  {
    var s := Stamp(d);
    assert s[..4] == Digits(d.year, 4);
    assert s[4..6] == Digits(d.month, 2);
    assert s[6..] == Digits(d.day, 2);
    DigitsRoundTrip(d.year, 4);
    DigitsRoundTrip(d.month, 2);
    DigitsRoundTrip(d.day, 2);
  }

  /** Different dates never share a stamp, so the pattern names one day only. */
  lemma StampInjective(d1: Date, d2: Date)
    requires Valid(d1) && Valid(d2) && Stamp(d1) == Stamp(d2)
    ensures d1 == d2
  {
    StampRoundTrip(d1);
    StampRoundTrip(d2);
  }
}
