/** `DateTruncate` and `DateTruncateNullable`: SQL DATE_TRUNC over
    seconds since 1970-01-01T00:00:00Z. The day-of-week lookup and the UTC
    calendar decomposition are external services; the model receives them
    as a `CalendarServices` value and assumes nothing about them beyond
    what each lemma states. */
module Truncate {
  import opened CInt
  import opened Gregorian

  /** The truncation units named in the dispatch, plus `Other` for any
      value of the enumeration that none of its cases handles. */
  datatype DatetruncField =
    | Microsecond | Millisecond | Second
    | Minute | Hour | Day | Week
    | Month | Year | Decade | Century | Millennium
    | Other

  /** The fields of a broken-down UTC time (`tm`) that the truncation reads:
      years since 1900, day of month from 1, day of year from 0. */
  datatype BrokenDownTime = BrokenDownTime(tmYear: int, tmMday: int, tmYday: int)

  /** The external services: `extract_dow` applied to a timestamp and the
      UTC decomposition `gmtime_r_newlib`. */
  datatype CalendarServices = CalendarServices(
    extractDow: int -> int,
    gmtime: int -> BrokenDownTime)

  /** The result of a truncation: a timestamp, or the failure that an
      unhandled field produces (the value -1 on the accelerator build, a
      failed CHECK on the host build). */
  datatype Outcome = Truncated(value: int) | InvalidField

  /** How the minute, hour and day boundaries are computed: as the code is
      written, or with the floor division that the code's comments intend. */
  datatype Rounding = AsWritten | Floor

  /** Lines 58-61 (and 65-68, 72-75, 79-81, 96-98, 105-107): C truncating
      division, multiply back, then one more period down when the product is
      negative. This is a floor only for negative timestamps that are not
      multiples of the period and lie at or below minus one period. */
  function TruncateToPeriod(t: int, period: int): (r: int)
    requires period > 0
    ensures r % period == 0
    ensures t >= 0 ==> r <= t < r + period
    ensures -period < t < 0 ==> r == 0
    ensures t <= -period && t % period != 0 ==> r <= t < r + period
    ensures t < 0 && t % period == 0 ==> r == t - period
  {
    var q := CDiv(t, period);
    var ret := q * period;
    MultipleModZero(ret, period, q);
    MultipleModZero(ret - period, period, q - 1);
    TruncatedProductCases(t, period);
    if ret < 0 then ret - period else ret
  }

  /** Where the truncating product `CDiv(t, period) * period` lies relative
      to `t`, case by case. */
  lemma TruncatedProductCases(t: int, period: int)
    requires period > 0
    ensures t >= 0 ==> 0 <= CDiv(t, period) * period <= t
    ensures -period < t < 0 ==> CDiv(t, period) * period == 0
    ensures t < 0 && t % period == 0 ==> CDiv(t, period) * period == t
    ensures t <= -period && t % period != 0 ==>
      CDiv(t, period) * period < 0 && CDiv(t, period) * period - period <= t < CDiv(t, period) * period
  {
    var q := CDiv(t, period);
    var x := q * period;
    DividesIffCRemZero(t, period, q);
    if t < 0 {
      assert t <= x < t + period;
      if -period < t {
        SameResidueClass(q, period, x);
      }
    }
  }

  /** The boundary at or below `t` that the comments intend: Dafny's `/` is
      Euclidean, so for a positive period it is a floor division. */
  function FloorToPeriod(t: int, period: int): (r: int)
    requires period > 0
    ensures r % period == 0
    ensures r <= t < r + period
  {
    MultipleModZero((t / period) * period, period, t / period);
    (t / period) * period
  }

  function RoundDown(rounding: Rounding, t: int, period: int): int
    requires period > 0
  {
    match rounding
    case AsWritten => TruncateToPeriod(t, period)
    case Floor => FloorToPeriod(t, period)
  }

  /** Lines 114, 119 and 124: the 1-based first year of the decade, century
      or millennium holding `year`, with C truncating division. */
  function PeriodStartYear(year: int, n: int): (start: int)
    requires n > 1
    ensures start % n == 1
    ensures year >= 1 ==> start <= year < start + n
    ensures year <= 0 ==> year <= start < year + n
  {
    var q := CDiv(year - 1, n);
    MultipleModZero(q * n, n, q);
    ModOfOffset(q, n, 1);
    q * n + 1
  }

  /** The dispatch of lines 51-133, parameterised by the rounding of the
      fixed-length periods. */
  function TruncateWith(rounding: Rounding, field: DatetruncField, t: int, cal: CalendarServices): (r: Outcome)
    ensures r.InvalidField? <==> field == Other
  {
    match field
    case Microsecond => Truncated(t)
    case Millisecond => Truncated(t)
    case Second => Truncated(t)
    case Minute => Truncated(RoundDown(rounding, t, SECSPERMIN))
    case Hour => Truncated(RoundDown(rounding, t, SECSPERHOUR))
    case Day => Truncated(RoundDown(rounding, t, SECSPERDAY))
    case Week =>
      var day := RoundDown(rounding, t, SECSPERDAY);
      Truncated(day - cal.extractDow(day) * SECSPERDAY)
    case Month =>
      var day := RoundDown(rounding, t, SECSPERDAY);
      Truncated(day - (cal.gmtime(t).tmMday - 1) * SECSPERDAY)
    case Year =>
      var day := RoundDown(rounding, t, SECSPERDAY);
      Truncated(day - cal.gmtime(t).tmYday * SECSPERDAY)
    case Decade =>
      Truncated(EpochSeconds(PeriodStartYear(cal.gmtime(t).tmYear + YEAR_BASE, 10)))
    case Century =>
      Truncated(EpochSeconds(PeriodStartYear(cal.gmtime(t).tmYear + YEAR_BASE, 100)))
    case Millennium =>
      Truncated(EpochSeconds(PeriodStartYear(cal.gmtime(t).tmYear + YEAR_BASE, 1000)))
    case Other => InvalidField
  }

  /** Lines 49-134 as written. The decade, century and millennium cases
      return `EpochSeconds` of the start year, which is exactly what the
      `CreateEpoch` method computes. */
  function DateTruncate(field: DatetruncField, t: int, cal: CalendarServices): (r: Outcome)
    ensures r.InvalidField? <==> field == Other
    ensures field in {Microsecond, Millisecond, Second} ==> r == Truncated(t)
  {
    TruncateWith(AsWritten, field, t, cal)
  }

  /** Lines 140-145: the null sentinel passes through untouched. */
  function DateTruncateNullable(field: DatetruncField, t: int, nullValue: int, cal: CalendarServices): (r: Outcome)
    ensures t == nullValue ==> r == Truncated(nullValue)
    ensures t != nullValue ==> r == DateTruncate(field, t, cal)
  {
    if t == nullValue then Truncated(nullValue) else DateTruncate(field, t, cal)
  }
}
