/** What `DateTruncate` promises unit by unit, where the code as written
    departs from a mathematical floor for negative timestamps, and the
    corrected floor rounding that the code's comments intend. */
module TruncateProperties {
  import opened CInt
  import opened Gregorian
  import opened Truncate

  /** The period of the units truncated by arithmetic alone. */
  function FixedPeriod(field: DatetruncField): int
    requires field in {Minute, Hour, Day}
  {
    match field
    case Minute => SECSPERMIN
    case Hour => SECSPERHOUR
    case Day => SECSPERDAY
  }

  /** Minute, hour and day on a timestamp at or after the epoch: the result
      is the period boundary at or below `t`, and truncating it again
      changes nothing. */
  lemma FixedPeriodAfterEpoch(field: DatetruncField, t: int, cal: CalendarServices)
    requires field in {Minute, Hour, Day} && t >= 0
    ensures DateTruncate(field, t, cal).Truncated?
    ensures var r := DateTruncate(field, t, cal).value;
      r % FixedPeriod(field) == 0 && 0 <= r <= t < r + FixedPeriod(field)
      && DateTruncate(field, r, cal) == Truncated(r)
  {
    var p := FixedPeriod(field);
    var r := TruncateToPeriod(t, p);
    assert DateTruncate(field, t, cal) == Truncated(r);
    assert r >= 0;
    var again := TruncateToPeriod(r, p);
    assert again == r by {
      assert again <= r < again + p;
      assert again % p == 0 && r % p == 0;
      NearbyMultiplesEqual(again, r, p);
    }
  }

  /** Two multiples of `p` less than `p` apart are equal. */
  lemma NearbyMultiplesEqual(a: int, b: int, p: int)
    requires p > 0 && a % p == 0 && b % p == 0 && -p < b - a < p
    ensures a == b
  {
    assert a == (a / p) * p && b == (b / p) * p;
    assert (b / p - a / p) * p == b - a;
    SameResidueClass(b / p - a / p, p, b - a);
  }

  /** Minute, hour and day before the epoch, case by case: the last period
      before the epoch truncates up to 0; an exact negative multiple moves
      one whole period further down; every other timestamp gets its floor. */
  lemma FixedPeriodBeforeEpoch(field: DatetruncField, t: int, cal: CalendarServices)
    requires field in {Minute, Hour, Day} && t < 0
    ensures DateTruncate(field, t, cal).Truncated?
    ensures var p := FixedPeriod(field); var r := DateTruncate(field, t, cal).value;
      r % p == 0
      && (-p < t ==> r == 0 && r > t)
      && (t % p == 0 ==> r == t - p)
      && (t <= -p && t % p != 0 ==> r == (t / p) * p)
  {
    var p := FixedPeriod(field);
    var r := TruncateToPeriod(t, p);
    assert DateTruncate(field, t, cal) == Truncated(r);
    if t <= -p && t % p != 0 {
      NearbyMultiplesEqual(r, FloorToPeriod(t, p), p);
    }
  }

  /** Concrete instances: one second before the epoch truncates to the epoch
      minute, and the minute starting at -60 truncates to -120 and then to
      -180, so truncation is not idempotent before the epoch. */
  lemma MinuteBeforeEpochExamples(cal: CalendarServices)
    ensures DateTruncate(Minute, -1, cal) == Truncated(0)
    ensures DateTruncate(Minute, -60, cal) == Truncated(-120)
    ensures DateTruncate(Minute, -120, cal) == Truncated(-180)
    ensures DateTruncate(Day, -SECSPERDAY, cal) == Truncated(-2 * SECSPERDAY)
  {
    FixedPeriodBeforeEpoch(Minute, -1, cal);
    FixedPeriodBeforeEpoch(Minute, -60, cal);
    FixedPeriodBeforeEpoch(Minute, -120, cal);
    FixedPeriodBeforeEpoch(Day, -SECSPERDAY, cal);
  }

  /** Week: the day boundary of `t` moved back by the day of week that the
      external service reports for that day. */
  lemma WeekStartsOnDayBoundary(t: int, cal: CalendarServices)
    requires cal.extractDow(TruncateToPeriod(t, SECSPERDAY)) >= 0
    ensures DateTruncate(Week, t, cal).Truncated?
    ensures var day := TruncateToPeriod(t, SECSPERDAY); var r := DateTruncate(Week, t, cal).value;
      r % SECSPERDAY == 0 && r <= day
      && (day - r) / SECSPERDAY == cal.extractDow(day)
  {
    var day := TruncateToPeriod(t, SECSPERDAY);
    var dow := cal.extractDow(day);
    DayMultipleShift(day, dow);
  }

  /** Month: the day boundary moved back by the day of month, less one, that
      the decomposition of `t` itself (not of the day boundary) reports. */
  lemma MonthStartsOnDayBoundary(t: int, cal: CalendarServices)
    requires cal.gmtime(t).tmMday >= 1
    ensures DateTruncate(Month, t, cal).Truncated?
    ensures var day := TruncateToPeriod(t, SECSPERDAY); var r := DateTruncate(Month, t, cal).value;
      r % SECSPERDAY == 0 && r <= day
      && (day - r) / SECSPERDAY == cal.gmtime(t).tmMday - 1
  {
    var day := TruncateToPeriod(t, SECSPERDAY);
    DayMultipleShift(day, cal.gmtime(t).tmMday - 1);
  }

  /** Year: the day boundary moved back by the 0-based day of year of `t`. */
  lemma YearStartsOnDayBoundary(t: int, cal: CalendarServices)
    requires cal.gmtime(t).tmYday >= 0
    ensures DateTruncate(Year, t, cal).Truncated?
    ensures var day := TruncateToPeriod(t, SECSPERDAY); var r := DateTruncate(Year, t, cal).value;
      r % SECSPERDAY == 0 && r <= day
      && (day - r) / SECSPERDAY == cal.gmtime(t).tmYday
  {
    var day := TruncateToPeriod(t, SECSPERDAY);
    DayMultipleShift(day, cal.gmtime(t).tmYday);
  }

  /** Moving a day boundary back by `k >= 0` whole days stays on a day
      boundary and below it. */
  lemma DayMultipleShift(day: int, k: int)
    requires day % SECSPERDAY == 0 && k >= 0
    ensures (day - k * SECSPERDAY) % SECSPERDAY == 0
    ensures day - k * SECSPERDAY <= day
    ensures (day - (day - k * SECSPERDAY)) / SECSPERDAY == k
  {
    assert day == (day / SECSPERDAY) * SECSPERDAY;
    MultipleModZero(day - k * SECSPERDAY, SECSPERDAY, day / SECSPERDAY - k);
  }

  function PeriodYears(field: DatetruncField): int
    requires field in {Decade, Century, Millennium}
  {
    match field
    case Decade => 10
    case Century => 100
    case Millennium => 1000
  }

  /** Decade, century and millennium: the year start of a 1-based period
      (2011-2020, 1901-2000, 1001-2000). For a calendar year of 1 or more the
      period holds that year; for year 0 and earlier the truncating division
      moves the start year up to or past the year itself. */
  lemma MultiYearPeriods(field: DatetruncField, t: int, cal: CalendarServices)
    requires field in {Decade, Century, Millennium}
    ensures DateTruncate(field, t, cal).Truncated?
    ensures var n := PeriodYears(field);
      var year := cal.gmtime(t).tmYear + YEAR_BASE;
      exists start :: start % n == 1
        && DateTruncate(field, t, cal) == Truncated(EpochSeconds(start))
        && (year >= 1 ==> start <= year < start + n)
        && (year <= 0 ==> year <= start < year + n)
  {
    var n := PeriodYears(field);
    var start := PeriodStartYear(cal.gmtime(t).tmYear + YEAR_BASE, n);
    assert DateTruncate(field, t, cal) == Truncated(EpochSeconds(start));
  }

  /** For a calendar year of 1 or more the period truncation lands at or
      before the start of the timestamp's own year. */
  lemma MultiYearNotAfterYearStart(field: DatetruncField, t: int, cal: CalendarServices)
    requires field in {Decade, Century, Millennium}
    requires cal.gmtime(t).tmYear + YEAR_BASE >= 1
    ensures DateTruncate(field, t, cal).Truncated?
    ensures DateTruncate(field, t, cal).value <= EpochSeconds(cal.gmtime(t).tmYear + YEAR_BASE)
  {
    var year := cal.gmtime(t).tmYear + YEAR_BASE;
    var start := PeriodStartYear(year, PeriodYears(field));
    if start < year {
      EpochSecondsIncreasing(start, year);
    }
  }

  /** Decades are 1-based: 2020 belongs to 2011-2020, 2021 starts a decade,
      and year 0 is sent forward to year 1. */
  lemma DecadeStartYears()
    ensures PeriodStartYear(2020, 10) == 2011
    ensures PeriodStartYear(2021, 10) == 2021
    ensures PeriodStartYear(2000, 100) == 1901
    ensures PeriodStartYear(2000, 1000) == 1001
    ensures PeriodStartYear(0, 10) == 1
  {
  }

  /** A timestamp in 2020 truncates to the decade starting in 2011, one in
      2021 to the decade starting in 2021. */
  lemma DecadeExamples(t: int, cal: CalendarServices)
    ensures cal.gmtime(t).tmYear == 120 ==> DateTruncate(Decade, t, cal) == Truncated(EpochSeconds(2011))
    ensures cal.gmtime(t).tmYear == 121 ==> DateTruncate(Decade, t, cal) == Truncated(EpochSeconds(2021))
  {
    DecadeStartYears();
  }

  /** The null sentinel comes back for every field, the invalid one
      included, whatever the calendar services would answer. */
  lemma NullSentinelPassesThrough(field: DatetruncField, nullValue: int, cal: CalendarServices, other: CalendarServices)
    ensures DateTruncateNullable(field, nullValue, nullValue, cal) == Truncated(nullValue)
    ensures DateTruncateNullable(field, nullValue, nullValue, cal)
         == DateTruncateNullable(field, nullValue, nullValue, other)
  {
  }

  // ---------------------------------------------------------------------
  // The floor rounding the comments at lines 59, 66 and 73 intend.

  /** The rounding as written agrees with the floor exactly at or after the
      epoch and on negative non-multiples at or below minus one period. */
  lemma AsWrittenMatchesFloorIff(t: int, period: int)
    requires period > 0
    ensures TruncateToPeriod(t, period) == FloorToPeriod(t, period)
        <==> t >= 0 || (t <= -period && t % period != 0)
  {
    var r := TruncateToPeriod(t, period);
    var f := FloorToPeriod(t, period);
    if t >= 0 {
      NearbyMultiplesEqual(r, f, period);
    } else if t <= -period && t % period != 0 {
      NearbyMultiplesEqual(r, f, period);
    } else if -period < t {
      assert r == 0 && f <= t < 0;
    } else {
      assert r == t - period && t - period < f;
    }
  }

  /** With floor rounding, minute, hour and day truncation returns the
      boundary at or below `t` for every `t` and is idempotent. */
  lemma FloorFixedPeriodIdempotent(field: DatetruncField, t: int, cal: CalendarServices)
    requires field in {Minute, Hour, Day}
    ensures TruncateWith(Floor, field, t, cal).Truncated?
    ensures var p := FixedPeriod(field); var r := TruncateWith(Floor, field, t, cal).value;
      r % p == 0 && r <= t < r + p
      && TruncateWith(Floor, field, r, cal) == Truncated(r)
  {
    var p := FixedPeriod(field);
    var r := FloorToPeriod(t, p);
    var again := FloorToPeriod(r, p);
    NearbyMultiplesEqual(again, r, p);
  }

  /** The corrected rounding gives the answers the code misses: one second
      before the epoch belongs to the minute starting at -60, and -60 is
      its own minute. */
  lemma FloorMinuteExamples(cal: CalendarServices)
    ensures TruncateWith(Floor, Minute, -1, cal) == Truncated(-60)
    ensures TruncateWith(Floor, Minute, -60, cal) == Truncated(-60)
  {
  }

  /** Because the month case takes the day of month from `t` but the day
      boundary from the as-written rounding, one second before the epoch
      (31 December 1969, as any UTC decomposition reports) truncates to
      2 December 1969 instead of 1 December 1969; the floor rounding
      gives 1 December. */
  lemma MonthBeforeEpochExample(cal: CalendarServices)
    requires cal.gmtime(-1).tmMday == 31
    ensures DateTruncate(Month, -1, cal) == Truncated(-30 * SECSPERDAY)
    ensures TruncateWith(Floor, Month, -1, cal) == Truncated(-31 * SECSPERDAY)
  {
    FixedPeriodBeforeEpoch(Day, -1, cal);
  }

  /** Fields other than minute through year are untouched by the choice of
      rounding. */
  lemma RoundingOnlyAffectsDayBasedFields(field: DatetruncField, t: int, cal: CalendarServices)
    requires field !in {Minute, Hour, Day, Week, Month, Year}
    ensures TruncateWith(Floor, field, t, cal) == DateTruncate(field, t, cal)
  {
  }
}
