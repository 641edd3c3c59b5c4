# DATE_TRUNC over epoch seconds

A Dafny model of the query engine's SQL `DATE_TRUNC` primitive
(`QueryEngine/DateTruncate.cpp`). The primitive works on signed seconds
since 1970-01-01T00:00:00Z and uses integer arithmetic only. It has three
parts:

- `create_epoch(year)`: the timestamp of 00:00:00 UTC on 1 January of `year`.
  It starts from a leap-free estimate anchored at 1972. A forward loop from
  1972 or a backward loop from 1968 then corrects it by the number of leap
  years, skipping century years not divisible by 400.
- `DateTruncate(field, t)`: the start of the unit holding `t`. The units
  are microsecond to second (identity), minute, hour and day (C truncating
  division, then one period lower when the product is negative), week, month
  and year (the day boundary moved back by a day-of-week, day-of-month or
  day-of-year), and decade, century and millennium (`create_epoch` of a
  1-based start year). Any other field fails.
- `DateTruncateNullable`: returns the null sentinel unchanged and
  otherwise delegates to `DateTruncate`.

Modules, one per concern:

- `CInt` (CInt.dfy): C's truncating `/` and `%` (`CDiv`, `CRem`). It also
  has the signed/unsigned 64-bit conversions behind the
  `(uint64_t)(t / p) * p` idiom.
- `Gregorian` (Gregorian.dfy): the reference calendar. It holds the leap
  rule, year lengths, `DaysBetween`, `LeapCount`, and `EpochSeconds(y)`, the
  year-by-year day count from 1970 times 86400. It also holds the constants
  SECSPERMIN = 60, SECSPERHOUR = 3600, SECSPERDAY = 86400 and
  YEAR_BASE = 1900.
- `Epoch` (Epoch.dfy): `create_epoch` as the method `CreateEpoch`, with its
  two counting loops. It is proved to return `EpochSeconds(year)` for every
  integer year.
- `Truncate` (Truncate.dfy): the field enumeration, the dispatch and the
  null-aware wrapper. The two external services, `extract_dow` and
  `gmtime_r_newlib`, arrive as a `CalendarServices` value of two total
  functions. The model assumes nothing about them except where a lemma
  states a range requirement. An unhandled field yields `InvalidField`. That
  one outcome stands for both builds' behaviour: -1 on the accelerator and a
  failed `CHECK` on the host.
- `TruncateProperties` (TruncateProperties.dfy): unit-by-unit properties,
  the negative-time behaviour and the corrected floor rounding.

The dispatch is written once, as `Truncate.TruncateWith(rounding, …)`.
`Truncate.DateTruncate` is the code as written (`AsWritten` rounding).
`TruncateWith(Floor, …)` is the rounding that the comments at lines 59, 66
and 73 intend (see Findings). The decade, century and millennium cases
return `Gregorian.EpochSeconds(start)`, which is exactly the value that
`Epoch.CreateEpoch(start)` is proved to compute.

On negative timestamps the code and its intent disagree. The comments at
lines 59, 66 and 73 describe rounding down, so truncating -1 to the minute
should give -60. The code gives 0. The model follows the code.

## Model

| member | source | states |
|---|---|---|
| CInt.CDiv | QueryEngine/DateTruncate.cpp:58 | C division rounds toward zero: the remainder `a - q*b` is in `[0, b)` for `a >= 0` and in `(-b, 0]` for `a < 0`, and `q` has the sign of `a` |
| CInt.CDivMatchesFloorIff | QueryEngine/DateTruncate.cpp:58-61 | C's quotient equals the floor quotient exactly for non-negative dividends and exact multiples; for any other negative dividend it is one larger |
| CInt.CRem | QueryEngine/DateTruncate.cpp:26 | C's `%` is zero exactly when `b` divides `a`, and otherwise takes the sign of `a` with magnitude below `b` |
| CInt.UnsignedMulBackExact | QueryEngine/DateTruncate.cpp:58 | for every 64-bit timestamp, multiplying the truncated quotient back as `uint64_t` and storing it in `time_t` gives the signed product `q*p` |
| Gregorian.EpochSecondsStep | QueryEngine/DateTruncate.cpp:22-38 | consecutive year starts are 86400 × (366 for a Gregorian leap year, else 365) seconds apart, before and after 1970 alike |
| Gregorian.EpochSecondsIncreasing | QueryEngine/DateTruncate.cpp:12-40 | a later year starts strictly later |
| Gregorian.DaysBetweenByLeapCount | QueryEngine/DateTruncate.cpp:16-38 | a span of years lasts 365 days per year plus one day per leap year in it |
| Gregorian.CenturyLeapYears | QueryEngine/DateTruncate.cpp:26 | 2000 is a leap year; 1900 and 2100 are common years |
| Gregorian.CenturyDays | QueryEngine/DateTruncate.cpp:22-37 | a century from a century year lasts 36524 days, or 36525 when that year is divisible by 400 |
| Gregorian.FourCenturyCycle | QueryEngine/DateTruncate.cpp:22-37 | four centuries from a year divisible by 400 last 146097 days |
| Gregorian.EpochPivotYearStarts | QueryEngine/DateTruncate.cpp:14-17 | 1970 starts at 0 and 1972 at 730 × 86400 |
| Gregorian.TwentiethCenturyLength | QueryEngine/DateTruncate.cpp:22-38 | the years 1900 to 1999 hold 100 × 365 + 24 days |
| Gregorian.EpochSecondsDifference | QueryEngine/DateTruncate.cpp:12-40 | the distance between two year starts is 86400 × the days of the years between them |
| Epoch.SkippedCenturyIffCommon | QueryEngine/DateTruncate.cpp:26-27 | on the multiples of 4 that the loops visit, the C skip test (century year not divisible by 400) holds exactly for the non-leap years |
| Epoch.DaysFromEpochByCorrection | QueryEngine/DateTruncate.cpp:14-38 | the 1972-anchored estimate plus the signed leap correction equals the year-by-year day count from 1970 |
| Epoch.PivotYearsNeedNoCorrection | QueryEngine/DateTruncate.cpp:22-37 | neither loop counts a leap year for 1970 or 1972 |
| Epoch.CreateEpoch | QueryEngine/DateTruncate.cpp:12-40 | the forward and backward loops produce `730 + 365*(year-1972)` days plus the signed leap-year count, which equals the Gregorian year start `EpochSeconds(year)` for every integer year |
| Truncate.TruncateToPeriod | QueryEngine/DateTruncate.cpp:57-63 | the result is a multiple of the period; it is the floor boundary for `t >= 0` and for negative non-multiples at or below `-period`; it is 0 for `t` in `(-period, 0)`; it is `t - period` for an exact negative multiple |
| Truncate.FloorToPeriod | QueryEngine/DateTruncate.cpp:59 | the boundary the comment describes: a multiple of the period with `r <= t < r + period` |
| Truncate.PeriodStartYear | QueryEngine/DateTruncate.cpp:112-126 | the start year is 1 modulo N; it is at or below the year and less than N below it for years of 1 or more; for year 0 and earlier it is at or above the year and less than N above it |
| Truncate.TruncateWith | QueryEngine/DateTruncate.cpp:49-134 | the dispatch fails exactly for a field outside the twelve handled units |
| Truncate.DateTruncate | QueryEngine/DateTruncate.cpp:49-134 | it fails exactly on the unhandled field; microsecond, millisecond and second return `t` unchanged |
| Truncate.DateTruncateNullable | QueryEngine/DateTruncate.cpp:140-145 | when `t` equals the sentinel it returns the sentinel, and otherwise it returns `DateTruncate(field, t)` |
| TruncateProperties.FixedPeriodAfterEpoch | QueryEngine/DateTruncate.cpp:57-77 | for minute, hour and day and `t >= 0`, the result is a period multiple with `0 <= r <= t < r + period`, and truncating `r` again returns `r` |
| TruncateProperties.FixedPeriodBeforeEpoch | QueryEngine/DateTruncate.cpp:57-77 | for `t < 0`: `t` in `(-period, 0)` gives 0, which is above `t`; an exact multiple gives `t - period`; any other `t` gives the floor boundary |
| TruncateProperties.MinuteBeforeEpochExamples | QueryEngine/DateTruncate.cpp:57-63 | minute(-1) = 0, minute(-60) = -120, minute(-120) = -180, and day(-86400) = -172800 |
| TruncateProperties.WeekStartsOnDayBoundary | QueryEngine/DateTruncate.cpp:78-84 | the week start is the day boundary minus the reported day of week in whole days; it stays on a day boundary and at or below the day |
| TruncateProperties.MonthStartsOnDayBoundary | QueryEngine/DateTruncate.cpp:91-102 | the month start is the day boundary minus `(mday - 1)` whole days, with `mday` taken from `t` itself; it stays on a day boundary at or below the day |
| TruncateProperties.YearStartsOnDayBoundary | QueryEngine/DateTruncate.cpp:103-111 | the year start is the day boundary minus `yday` whole days, with `yday` taken from `t`; it stays on a day boundary at or below the day |
| TruncateProperties.MultiYearPeriods | QueryEngine/DateTruncate.cpp:112-126 | decade, century and millennium return the year start of some `start` with `start mod N == 1`; that `start` holds the calendar year when the year is 1 or more, and lies at or above it when the year is 0 or less |
| TruncateProperties.MultiYearNotAfterYearStart | QueryEngine/DateTruncate.cpp:112-126 | for calendar years of 1 or more, the result is at or before the start of the timestamp's own year |
| TruncateProperties.DecadeStartYears | QueryEngine/DateTruncate.cpp:114-124 | 2020 → 2011, 2021 → 2021, century of 2000 → 1901, millennium of 2000 → 1001, and year 0 → 1 |
| TruncateProperties.DecadeExamples | QueryEngine/DateTruncate.cpp:112-116 | a timestamp in 2020 truncates to the start of 2011; one in 2021 to the start of 2021 |
| TruncateProperties.NullSentinelPassesThrough | QueryEngine/DateTruncate.cpp:140-145 | the sentinel comes back for every field, the invalid one included, and the answer does not depend on the calendar services |
| TruncateProperties.AsWrittenMatchesFloorIff | QueryEngine/DateTruncate.cpp:57-62 | the as-written rounding equals the floor exactly when `t >= 0` or `t` is a non-multiple at or below `-period` |
| TruncateProperties.FloorFixedPeriodIdempotent | QueryEngine/DateTruncate.cpp:57-77 | with floor rounding, minute, hour and day return a boundary with `r <= t < r + period` for every `t`, and truncating `r` again returns `r` |
| TruncateProperties.FloorMinuteExamples | QueryEngine/DateTruncate.cpp:59-61 | with floor rounding, minute(-1) = -60 and minute(-60) = -60 |
| TruncateProperties.MonthBeforeEpochExample | QueryEngine/DateTruncate.cpp:94-102 | when the decomposition of -1 reports day 31 of the month, the code truncates -1 to -30 days (2 December 1969); floor rounding gives -31 days (1 December 1969) |
| TruncateProperties.RoundingOnlyAffectsDayBasedFields | QueryEngine/DateTruncate.cpp:112-133 | the choice of rounding changes nothing outside minute through year |

## Findings

| source | as written | input that shows it | evidently intended | confidence | as-written member | corrected member |
|---|---|---|---|---|---|---|
| QueryEngine/DateTruncate.cpp:57-77 | truncating division, then one period lower whenever the product is negative (minute, hour, day, and the day boundary of week, month and year) | minute of -1 gives 0, which is after the input; minute of -60 gives -120, and -120 gives -180, so truncation is not idempotent | the floor boundary `floor(t / p) * p`, as the comment at line 59 says: minute(-1) = -60 and minute(-60) = -60 | high; not executed | TruncateProperties.MinuteBeforeEpochExamples | TruncateProperties.FloorFixedPeriodIdempotent |

The same rounding also affects month truncation before the epoch. The
month case subtracts `mday - 1` days, where `mday` comes from `t`, from a
day boundary computed with the as-written rounding. For `t = -1` that puts
the start of December 1969 on the 2nd
(`TruncateProperties.MonthBeforeEpochExample`). The corrected dispatch is
`Truncate.TruncateWith(Floor, …)`. `TruncateProperties.AsWrittenMatchesFloorIff`
gives the exact set of inputs on which the two roundings agree.

## Left out

- `gmtime_r_newlib` and `extract_dow` come from the ExtractFromTime module, which is not part of this model. They are parameters (`CalendarServices`), not calendar arithmetic. So the model does not prove week alignment (every timestamp of a week gives the same start), month or year idempotence, or that decade truncation lands at or below `t`. All of these depend on what those services compute.
- TruncateProperties.WeekStartsOnDayBoundary: assumes only that the reported day of week is non-negative, not that it is below 7.
- TruncateProperties.MonthStartsOnDayBoundary: assumes only that the day of month is at least 1, not that it is at most 31.
- TruncateProperties.YearStartsOnDayBoundary: assumes only that the day of year is non-negative, not that it is below 366.
- Fixed-width overflow: timestamps, years and products are unbounded integers. Whether `year_offset * 365 * SECSPERDAY` or `tm_year + YEAR_BASE` overflows depends on header types that are not part of this model. The only 64-bit detail modelled is the `uint64_t` cast, which `CInt.UnsignedMulBackExact` shows is harmless for every 64-bit timestamp.
- CInt.CDiv: defined for positive divisors only. Every division in the source is by a positive constant.
- Truncate.DateTruncate: decade, century and millennium use `Gregorian.EpochSeconds`, the function that `Epoch.CreateEpoch` is proved to compute. They do not call the method itself.
- Host and accelerator builds: the two failure behaviours (-1 and a failed `CHECK`) are the single outcome `InvalidField`. Build attributes and logging are not modelled.
- Concurrency: there is none; every function is stateless.
