/** The proleptic Gregorian calendar as an independent reference: the
    leap rule, year lengths, and day counts from 1 January 1970. The
    year-start epoch computed by the truncation code is proved against
    these definitions. */
module Gregorian {
  import opened CInt

  const SECSPERMIN: int := 60
  const SECSPERHOUR: int := 3600
  const SECSPERDAY: int := 86400
  /** `tm_year` counts years from this base. */
  const YEAR_BASE: int := 1900
  const EPOCH_YEAR: int := 1970

  /** Divisible by 4, and not a century year unless divisible by 400. */
  predicate IsLeapYear(y: int)
  {
    y % 4 == 0 && (y % 100 != 0 || y % 400 == 0)
  }

  function YearLength(y: int): int
  {
    if IsLeapYear(y) then 366 else 365
  }

  /** Days in the years a, a+1, ..., b-1 (zero when b <= a). */
  function DaysBetween(a: int, b: int): int
    decreases b - a
  {
    if b <= a then 0 else DaysBetween(a, b - 1) + YearLength(b - 1)
  }

  /** Number of leap years among a, a+1, ..., b-1. */
  function LeapCount(a: int, b: int): int
    decreases b - a
  {
    if b <= a then 0 else LeapCount(a, b - 1) + (if IsLeapYear(b - 1) then 1 else 0)
  }

  /** Days from 1 January 1970 to 1 January of `y`; negative before 1970. */
  function DaysFromEpoch(y: int): int
  {
    if y >= EPOCH_YEAR then DaysBetween(EPOCH_YEAR, y) else -DaysBetween(y, EPOCH_YEAR)
  }

  /** Seconds since the epoch at 00:00:00 UTC on 1 January of `y`. */
  function EpochSeconds(y: int): int
  {
    SECSPERDAY * DaysFromEpoch(y)
  }

  lemma {:induction false} DaysBetweenSplit(a: int, b: int, c: int)
    requires a <= b <= c
    ensures DaysBetween(a, c) == DaysBetween(a, b) + DaysBetween(b, c)
    decreases c - b
  {
    if b < c {
      DaysBetweenSplit(a, b, c - 1);
    }
  }

  lemma {:induction false} LeapCountSplit(a: int, b: int, c: int)
    requires a <= b <= c
    ensures LeapCount(a, c) == LeapCount(a, b) + LeapCount(b, c)
    decreases c - b
  {
    if b < c {
      LeapCountSplit(a, b, c - 1);
    }
  }

  /** A span of years lasts 365 days per year plus one per leap year. */
  lemma {:induction false} DaysBetweenByLeapCount(a: int, b: int)
    requires a <= b
    ensures DaysBetween(a, b) == 365 * (b - a) + LeapCount(a, b)
    decreases b - a
  {
    if a < b {
      DaysBetweenByLeapCount(a, b - 1);
    }
  }

  /** Consecutive year starts are exactly one year length apart, on both
      sides of 1970. */
  lemma {:induction false} EpochSecondsStep(y: int)
    ensures EpochSeconds(y + 1) - EpochSeconds(y) == SECSPERDAY * YearLength(y)
  {
    if y < EPOCH_YEAR {
      DaysBetweenSplit(y, y + 1, EPOCH_YEAR);
    }
  }

  /** Year starts strictly increase with the year. */
  lemma {:induction false} EpochSecondsIncreasing(a: int, b: int)
    requires a < b
    ensures EpochSeconds(a) < EpochSeconds(b)
    decreases b - a
  {
    EpochSecondsStep(b - 1);
    if a < b - 1 {
      EpochSecondsIncreasing(a, b - 1);
    }
  }

  /** Stepping by four years keeps a year a multiple of 4. */
  lemma MultipleOfFourSteps(y: int)
    requires y % 4 == 0
    ensures (y + 4) % 4 == 0 && (y - 4) % 4 == 0
  {
    assert y == 4 * (y / 4);
    MultipleModZero(y + 4, 4, y / 4 + 1);
    MultipleModZero(y - 4, 4, y / 4 - 1);
  }

  /** A run of four years starting at a multiple of 4 holds one leap year
      unless that year is a century year not divisible by 400. */
  lemma LeapCountFourYears(y: int)
    requires y % 4 == 0
    ensures LeapCount(y, y + 4) == if IsLeapYear(y) then 1 else 0
  {
    assert LeapCount(y, y + 1) == if IsLeapYear(y) then 1 else 0;
    assert (y + 4) % 4 == 0;
    NoLeapYearBeforeMultipleOfFour(y + 1, y + 4);
    LeapCountSplit(y, y + 1, y + 4);
  }

  /** The years strictly below the next multiple of 4 hold no leap year. */
  lemma NoLeapYearBeforeMultipleOfFour(a: int, b: int)
    requires b % 4 == 0 && b - 4 < a <= b
    ensures LeapCount(a, b) == 0
  {
    var k := b / 4;
    assert b == 4 * k;
    if a < b {
      assert (b - 1) % 4 == 3 by { assert b - 1 == 4 * (k - 1) + 3; }
      if a < b - 1 {
        assert (b - 2) % 4 == 2 by { assert b - 2 == 4 * (k - 1) + 2; }
        if a < b - 2 {
          assert (b - 3) % 4 == 1 by { assert b - 3 == 4 * (k - 1) + 1; }
          assert LeapCount(a, b - 3) == 0;
        }
        assert LeapCount(a, b - 1) == LeapCount(a, b - 2);
      }
      assert LeapCount(a, b) == LeapCount(a, b - 1);
    }
  }

  /** A year strictly inside a century is not itself a century year. */
  lemma InsideCenturyNotCentury(c: int, y: int)
    requires c % 100 == 0 && c < y < c + 100
    ensures y % 100 != 0
  {
    if y % 100 == 0 {
      assert y == (y / 100) * 100;
      assert c == (c / 100) * 100;
      assert (y / 100 - c / 100) * 100 == y - c;
      SameResidueClass(y / 100 - c / 100, 100, y - c);
    }
  }

  /** After the first year of a century `c`, every fourth year of that
      century is a leap year. */
  lemma {:induction false} LeapCountWithinCentury(c: int, a: int, b: int)
    requires c % 100 == 0 && c < a <= b <= c + 100
    requires a % 4 == 0 && b % 4 == 0
    ensures LeapCount(a, b) == (b - a) / 4
    decreases b - a
  {
    if a < b {
      var y := b - 4;
      assert a <= y && y % 4 == 0 by {
        var k := (b - a) / 4;
        assert b - a == 4 * k + (b - a) % 4;
      }
      InsideCenturyNotCentury(c, y);
      LeapCountFourYears(y);
      LeapCountSplit(a, y, b);
      if a < y {
        LeapCountWithinCentury(c, a, y);
      }
    }
  }

  /** 2000 is a leap year under the 400-year rule; 1900 and 2100 are not. */
  lemma CenturyLeapYears()
    ensures IsLeapYear(2000) && !IsLeapYear(1900) && !IsLeapYear(2100)
    ensures YearLength(1900) == 365 && YearLength(2000) == 366 && YearLength(2100) == 365
  {
  }

  /** A century starting at a century year has 24 leap years besides,
      possibly, its first year, which is a leap year only under the
      400-year rule. */
  lemma CenturyLeapCount(c: int)
    requires c % 100 == 0
    ensures LeapCount(c, c + 100) == if IsLeapYear(c) then 25 else 24
  {
    assert c == 100 * (c / 100);
    MultipleModZero(c, 4, 25 * (c / 100));
    MultipleOfFourSteps(c);
    MultipleModZero(c + 100, 4, 25 * (c / 100) + 25);
    LeapCountFourYears(c);
    LeapCountSplit(c, c + 4, c + 100);
    LeapCountWithinCentury(c, c + 4, c + 100);
  }

  /** A century starting at a century year lasts 36524 days, or 36525 when
      that year is divisible by 400. */
  lemma CenturyDays(c: int)
    requires c % 100 == 0
    ensures DaysBetween(c, c + 100) == if c % 400 == 0 then 36525 else 36524
  {
    CenturyLeapCount(c);
    DaysBetweenByLeapCount(c, c + 100);
  }

  /** The Gregorian cycle: four centuries starting at a year divisible by
      400 last 146097 days, one 400-year leap day plus three skipped
      century years short of the Julian count. */
  lemma FourCenturyCycle(c: int)
    requires c % 400 == 0
    ensures DaysBetween(c, c + 400) == 146097
  {
    var k := c / 400;
    assert c == 400 * k;
    MultipleModZero(c, 100, 4 * k);
    ModOfOffset(4 * k, 100, 0);
    assert c + 100 == (4 * k + 1) * 100 && c + 200 == (4 * k + 2) * 100 && c + 300 == (4 * k + 3) * 100;
    MultipleModZero(c + 100, 100, 4 * k + 1);
    MultipleModZero(c + 200, 100, 4 * k + 2);
    MultipleModZero(c + 300, 100, 4 * k + 3);
    ModOfOffset(k, 400, 100);
    ModOfOffset(k, 400, 200);
    ModOfOffset(k, 400, 300);
    CenturyDays(c);
    CenturyDays(c + 100);
    CenturyDays(c + 200);
    CenturyDays(c + 300);
    DaysBetweenSplit(c, c + 100, c + 400);
    DaysBetweenSplit(c + 100, c + 200, c + 400);
    DaysBetweenSplit(c + 200, c + 300, c + 400);
  }

  /** Known year starts: the epoch itself and 1972, two common years later. */
  lemma EpochPivotYearStarts()
    ensures EpochSeconds(1970) == 0
    ensures EpochSeconds(1972) == 730 * SECSPERDAY
  {
    NoLeapYearBeforeMultipleOfFour(1970, 1972);
    DaysBetweenByLeapCount(1970, 1972);
  }

  /** The distance between two year starts is the day count of the years
      between them. */
  lemma EpochSecondsDifference(a: int, b: int)
    requires a <= b
    ensures EpochSeconds(b) - EpochSeconds(a) == SECSPERDAY * DaysBetween(a, b)
  {
    if a >= EPOCH_YEAR {
      DaysBetweenSplit(EPOCH_YEAR, a, b);
    } else if b >= EPOCH_YEAR {
      DaysBetweenSplit(a, EPOCH_YEAR, b);
    } else {
      DaysBetweenSplit(a, b, EPOCH_YEAR);
    }
  }

  /** The 20th century (1900 to 1999) holds 24 leap years: 1900 is skipped
      and 2000 is not part of it. */
  lemma TwentiethCenturyLength()
    ensures EpochSeconds(2000) - EpochSeconds(1900) == (100 * 365 + 24) * SECSPERDAY
  {
    var c := 1900;
    CenturyDays(c);
    EpochSecondsDifference(c, c + 100);
  }
}
