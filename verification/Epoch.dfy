/** `create_epoch`: the epoch second at the start of a year, computed the
    way the source does it, from a leap-free estimate anchored at 1972 and
    a leap-day correction counted by one of two loops. */
module Epoch {
  import opened CInt
  import opened Gregorian

  /** The loop test at lines 26 and 33, in C arithmetic: a century year not
      divisible by 400, which the count skips. */
  predicate SkippedCentury(yearCount: int)
  {
    CRem(yearCount, 100) == 0 && CRem(yearCount, 400) != 0
  }

  /** On the years the loops visit (multiples of 4) the skip test is
      exactly the complement of the Gregorian leap rule. */
  lemma SkippedCenturyIffCommon(yearCount: int)
    requires yearCount % 4 == 0
    ensures SkippedCentury(yearCount) <==> !IsLeapYear(yearCount)
  {
  }

  /** The signed number of leap days between 1972 and the start of `year`:
      counted forward for later years, backward (negatively) otherwise. */
  function LeapCorrection(year: int): int
  {
    if year > 1972 then LeapCount(1972, year) else -LeapCount(year, 1972)
  }

  /** The 1972-anchored decomposition agrees with the year-by-year day count. */
  lemma DaysFromEpochByCorrection(year: int)
    ensures DaysFromEpoch(year) == 730 + 365 * (year - 1972) + LeapCorrection(year)
  {
    assert DaysBetween(1970, 1972) == 730;
    assert LeapCount(1970, 1972) == 0;
    if year >= 1972 {
      DaysBetweenSplit(1970, 1972, year);
      DaysBetweenByLeapCount(1972, year);
    } else if year >= 1970 {
      DaysBetweenSplit(1970, year, 1972);
      DaysBetweenByLeapCount(year, 1972);
      DaysBetweenByLeapCount(1970, year);
      LeapCountSplit(1970, year, 1972);
    } else {
      DaysBetweenSplit(year, 1970, 1972);
      DaysBetweenByLeapCount(year, 1972);
      LeapCountSplit(year, 1970, 1972);
    }
  }

  /** Neither loop counts anything for 1970 or 1972. */
  lemma PivotYearsNeedNoCorrection()
    ensures LeapCorrection(1970) == 0 && LeapCorrection(1972) == 0
  {
    assert LeapCount(1970, 1972) == 0;
  }

  /** Lines 12-40. The forward loop visits 1972, 1976, ... below `year`; the
      backward loop visits 1968, 1964, ... down to `year`; each counts the
      visited years that are not skipped century years. */
  method CreateEpoch(year: int) returns (timeCalc: int)
    ensures timeCalc == SECSPERDAY * (730 + 365 * (year - 1972) + LeapCorrection(year))
    ensures timeCalc == EpochSeconds(year)
  {
    var yearOffset := year - 1972;
    timeCalc := 2 * 365 * SECSPERDAY;
    timeCalc := timeCalc + yearOffset * 365 * SECSPERDAY;
    var leapYears := 0;
    if yearOffset > 0 {
      var yearCount := 1972;
      while yearCount < year
        invariant 1972 <= yearCount < year + 4
        invariant yearCount % 4 == 0
        invariant leapYears == LeapCount(1972, yearCount)
        decreases year - yearCount
      {
        LeapCountFourYears(yearCount);
        LeapCountSplit(1972, yearCount, yearCount + 4);
        SkippedCenturyIffCommon(yearCount);
        MultipleOfFourSteps(yearCount);
        if !SkippedCentury(yearCount) {
          leapYears := leapYears + 1;
        }
        yearCount := yearCount + 4;
      }
      NoLeapYearBeforeMultipleOfFour(year, yearCount);
      LeapCountSplit(1972, year, yearCount);
      assert leapYears == LeapCorrection(year);
    } else {
      var yearCount := 1968;
      while yearCount >= year
        invariant year - 4 <= yearCount <= 1968
        invariant yearCount % 4 == 0
        invariant leapYears == -LeapCount(yearCount + 4, 1972)
        decreases yearCount - year
      {
        LeapCountFourYears(yearCount);
        LeapCountSplit(yearCount, yearCount + 4, 1972);
        SkippedCenturyIffCommon(yearCount);
        MultipleOfFourSteps(yearCount);
        if !SkippedCentury(yearCount) {
          leapYears := leapYears - 1;
        }
        yearCount := yearCount - 4;
      }
      NoLeapYearBeforeMultipleOfFour(year, yearCount + 4);
      LeapCountSplit(year, yearCount + 4, 1972);
      assert leapYears == LeapCorrection(year);
    }
    timeCalc := timeCalc + leapYears * SECSPERDAY;
    assert timeCalc == SECSPERDAY * (730 + 365 * yearOffset + leapYears);
    DaysFromEpochByCorrection(year);
  }
}
