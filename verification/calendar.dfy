/**
 * Dates as day ordinals of the proleptic Gregorian calendar, the numbering
 * of Python's `date.toordinal()`: 0001-01-01 is day 1.  Week alignment of
 * the start date (`get_first_sunday`, `adjust_start_date`).
 */
module Calendar {
  import opened Results

  const MinYear := 1
  const MaxYear := 9999
  /** The ordinal of 9999-12-31, the last date Python's `date` can hold. */
  const MaxOrdinal := 3652059

  /** A value a Python `date` can hold. */
  predicate IsDate(d: int)
  {
    1 <= d <= MaxOrdinal
  }

  /** The errors a date computation raises. */
  datatype DateError =
    | YearOutOfRange      // ValueError from `datetime(year, 1, 1)`
    | InvalidDateFormat   // ValueError from `strptime`, reported before exiting
    | DateOverflow        // OverflowError: a date past 9999-12-31

  /** `date.weekday()`: Monday is 0, Sunday is 6; day 1 was a Monday. */
  function Weekday(d: int): (w: int)
    ensures 0 <= w < 7
    ensures (d - w) % 7 == 1
  {
    (d + 6) % 7
  }

  predicate IsSunday(d: int)
  {
    Weekday(d) == 6
  }

  /** Moving a date by whole weeks and `row` days shifts its weekday by `row`. */
  lemma WeekdayShift(d: int, weeks: int, row: int)
    ensures Weekday(d + 7 * weeks + row) == (Weekday(d) + row) % 7
  {
    var e := d + 7 * weeks + row;
    assert (e + 6) % 7 == (d + 6 + row) % 7 by {
      assert e + 6 == (d + 6 + row) + 7 * weeks;
    }
    assert (d + 6 + row) % 7 == ((d + 6) % 7 + row) % 7;
  }

  /**
   * `(6 - d.weekday()) % 7` days added to `d`: the first Sunday on or
   * after `d`.
   */
  function NextSunday(d: int): (s: int)
    ensures IsSunday(s)
    ensures d <= s <= d + 6
    ensures IsSunday(d) ==> s == d
    ensures forall e :: d <= e < s ==> !IsSunday(e)
  {
    var days := (6 - Weekday(d)) % 7;
    assert forall e :: d <= e < d + days ==> Weekday(e) == Weekday(d) + (e - d) by {
      forall e | d <= e < d + days
        ensures Weekday(e) == Weekday(d) + (e - d)
      {
        WeekdayShift(d, 0, e - d);
      }
    }
    WeekdayShift(d, 0, days);
    d + days
  }

  /** Aligning an aligned date changes nothing. */
  lemma NextSundayIdempotent(d: int)
    ensures NextSunday(NextSunday(d)) == NextSunday(d)
  {
  }

  predicate IsLeapYear(y: int)
  {
    y % 4 == 0 && (y % 100 != 0 || y % 400 == 0)
  }

  function DaysInYear(y: int): int
  {
    if IsLeapYear(y) then 366 else 365
  }

  /** The ordinal of January 1 of year `y`, as `date(y, 1, 1).toordinal()` computes it. */
  function JanFirst(y: int): int
    requires y >= 1
  {
    var p := y - 1;
    365 * p + p / 4 - p / 100 + p / 400 + 1
  }

  /** The same ordinal counted year by year from 0001-01-01. */
  function JanFirstByCounting(y: int): int
    requires y >= 1
  {
    if y == 1 then 1 else JanFirstByCounting(y - 1) + DaysInYear(y - 1)
  }

  /** Consecutive New Year's Days are one year length apart. */
  lemma JanFirstStep(y: int)
    requires y >= 1
    ensures JanFirst(y + 1) == JanFirst(y) + DaysInYear(y)
  {
    Quarter(y);
    Century(y);
    QuadCentury(y);
  }

  // The three leap-year counts of `JanFirst` grow by one exactly at a multiple.

  lemma Quarter(y: int)
    ensures y / 4 == (y - 1) / 4 + (if y % 4 == 0 then 1 else 0)
  {
  }

  lemma Century(y: int)
    ensures y / 100 == (y - 1) / 100 + (if y % 100 == 0 then 1 else 0)
    ensures y % 100 == 0 ==> y % 4 == 0
  {
  }

  lemma QuadCentury(y: int)
    ensures y / 400 == (y - 1) / 400 + (if y % 400 == 0 then 1 else 0)
    ensures y % 400 == 0 ==> y % 100 == 0
  {
  }

  /** The closed form counts every year's length, leap days included. */
  lemma {:induction false} JanFirstCorrect(y: int)
    requires y >= 1
    ensures JanFirst(y) == JanFirstByCounting(y)
  {
    if y > 1 {
      JanFirstCorrect(y - 1);
      JanFirstStep(y - 1);
    }
  }

  /** `get_first_sunday(year)`: the first Sunday of `year`. */
  function FirstSunday(year: int): (r: Result<int, DateError>)
    ensures r.Failure? <==> !(MinYear <= year <= MaxYear)
    ensures r.Failure? ==> r.error == YearOutOfRange
    ensures r.Success? ==> IsDate(r.value) && IsSunday(r.value)
    ensures r.Success? ==> JanFirst(year) <= r.value <= JanFirst(year) + 6
    ensures r.Success? ==> forall d :: JanFirst(year) <= d < r.value ==> !IsSunday(d)
  {
    if year < MinYear || year > MaxYear then
      Failure(YearOutOfRange)
    else
      assert JanFirst(year) + 6 <= JanFirst(MaxYear) + 6 <= MaxOrdinal by {
        JanFirstMonotone(year, MaxYear);
      }
      Success(NextSunday(JanFirst(year)))
  }

  lemma {:induction false} JanFirstMonotone(y: int, z: int)
    requires 1 <= y <= z
    ensures JanFirst(y) <= JanFirst(z)
    decreases z - y
  {
    if y < z {
      JanFirstStep(y);
      JanFirstMonotone(y + 1, z);
    }
  }

  /** The first Sunday of a year falls within its first seven days: January 1-7. */
  lemma FirstSundayInFirstWeek(year: int)
    requires MinYear <= year <= MaxYear
    ensures FirstSunday(year).Success?
    ensures JanFirst(year) <= FirstSunday(year).value < JanFirst(year + 1)
  {
    JanFirstStep(year);
  }

  /** What the command line supplies as a start date. */
  datatype StartDateArg =
    | NoStartDate                // `--start-date` absent
    | ParsedDate(ordinal: int)   // a string `strptime` accepted, as the date it denotes
    | Unparsable                 // a string `strptime` rejects

  /**
   * `adjust_start_date(start_date_str, year)`: with no start date, the first
   * Sunday of `year` (of `currentYear` when no year is given); otherwise the
   * given date moved forward to a Sunday.
   */
  function AdjustStartDate(arg: StartDateArg, year: Option<int>, currentYear: int): (r: Result<int, DateError>)
    requires MinYear <= currentYear <= MaxYear
    requires arg.ParsedDate? ==> IsDate(arg.ordinal)
    ensures r.Success? ==> IsDate(r.value) && IsSunday(r.value)
    ensures arg.NoStartDate? ==> r == FirstSunday(if year.Some? then year.value else currentYear)
    ensures arg.Unparsable? ==> r == Failure(InvalidDateFormat)
    ensures arg.ParsedDate? ==>
      var d := arg.ordinal;
      (r.Success? <==> NextSunday(d) <= MaxOrdinal) &&
      (r.Success? ==> d <= r.value <= d + 6 && (IsSunday(d) ==> r.value == d)) &&
      (r.Failure? ==> r.error == DateOverflow)
  {
    match arg
    case NoStartDate =>
      FirstSunday(if year.Some? then year.value else currentYear)
    case Unparsable =>
      Failure(InvalidDateFormat)
    case ParsedDate(d) =>
      var s := NextSunday(d);
      if s > MaxOrdinal then Failure(DateOverflow) else Success(s)
  }

  /** The last representable date, 9999-12-31, is a Friday, so the five dates before it cannot be aligned. */
  lemma LastDatesOverflow(d: int)
    requires MaxOrdinal - 4 <= d <= MaxOrdinal
    ensures AdjustStartDate(ParsedDate(d), None, MinYear) == Failure(DateOverflow)
  {
    assert Weekday(MaxOrdinal) == 4;
  }
}
