/** The proleptic Gregorian calendar on day numbers (days since 1970-01-01),
    as Go's time package computes it. Days are counted in 400-year eras that
    start on 0000-03-01, with March-based years so that the leap day is the
    last day of its year; the year-of-era is found by a short search. */
module Civil {
  import opened Basics
  import opened DateText

  // An era of 400 Gregorian years has 146097 days; 1970-01-01 is day
  // 719468 counted from 0000-03-01. Both appear as literals below so that
  // the arithmetic on them stays linear for the verifier.

  predicate IsLeapYear(y: int) {
    y % 4 == 0 && (y % 100 != 0 || y % 400 == 0)
  }

  function DaysInMonth(y: int, m: int): int
    requires 1 <= m <= 12
  {
    if m == 2 then (if IsLeapYear(y) then 29 else 28)
    else if m == 4 || m == 6 || m == 9 || m == 11 then 30
    else 31
  }

  predicate IsValid(d: Ymd) {
    1 <= d.month <= 12 && 1 <= d.day <= DaysInMonth(d.year, d.month)
  }

  /** First day, within its era, of the March-based year `yoe` of that era. */
  function YearStart(yoe: int): int
    requires 0 <= yoe <= 400
  {
    if yoe == 400 then 146097 else 365 * yoe + yoe / 4 - yoe / 100
  }

  /** First day, within its March-based year, of month `mp` (0 is March, 11 is February). */
  function MonthStart(mp: int): int
  {
    (153 * mp + 2) / 5
  }

  /** Shifting a year by whole eras keeps its leap-year residues. */
  lemma EraShift(era: int, x: int)
    ensures (era * 400 + x) % 4 == x % 4
    ensures (era * 400 + x) % 100 == x % 100
    ensures (era * 400 + x) % 400 == x % 400
  {
    RemainderOf(era * 400 + x, era * 100 + x / 4, 4, x % 4);
    RemainderOf(era * 400 + x, era * 4 + x / 100, 100, x % 100);
    RemainderOf(era * 400 + x, era + x / 400, 400, x % 400);
  }

  /** A March-based year of an era ends with the leap day exactly when the
      calendar year holding its February is a leap year. */
  lemma YearLength(era: int, yoe: int)
    requires 0 <= yoe < 400
    ensures YearStart(yoe + 1) - YearStart(yoe)
            == if IsLeapYear(era * 400 + yoe + 1) then 366 else 365
  {
    EraShift(era, yoe + 1);
    if yoe < 399 {
      assert (yoe + 1) / 4 - yoe / 4 == if (yoe + 1) % 4 == 0 then 1 else 0;
      assert (yoe + 1) / 100 - yoe / 100 == if (yoe + 1) % 100 == 0 then 1 else 0;
    }
  }

  lemma {:induction false} YearStartMonotonic(i: int, j: int)
    requires 0 <= i <= j <= 400
    ensures YearStart(i) + 365 * (j - i) <= YearStart(j)
    decreases j - i
  {
    if i < j {
      YearLength(0, i);
      YearStartMonotonic(i + 1, j);
    }
  }

  function FindYear(doe: int, yoe: int): (r: int)
    requires 0 <= yoe < 400 && YearStart(yoe) <= doe < 146097
    ensures yoe <= r < 400 && YearStart(r) <= doe < YearStart(r + 1)
    decreases 400 - yoe
  {
    if doe < YearStart(yoe + 1) then yoe else FindYear(doe, yoe + 1)
  }

  /** The March-based year of an era that holds day `doe` of the era. */
  function YearOfEra(doe: int): (yoe: int)
    requires 0 <= doe < 146097
    ensures 0 <= yoe < 400 && YearStart(yoe) <= doe < YearStart(yoe + 1)
  {
    // No year is longer than 366 days, so the search starts at most two years early.
    FindYear(doe, doe / 366)
  }

  /** The month (0 is March) of a March-based year that holds day `doy` of it. */
  function MonthOfYear(doy: int): (mp: int)
    requires 0 <= doy
    ensures 0 <= mp && MonthStart(mp) <= doy < MonthStart(mp + 1)
    ensures doy < 366 ==> mp < 12
  {
    (5 * doy + 2) / 153
  }

  /** The calendar month (1 is January) of month `mp` of a March-based year. */
  function CalendarMonth(mp: int): int {
    if mp < 10 then mp + 3 else mp - 9
  }

  /** The month of a March-based year (0 is March) of calendar month `m`. */
  function MarchMonth(m: int): int {
    if m > 2 then m - 3 else m + 9
  }

  /** Day `doy` of March-based year `yoe` of era `era` as a calendar date;
      January and February belong to the next calendar year. */
  function DateOfParts(era: int, yoe: int, doy: int): Ymd
    requires 0 <= doy
  {
    var mp := MonthOfYear(doy);
    Ymd(era * 400 + yoe + (if mp < 10 then 0 else 1), CalendarMonth(mp), doy - MonthStart(mp) + 1)
  }

  /** Month `mp` of a March-based year is as long as the calendar month it names. */
  lemma MonthLength(y: int, mp: int)
    requires 0 <= mp < 11
    ensures MonthStart(mp + 1) - MonthStart(mp) == DaysInMonth(y, CalendarMonth(mp))
  {
  }

  lemma DateOfPartsValid(era: int, yoe: int, doy: int)
    requires 0 <= yoe < 400 && 0 <= doy && YearStart(yoe) + doy < YearStart(yoe + 1)
    ensures doy < 366 && IsValid(DateOfParts(era, yoe, doy))
  {
    YearLength(era, yoe);
    var mp := MonthOfYear(doy);
    if mp < 11 {
      MonthLength(era * 400 + yoe, mp);
    }
  }

  /** Day `z` since 1970-01-01 as a calendar date. */
  function FromDays(z: int): Ymd
  {
    var a := z + 719468;
    var doe := a % 146097;
    var yoe := YearOfEra(doe);
    DateOfParts(a / 146097, yoe, doe - YearStart(yoe))
  }

  /** Every day number names a valid date. */
  lemma FromDaysValid(z: int)
    ensures IsValid(FromDays(z))
  {
    var a := z + 719468;
    var doe := a % 146097;
    var yoe := YearOfEra(doe);
    FromDaysOfParts(z, a / 146097, yoe, doe - YearStart(yoe));
    DateOfPartsValid(a / 146097, yoe, doe - YearStart(yoe));
  }

  /** The day number of a date; the day of month may lie outside the month,
      in which case it counts on from the month's first day as Go's
      time.Date does. */
  function ToDays(d: Ymd): int
    requires 1 <= d.month <= 12
  {
    var y := if d.month <= 2 then d.year - 1 else d.year;
    (y / 400) * 146097 + YearStart(y % 400) + MonthStart(MarchMonth(d.month)) + d.day - 1 - 719468
  }

  lemma EraSplit(era: int, yoe: int)
    requires 0 <= yoe < 400
    ensures (era * 400 + yoe) / 400 == era && (era * 400 + yoe) % 400 == yoe
  {
  }

  lemma ToDaysDateOfParts(era: int, yoe: int, doy: int)
    requires 0 <= yoe < 400 && 0 <= doy < 366
    ensures ToDays(DateOfParts(era, yoe, doy)) == era * 146097 + YearStart(yoe) + doy - 719468
  {
    var mp := MonthOfYear(doy);
    var d := DateOfParts(era, yoe, doy);
    assert MarchMonth(d.month) == mp;
    assert (if d.month <= 2 then d.year - 1 else d.year) == era * 400 + yoe;
    EraSplit(era, yoe);
  }

  /** Reading a day number as a date and back gives the same day. */
  lemma ToDaysFromDays(z: int)
    ensures ToDays(FromDays(z)) == z
  {
    var a := z + 719468;
    var era, doe := a / 146097, a % 146097;
    var yoe := YearOfEra(doe);
    var doy := doe - YearStart(yoe);
    YearLength(era, yoe);
    FromDaysOfParts(z, era, yoe, doy);
    ToDaysDateOfParts(era, yoe, doy);
  }

  /** Days `doe` of an era fall in exactly one March-based year. */
  lemma YearOfEraUnique(doe: int, yoe: int)
    requires 0 <= yoe < 400 && YearStart(yoe) <= doe < YearStart(yoe + 1)
    ensures 0 <= doe < 146097 && YearOfEra(doe) == yoe
  {
    YearStartMonotonic(0, yoe);
    YearStartMonotonic(yoe + 1, 400);
    var r := YearOfEra(doe);
    if r < yoe {
      YearStartMonotonic(r + 1, yoe);
    } else if r > yoe {
      YearStartMonotonic(yoe + 1, r);
    }
  }

  lemma MonthOfYearUnique(doy: int, mp: int)
    requires 0 <= mp < 12 && MonthStart(mp) <= doy < MonthStart(mp + 1) && doy < 366
    ensures MonthOfYear(doy) == mp
  {
  }

  lemma EraDaySplit(a: int, era: int, doe: int)
    requires 0 <= doe < 146097 && a == era * 146097 + doe
    ensures a / 146097 == era && a % 146097 == doe
  {
  }

  /** The date of a day number given by its era, year of era and day of year. */
  lemma FromDaysOfParts(z: int, era: int, yoe: int, doy: int)
    requires 0 <= yoe < 400 && 0 <= doy && YearStart(yoe) + doy < YearStart(yoe + 1)
    requires z + 719468 == era * 146097 + YearStart(yoe) + doy
    ensures FromDays(z) == DateOfParts(era, yoe, doy)
  {
    var doe := YearStart(yoe) + doy;
    assert YearOfEra(doe) == yoe by {
      YearOfEraUnique(doe, yoe);
    }
    assert (z + 719468) / 146097 == era && (z + 719468) % 146097 == doe by {
      YearStartMonotonic(yoe + 1, 400);
      EraDaySplit(z + 719468, era, doe);
    }
  }

  /** Where a valid date lies in its March-based year: `mp` is its month
      counted from March and `doy` its day counted from March 1. */
  lemma ValidDayOfYear(d: Ymd, y: int, mp: int, doy: int)
    requires IsValid(d)
    requires y == (if d.month <= 2 then d.year - 1 else d.year)
    requires mp == MarchMonth(d.month) && doy == MonthStart(mp) + d.day - 1
    ensures 0 <= doy < YearStart(y % 400 + 1) - YearStart(y % 400)
    ensures MonthStart(mp) <= doy < MonthStart(mp + 1)
  {
    assert MonthStart(mp) <= doy < MonthStart(mp + 1) by {
      if d.month != 2 {
        MonthLength(d.year, mp);
      }
    }
    assert doy < YearStart(y % 400 + 1) - YearStart(y % 400) by {
      YearLength(y / 400, y % 400);
      assert y == y / 400 * 400 + y % 400;
      if d.month == 2 {
        assert MonthStart(11) == 337;
      } else {
        MonthLength(d.year, mp);
        assert MonthStart(mp + 1) <= 337;
      }
    }
  }

  /** A valid date is the date of its own place in its era. */
  lemma DateOfPartsOfValid(d: Ymd, y: int, mp: int, doy: int)
    requires IsValid(d)
    requires y == (if d.month <= 2 then d.year - 1 else d.year)
    requires mp == MarchMonth(d.month) && doy == MonthStart(mp) + d.day - 1
    requires MonthStart(mp) <= doy < MonthStart(mp + 1)
    ensures DateOfParts(y / 400, y % 400, doy) == d
  {
    MonthOfYearUnique(doy, mp);
    assert y == y / 400 * 400 + y % 400;
  }

  /** Every valid date is the date of its day number. */
  lemma FromDaysToDays(d: Ymd)
    requires IsValid(d)
    ensures FromDays(ToDays(d)) == d
  {
    var y := if d.month <= 2 then d.year - 1 else d.year;
    var mp := MarchMonth(d.month);
    var doy := MonthStart(mp) + d.day - 1;
    ValidDayOfYear(d, y, mp, doy);
    DateOfPartsOfValid(d, y, mp, doy);
    FromDaysOfParts(ToDays(d), y / 400, y % 400, doy);
  }

  /** The day of month shifts a day number linearly, past the month's end too. */
  lemma ToDaysDayShift(y: int, m: int, d: int)
    requires 1 <= m <= 12
    ensures ToDays(Ymd(y, m, d)) == ToDays(Ymd(y, m, 1)) + d - 1
  {
  }

  /** The day number time.Date arrives at for a date whose month and day may
      be out of range: months outside 1..12 carry into the year, then the
      day counts on from the first of the month. */
  function Normalised(year: int, month: int, day: int): int
  {
    ToDays(Ymd(year + (month - 1) / 12, (month - 1) % 12 + 1, 1)) + day - 1
  }

  /** A valid date normalises to its own day number. */
  lemma NormalisedValid(d: Ymd)
    ensures IsValid(d) ==> FromDays(Normalised(d.year, d.month, d.day)) == d
  {
    if IsValid(d) {
      assert Normalised(d.year, d.month, d.day) == ToDays(d) by {
        assert (d.month - 1) / 12 == 0 && (d.month - 1) % 12 + 1 == d.month;
        ToDaysDayShift(d.year, d.month, d.day);
      }
      FromDaysToDays(d);
    }
  }

  /** Counting `inc` days on from a valid date lands `inc` days after it. */
  lemma NormalisedShift(c: Ymd, inc: int)
    requires IsValid(c)
    ensures Normalised(c.year, c.month, c.day + inc) == ToDays(c) + inc
  {
    assert (c.month - 1) / 12 == 0 && (c.month - 1) % 12 + 1 == c.month;
    ToDaysDayShift(c.year, c.month, c.day + inc);
    ToDaysDayShift(c.year, c.month, c.day);
  }

  /** Counting `inc` days on from the date of day `z` lands on day `z + inc`. */
  lemma NormalisedOwnDate(z: int, inc: int)
    ensures Normalised(FromDays(z).year, FromDays(z).month, FromDays(z).day + inc) == z + inc
  {
    FromDaysValid(z);
    NormalisedShift(FromDays(z), inc);
    ToDaysFromDays(z);
  }
}
