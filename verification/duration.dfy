/** DurationToMSU: a duration rendered in Arabic as its most significant
    whole unit (days, else hours, else minutes). The counted noun follows a
    fixed four-class table: a lone word for one and for two, numeral and
    plural for three to ten, and numeral and accusative singular for any
    other count. As written, two hours take the plural rather than a dual.
    The numeral itself comes from a locale printer and is a parameter here. */
module DurationText {
  import opened Basics

  /** Go's time.Duration: nanoseconds in an int64. */
  type Duration = x: int | -0x8000_0000_0000_0000 <= x < 0x8000_0000_0000_0000

  /** Go's integer `/` for a positive divisor: the quotient truncated toward zero. */
  function TruncDiv(a: int, b: int): (q: int)
    requires b > 0
    ensures a >= 0 ==> 0 <= q && q * b <= a < (q + 1) * b
    ensures a <= 0 ==> q <= 0 && (q - 1) * b < a <= q * b
  {
    if a >= 0 then a / b else -((-a) / b)
  }

  /** Go's integer `%`: the remainder of the truncated quotient, carrying the
      sign of the dividend. */
  function TruncMod(a: int, b: int): (r: int)
    requires b > 0
    ensures a >= 0 ==> 0 <= r < b
    ensures a <= 0 ==> -b < r <= 0
    ensures TruncDiv(a, b) * b + r == a
  {
    a - TruncDiv(a, b) * b
  }

  /** int(d.Minutes()): the whole minutes of a duration, truncated toward zero. */
  function WholeMinutes(d: Duration): (m: int)
    ensures d >= 0 ==> 0 <= m * 60_000_000_000 <= d < (m + 1) * 60_000_000_000
    ensures d <= 0 ==> (m - 1) * 60_000_000_000 < d <= m * 60_000_000_000 <= 0
  {
    TruncDiv(d, 60_000_000_000)
  }

  /** TimeUnit: Go's enumeration of DAY, HOUR and MINUTE as the integers 0, 1, 2. */
  const DAY := 0
  const HOUR := 1
  const MINUTE := 2

  predicate IsUnit(unit: int) {
    unit == DAY || unit == HOUR || unit == MINUTE
  }

  /** fmtDurationInAR: a count of a unit in Arabic. Any other unit gives "". */
  function FmtDurationInAR(value: int, unit: int, numeral: int -> string): string {
    if value == 1 then
      (if unit == DAY then "يوم"
       else if unit == HOUR then "ساعة"
       else if unit == MINUTE then "دقيقة"
       else "")
    else if value == 2 then
      (if unit == DAY then "يومان"
       else if unit == HOUR then "ساعات"
       else if unit == MINUTE then "دقيقتان"
       else "")
    else if 3 <= value <= 10 then
      (if unit == DAY then numeral(value) + " " + "أيام"
       else if unit == HOUR then numeral(value) + " " + "ساعات"
       else if unit == MINUTE then numeral(value) + " " + "دقائق"
       else "")
    else
      (if unit == DAY then numeral(value) + " " + "يوما"
       else if unit == HOUR then numeral(value) + " " + "ساعة"
       else if unit == MINUTE then numeral(value) + " " + "دقيقة"
       else "")
  }

  /** The four number-agreement classes of a counted Arabic noun. */
  datatype Agreement = One | Two | Few | Many

  function AgreementOf(value: int): Agreement {
    if value == 1 then One
    else if value == 2 then Two
    else if 3 <= value <= 10 then Few
    else Many
  }

  /** The table of words, one row per unit and one column per class. */
  function Word(unit: int, a: Agreement): (w: string)
    requires IsUnit(unit)
    ensures w != ""
  {
    if unit == DAY then
      match a
      case One => "يوم"
      case Two => "يومان"
      case Few => "أيام"
      case Many => "يوما"
    else if unit == HOUR then
      match a
      case One => "ساعة"
      case Two => "ساعات"
      case Few => "ساعات"
      case Many => "ساعة"
    else
      match a
      case One => "دقيقة"
      case Two => "دقيقتان"
      case Few => "دقائق"
      case Many => "دقيقة"
  }

  /** fmtDurationInAR follows the table: one and two are a lone word, every
      other count is its numeral, a space and the word of its class; an
      unknown unit gives "", so the final `return ""` is reached only then. */
  lemma FmtFollowsTable(value: int, unit: int, numeral: int -> string)
    ensures IsUnit(unit) && (value == 1 || value == 2)
            ==> FmtDurationInAR(value, unit, numeral) == Word(unit, AgreementOf(value))
    ensures IsUnit(unit) && value != 1 && value != 2
            ==> FmtDurationInAR(value, unit, numeral)
                == numeral(value) + " " + Word(unit, AgreementOf(value))
    ensures FmtDurationInAR(value, unit, numeral) == "" <==> !IsUnit(unit)
  {
  }

  /** For one and for two the text does not depend on how numerals are printed. */
  lemma FmtOneTwoWithoutNumeral(value: int, unit: int, n1: int -> string, n2: int -> string)
    requires value == 1 || value == 2
    ensures FmtDurationInAR(value, unit, n1) == FmtDurationInAR(value, unit, n2)
  {
  }

  /** As written, two hours reads "ساعات", the plural used for three to ten,
      and not a dual form. */
  lemma TwoHoursWord(numeral: int -> string)
    ensures FmtDurationInAR(2, HOUR, numeral) == Word(HOUR, Few)
  {
  }

  /** The days, hours and remaining minutes DurationToMSU splits a minute
      count into, with Go's truncating division. */
  datatype Parts = Parts(days: int, hours: int, minutes: int)

  function Split(minutes: int): Parts {
    Parts(TruncDiv(minutes, 1440), TruncDiv(TruncMod(minutes, 1440), 60), TruncMod(minutes, 60))
  }

  /** The parts add back up to the minute count, hours stay below a day and
      minutes below an hour, and every part has the sign of the count. */
  lemma SplitRecombines(minutes: int)
    ensures Split(minutes).days * 1440 + Split(minutes).hours * 60 + Split(minutes).minutes == minutes
    ensures minutes >= 0 ==> Split(minutes).days >= 0 && 0 <= Split(minutes).hours < 24
                             && 0 <= Split(minutes).minutes < 60
    ensures minutes <= 0 ==> Split(minutes).days <= 0 && -24 < Split(minutes).hours <= 0
                             && -60 < Split(minutes).minutes <= 0
  {
    var p := Split(minutes);
    var m := TruncMod(minutes, 1440);
    assert TruncMod(m, 60) == p.minutes by {
      assert minutes == TruncDiv(minutes, 1440) * 1440 + m;
      if minutes >= 0 {
        assert m == p.hours * 60 + TruncMod(m, 60);
        assert minutes == (TruncDiv(minutes, 1440) * 24 + p.hours) * 60 + TruncMod(m, 60);
        RemainderOf(minutes, TruncDiv(minutes, 1440) * 24 + p.hours, 60, TruncMod(m, 60));
        RemainderOf(minutes, TruncDiv(minutes, 60), 60, p.minutes);
      } else {
        var n := -minutes;
        assert -m == -p.hours * 60 + -TruncMod(m, 60);
        assert n == (-TruncDiv(minutes, 1440) * 24 + -p.hours) * 60 + -TruncMod(m, 60);
        RemainderOf(n, -TruncDiv(minutes, 1440) * 24 + -p.hours, 60, -TruncMod(m, 60));
        RemainderOf(n, -TruncDiv(minutes, 60), 60, -p.minutes);
      }
    }
  }

  /** The largest whole unit of a minute count, read directly: whole days
      when there is at least one, else whole hours, else the minutes; none
      for a count that is not positive. */
  function MostSignificantUnit(minutes: int): Option<(int, int)> {
    if minutes >= 1440 then Some((minutes / 1440, DAY))
    else if minutes >= 60 then Some((minutes / 60, HOUR))
    else if minutes >= 1 then Some((minutes, MINUTE))
    else None
  }

  /** DurationToMSU, with the locale's numeral printer as a parameter. */
  function DurationToMSU(d: Duration, numeral: int -> string): string {
    var p := Split(WholeMinutes(d));
    if p.days > 0 then FmtDurationInAR(p.days, DAY, numeral)
    else if p.hours > 0 then FmtDurationInAR(p.hours, HOUR, numeral)
    else if p.minutes > 0 then FmtDurationInAR(p.minutes, MINUTE, numeral)
    else ""
  }

  /** DurationToMSU renders exactly the most significant unit of the whole
      minutes, and nothing when there is none. */
  lemma DurationToMSUKeepsLargestUnit(d: Duration, numeral: int -> string)
    ensures MostSignificantUnit(WholeMinutes(d)).None? ==> DurationToMSU(d, numeral) == ""
    ensures MostSignificantUnit(WholeMinutes(d)).Some?
            ==> DurationToMSU(d, numeral)
                == FmtDurationInAR(MostSignificantUnit(WholeMinutes(d)).value.0,
                                   MostSignificantUnit(WholeMinutes(d)).value.1, numeral)
  {
    var m := WholeMinutes(d);
    SplitRecombines(m);
    if m >= 1440 {
      assert Split(m).days == m / 1440;
    } else if m >= 60 {
      assert Split(m).days == 0;
      assert Split(m).hours == m / 60 by {
        assert TruncMod(m, 1440) == m;
      }
    } else if m >= 1 {
      assert Split(m).days == 0 && Split(m).hours == 0;
    }
  }

  /** The text is empty exactly when the whole-minute count is not
      positive, negative durations included. */
  lemma DurationToMSUEmpty(d: Duration, numeral: int -> string)
    ensures DurationToMSU(d, numeral) == "" <==> WholeMinutes(d) <= 0
  {
    DurationToMSUKeepsLargestUnit(d, numeral);
    var m := MostSignificantUnit(WholeMinutes(d));
    if m.Some? {
      FmtFollowsTable(m.value.0, m.value.1, numeral);
    }
  }

  /** The text for a duration of exactly `m` whole minutes. */
  lemma DurationOfMinutes(d: Duration, m: int, numeral: int -> string)
    requires d == m * 60_000_000_000
    ensures WholeMinutes(d) == m
    ensures DurationToMSU(d, numeral)
            == if MostSignificantUnit(m).None? then ""
               else FmtDurationInAR(MostSignificantUnit(m).value.0, MostSignificantUnit(m).value.1, numeral)
  {
    DurationToMSUKeepsLargestUnit(d, numeral);
  }

  /** A worked case: one minute is the lone word for a minute. */
  lemma DurationToMSUOneMinute(numeral: int -> string)
    ensures DurationToMSU(60_000_000_000, numeral) == "دقيقة"
  {
    DurationOfMinutes(60_000_000_000, 1, numeral);
  }

  /** Worked cases in hours: two hours, and ninety minutes, where the whole
      hour wins over the remaining half hour. */
  lemma DurationToMSUHourExamples(numeral: int -> string)
    ensures DurationToMSU(7_200_000_000_000, numeral) == "ساعات"
    ensures DurationToMSU(5_400_000_000_000, numeral) == "ساعة"
  {
    DurationOfMinutes(7_200_000_000_000, 120, numeral);
    DurationOfMinutes(5_400_000_000_000, 90, numeral);
  }

  /** Worked cases with a numeral: five days and forty-five minutes. */
  lemma DurationToMSUNumeralExamples(numeral: int -> string)
    ensures DurationToMSU(432_000_000_000_000, numeral) == numeral(5) + " " + "أيام"
    ensures DurationToMSU(2_700_000_000_000, numeral) == numeral(45) + " " + "دقيقة"
  {
    DurationOfMinutes(432_000_000_000_000, 7200, numeral);
    assert MostSignificantUnit(7200) == Some((5, DAY));
    DurationOfMinutes(2_700_000_000_000, 45, numeral);
  }
}
