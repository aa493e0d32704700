/** KSATime: a time.Time kept in UTC but shifted forward by Saudi Arabia's
    fixed offset of three hours, so that its wall clock reads Saudi local
    time. Its date texts and the UTC instants at which the Saudi day starts
    and ends. */
module KsaTime {
  import opened Basics
  import opened DateText
  import opened Civil
  import opened GoTime

  /** The offset of Asia/Riyadh, three hours, in nanoseconds. */
  const KsaOffset := 10_800_000_000_000

  datatype KSATime = KSATime(t: Time)

  /** Days since 1970-01-01 of the Saudi date of an instant. */
  function KsaDayNumber(x: Time): int {
    (x.instant + 10_800_000_000_000) / 86_400_000_000_000
  }

  /** KSATimeOf: the instant moved three hours on and shown in UTC, so that
      its UTC wall clock is the Saudi wall clock of `x`. */
  function KSATimeOf(x: Time): (k: KSATime)
    ensures k.t.offset == 0
    ensures Wall(k.t) == Wall(In(x, KsaOffset))
    ensures DayNumber(k.t) == KsaDayNumber(x)
  {
    KSATime(Add(In(x, 0), KsaOffset))
  }

  /** CurrentKSATime, with the clock's reading `now` passed in: the same
      shift KSATimeOf applies, to the current instant. */
  function CurrentKSATime(now: Time): (k: KSATime)
    ensures k.t.offset == 0
    ensures Wall(k.t) == Wall(In(now, KsaOffset))
    ensures DayNumber(k.t) == KsaDayNumber(now)
  {
    KSATimeOf(now)
  }

  /** The day number a "YYYY-MM-DD" text names, once it is known to parse. */
  predicate IsDateText(s: string) {
    ParseYmd(s).Some? && IsValid(ParseYmd(s).value)
  }

  function TextDay(s: string): int
    requires IsDateText(s)
  {
    ToDays(ParseYmd(s).value)
  }

  /** The text of a time's own local date names that date's day number. */
  lemma DateTextOf(t: Time)
    ensures IsDateText(FormatYmd(DateOf(t)))
    ensures TextDay(FormatYmd(DateOf(t))) == DayNumber(t)
    ensures 0 <= DateOf(t).year < 10000 ==> |FormatYmd(DateOf(t))| == 10
  {
    ParseFormatYmd(DateOf(t));
    ToDaysFromDays(DayNumber(t));
    FourDigitYearLength(DateOf(t));
  }

  /** Date: the "2006-01-02" text of the Saudi date. */
  function Date(k: KSATime): (r: string)
    ensures IsDateText(r) && TextDay(r) == DayNumber(k.t)
    ensures 0 <= DateOf(k.t).year < 10000 ==> |r| == 10
  {
    DateTextOf(k.t);
    FormatYmd(DateOf(k.t))
  }

  /** WeekDate: the date of the Sunday that starts the Saudi week. */
  function WeekDate(k: KSATime): (r: string)
    ensures IsDateText(r)
    ensures WeekdayOfDay(TextDay(r)) == 0
    ensures 0 <= DayNumber(k.t) - TextDay(r) <= 6
    ensures 0 <= DateOf(WeekStart(k.t)).year < 10000 ==> |r| == 10
  {
    DateTextOf(WeekStart(k.t));
    FormatYmd(DateOf(WeekStart(k.t)))
  }

  /** MonthDate: the first day of the Saudi month. */
  function MonthDate(k: KSATime): (r: string)
    ensures ParseYmd(r) == Some(Ymd(DateOf(k.t).year, DateOf(k.t).month, 1))
    ensures IsDateText(r) && TextDay(r) == DayNumber(k.t) - (DateOf(k.t).day - 1)
    ensures 0 <= DateOf(k.t).year < 10000 ==> |r| == 10
  {
    var now := k.t;
    var c := DateOf(now);
    var first := DateTime(c.year, c.month, 1, 0, now.offset);
    ParseFormatYmd(Ymd(c.year, c.month, 1));
    ToDaysDayShift(c.year, c.month, c.day);
    ToDaysFromDays(DayNumber(now));
    FourDigitYearLength(Ymd(c.year, c.month, 1));
    FormatYmd(DateOf(first))
  }

  /** ksaDay: local midnight `inc` days after the start of the day `k`
      shows, in the zone `k` is shown in. */
  function KsaDay(k: KSATime, inc: int): (r: Time)
    ensures r.offset == k.t.offset && IsLocalMidnight(r)
    ensures DayNumber(r) == DayNumber(k.t) + inc
  {
    MidnightAfter(k.t, inc)
  }

  function CurrentDayStart(k: KSATime): (r: Time)
    ensures r.offset == k.t.offset
    ensures IsLocalMidnight(r) && DayNumber(r) == DayNumber(k.t)
  {
    KsaDay(k, 0)
  }

  function NextDayStart(k: KSATime): (r: Time)
    ensures r.offset == k.t.offset
    ensures IsLocalMidnight(r) && DayNumber(r) == DayNumber(k.t) + 1
  {
    KsaDay(k, 1)
  }

  /** ksaDayInUTC: the UTC midnight `inc` days after the start of the UTC
      date of `k`, moved three hours back. */
  function KsaDayInUTC(k: KSATime, inc: int): (r: Time)
    ensures r.offset == 0
    ensures r.instant + KsaOffset == (DayNumber(In(k.t, 0)) + inc) * 86_400_000_000_000
  {
    Add(MidnightAfter(In(k.t, 0), inc), -KsaOffset)
  }

  function CurrentDayStartInUTC(k: KSATime): Time {
    KsaDayInUTC(k, 0)
  }

  function NextDayStartInUTC(k: KSATime): Time {
    KsaDayInUTC(k, 1)
  }

  /** The two boundaries are one day apart, and each is a Saudi midnight. */
  lemma DayBoundsInUTC(k: KSATime)
    ensures NextDayStartInUTC(k).instant - CurrentDayStartInUTC(k).instant == Day
    ensures (CurrentDayStartInUTC(k).instant + KsaOffset) % 86_400_000_000_000 == 0
    ensures (NextDayStartInUTC(k).instant + KsaOffset) % 86_400_000_000_000 == 0
  {
  }

  /** The Saudi day of `KSATimeOf(x)` starts at or before `x` and ends after it. */
  lemma KSATimeOfWithinDay(x: Time)
    ensures CurrentDayStartInUTC(KSATimeOf(x)).instant <= x.instant
    ensures x.instant < NextDayStartInUTC(KSATimeOf(x)).instant
  {
    var k := KSATimeOf(x);
    assert DayNumber(In(k.t, 0)) == KsaDayNumber(x);
  }

  /** For a KSATime held in UTC, as every constructor leaves it, the local
      midnights are the UTC-computed boundaries moved three hours on. */
  lemma KsaDayIsInUTCShifted(k: KSATime, inc: int)
    requires k.t.offset == 0
    ensures KsaDay(k, inc).instant == KsaDayInUTC(k, inc).instant + KsaOffset
  {
  }

  /** DayContains: whether `x` lies strictly between the start of the Saudi
      day and the start of the next. */
  predicate DayContains(k: KSATime, x: Time) {
    CurrentDayStartInUTC(k).instant < x.instant && x.instant < NextDayStartInUTC(k).instant
  }

  /** Neither boundary is contained: both comparisons are strict. */
  lemma DayContainsExcludesBounds(k: KSATime)
    ensures !DayContains(k, CurrentDayStartInUTC(k))
    ensures !DayContains(k, NextDayStartInUTC(k))
  {
  }

  /** The Saudi day of `KSATimeOf(y)` contains `x` exactly when `x` falls on
      the same Saudi date as `y` and is not that date's midnight. */
  lemma DayContainsSameDay(y: Time, x: Time)
    ensures DayContains(KSATimeOf(y), x)
            <==> KsaDayNumber(x) == KsaDayNumber(y)
                 && (x.instant + KsaOffset) % 86_400_000_000_000 != 0
  {
    var k := KSATimeOf(y);
    assert DayNumber(In(k.t, 0)) == KsaDayNumber(y);
    StrictlyWithinDay(x.instant + KsaOffset, KsaDayNumber(y));
  }

  /** A time's own Saudi day contains it unless it is exactly a Saudi midnight. */
  lemma DayContainsOwnTime(x: Time)
    ensures DayContains(KSATimeOf(x), x) <==> (x.instant + KsaOffset) % 86_400_000_000_000 != 0
  {
    DayContainsSameDay(x, x);
  }
}
