/** The part of Go's time package the program relies on, for zones with a
    fixed offset: an instant in nanoseconds since the Unix epoch shown in a
    zone, its wall-clock date and weekday, time.Date's normalisation and
    Time.AddDate. */
module GoTime {
  import opened DateText
  import opened Civil

  // A day in nanoseconds. Where it multiplies or divides, the contracts
  // below write it as the literal 86_400_000_000_000
  // so that the arithmetic stays linear for the verifier.
  const Day := 86_400_000_000_000

  /** A time.Time: the instant, in nanoseconds since 1970-01-01T00:00:00Z, and
      the offset east of UTC, in nanoseconds, of the zone it is shown in. */
  datatype Time = Time(instant: int, offset: int)

  /** The instant read as a UTC wall clock in the time's own zone. */
  function Wall(t: Time): int {
    t.instant + t.offset
  }

  /** Days since 1970-01-01 of the time's local date. */
  function DayNumber(t: Time): int {
    Wall(t) / 86_400_000_000_000
  }

  /** Nanoseconds since local midnight; hour, minute, second and nanosecond together. */
  function Clock(t: Time): (c: int)
    ensures 0 <= c < Day
  {
    Wall(t) % 86_400_000_000_000
  }

  /** Time.Date: the local year, month and day. */
  function DateOf(t: Time): (d: Ymd)
    ensures IsValid(d) && ToDays(d) == DayNumber(t)
  {
    FromDaysValid(DayNumber(t));
    ToDaysFromDays(DayNumber(t));
    FromDays(DayNumber(t))
  }

  /** The weekday of a day number, Sunday being 0; 1970-01-01 was a Thursday. */
  function WeekdayOfDay(z: int): (w: int)
    ensures 0 <= w < 7
  {
    (z + 4) % 7
  }

  /** Stepping back from day `d` by its weekday lands on a Sunday. */
  lemma SundayOnOrBefore(d: int, z: int)
    requires z == d - WeekdayOfDay(d)
    ensures WeekdayOfDay(z) == 0
  {
    assert z + 4 == (d + 4) / 7 * 7;
  }

  /** Time.Weekday: the weekday of the local date. */
  function Weekday(t: Time): (w: int)
    ensures 0 <= w < 7
  {
    WeekdayOfDay(DayNumber(t))
  }

  /** A day later the weekday is the next one, Saturday wrapping to Sunday. */
  lemma WeekdayNextDay(t: Time)
    ensures Weekday(Add(t, 86_400_000_000_000)) == (Weekday(t) + 1) % 7
  {
    ShiftDays(t, Add(t, 86_400_000_000_000), 1);
  }

  /** 1970-01-01, day 0, was a Thursday. */
  lemma EpochWeekday()
    ensures WeekdayOfDay(ToDays(Ymd(1970, 1, 1))) == 4
  {
    assert ToDays(Ymd(1970, 1, 1)) == 0;
  }

  /** 2024-01-07 was a Sunday. */
  lemma KnownSunday()
    ensures WeekdayOfDay(ToDays(Ymd(2024, 1, 7))) == 0
  {
    assert ToDays(Ymd(2024, 1, 7)) == 19729;
  }

  /** A duration later, in the same zone. */
  function Add(t: Time, d: int): Time {
    Time(t.instant + d, t.offset)
  }

  /** Time.UTC and Time.In: the same instant shown in another zone. */
  function In(t: Time, offset: int): (r: Time)
    ensures r.instant == t.instant && r.offset == offset
  {
    Time(t.instant, offset)
  }

  /** A wall clock of whole days plus a clock within the day reads back as both. */
  lemma SplitDay(days: int, clock: int)
    ensures 0 <= clock < Day ==>
              (days * 86_400_000_000_000 + clock) / 86_400_000_000_000 == days &&
              (days * 86_400_000_000_000 + clock) % 86_400_000_000_000 == clock
  {
  }

  /** A wall clock lies strictly inside day `d` exactly when it falls on
      that day and is not its midnight. */
  lemma StrictlyWithinDay(w: int, d: int)
    ensures d * 86_400_000_000_000 < w < (d + 1) * 86_400_000_000_000
            <==> w / 86_400_000_000_000 == d && w % 86_400_000_000_000 != 0
  {
  }

  /** A wall clock is its local day's midnight plus its clock. */
  lemma WallSplit(t: Time)
    ensures Wall(t) == DayNumber(t) * 86_400_000_000_000 + Clock(t)
  {
  }

  /** Moving an instant by whole days moves its local day by as many and
      keeps its clock. */
  lemma ShiftDays(t: Time, r: Time, days: int)
    requires r.offset == t.offset && r.instant == t.instant + days * 86_400_000_000_000
    ensures DayNumber(r) == DayNumber(t) + days && Clock(r) == Clock(t)
  {
    assert Wall(r) == Wall(t) + days * 86_400_000_000_000;
  }

  /** time.Date(year, month, day, clock, zone): the instant whose wall clock
      in the fixed zone is the normalised date at the given clock. */
  function DateTime(year: int, month: int, day: int, clock: int, offset: int): (t: Time)
    ensures t.offset == offset
    ensures Wall(t) == Normalised(year, month, day) * 86_400_000_000_000 + clock
    ensures 0 <= clock < Day ==> DayNumber(t) == Normalised(year, month, day) && Clock(t) == clock
    ensures IsValid(Ymd(year, month, day)) && 0 <= clock < Day ==> DateOf(t) == Ymd(year, month, day)
  {
    var z := Normalised(year, month, day);
    SplitDay(z, clock);
    NormalisedValid(Ymd(year, month, day));
    Time(z * 86_400_000_000_000 + clock - offset, offset)
  }

  /** time.Date(year, month, day + inc, 0, 0, 0, 0, loc) for the year, month
      and day of `s` in its own zone: local midnight `inc` days after the
      start of the day `s` shows. */
  function MidnightAfter(s: Time, inc: int): (r: Time)
    ensures r.offset == s.offset
    ensures Wall(r) == (DayNumber(s) + inc) * 86_400_000_000_000
    ensures DayNumber(r) == DayNumber(s) + inc && IsLocalMidnight(r)
  {
    NormalisedOwnDate(DayNumber(s), inc);
    DateTime(DateOf(s).year, DateOf(s).month, DateOf(s).day + inc, 0, s.offset)
  }

  /** The time AddDate arrives at, before anything is said about it. */
  function AddDateRaw(t: Time, years: int, months: int, days: int): Time
  {
    DateTime(DateOf(t).year + years, DateOf(t).month + months, DateOf(t).day + days,
             Clock(t), t.offset)
  }

  /** Adding whole days alone moves the instant by that many days. */
  lemma AddDaysOnly(t: Time, days: int)
    ensures AddDateRaw(t, 0, 0, days).instant == t.instant + days * 86_400_000_000_000
  {
    NormalisedOwnDate(DayNumber(t), days);
    WallSplit(t);
  }

  /** Time.AddDate: calendar arithmetic on the local date, keeping the clock. */
  function AddDate(t: Time, years: int, months: int, days: int): (r: Time)
    ensures r.offset == t.offset
    ensures Clock(r) == Clock(t)
    ensures years == 0 && months == 0 ==> r.instant == t.instant + days * 86_400_000_000_000
    ensures DayNumber(r) == Normalised(DateOf(t).year + years, DateOf(t).month + months, DateOf(t).day + days)
  {
    AddDaysOnly(t, days);
    AddDateRaw(t, years, months, days)
  }

  /** A time is a local midnight exactly when its clock reads zero. */
  predicate IsLocalMidnight(t: Time) {
    Clock(t) == 0
  }

  /** time.Date of the date of t.AddDate(0, 0, -int(t.Weekday())) at
      midnight: the start of the Sunday that begins the week of `t`. */
  function WeekStart(t: Time): (s: Time)
    ensures s.offset == t.offset && IsLocalMidnight(s)
    ensures Weekday(s) == 0 && 0 <= DayNumber(t) - DayNumber(s) <= 6
  {
    StepBackToSunday(t, AddDate(t, 0, 0, -Weekday(t)));
    MidnightAfter(AddDate(t, 0, 0, -Weekday(t)), 0)
  }

  /** AddDate(0, 0, -weekday) lands on the Sunday of the week, in the same zone. */
  lemma StepBackToSunday(t: Time, back: Time)
    requires back == AddDate(t, 0, 0, -Weekday(t))
    ensures back.offset == t.offset
    ensures DayNumber(back) == DayNumber(t) - Weekday(t) && WeekdayOfDay(DayNumber(back)) == 0
  {
    assert back.instant == t.instant + -Weekday(t) * 86_400_000_000_000;
    ShiftDays(t, back, -Weekday(t));
    SundayOnOrBefore(DayNumber(t), DayNumber(t) - Weekday(t));
  }
}
