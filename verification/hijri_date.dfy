/** HjriDate: a Hijri (Umm al-Qura) date label together with the Gregorian
    time it was read from, and the navigation the program builds on it.
    The Umm al-Qura conversion itself belongs to an outside library; here it
    is a pair of functions handed in as a `Converter`, and nothing is
    assumed about them. What is proved is what the program itself decides:
    which time each operation hands the converter, which fields it keeps or
    changes, and its own arithmetic. */
module HijriDate {
  import opened Basics
  import opened DateText
  import opened Civil
  import opened GoTime
  import KsaTime

  /** Go's `uint` on a 64-bit platform. */
  type Uint = x: int | 0 <= x < 0x1_0000_0000_0000_0000

  /** Go's conversion of an integer to `uint`: the value modulo 2^64. */
  function ToUint(v: int): (u: Uint)
    ensures 0 <= v < 0x1_0000_0000_0000_0000 ==> u == v
  {
    v % 0x1_0000_0000_0000_0000
  }

  /** Go's conversion of a `uint` to `int64`: the same 64 bits read as
      two's complement. */
  function Int64Of(u: Uint): (v: int)
    ensures -0x8000_0000_0000_0000 <= v < 0x8000_0000_0000_0000
  {
    if u < 0x8000_0000_0000_0000 then u else u - 0x1_0000_0000_0000_0000
  }

  /** Converting a `uint` to `int64` and back gives the same `uint`. */
  lemma UintRoundTrip(u: Uint)
    ensures ToUint(Int64Of(u)) == u
  {
    if u >= 0x8000_0000_0000_0000 {
      RemainderOf(Int64Of(u), -1, 0x1_0000_0000_0000_0000, u);
    }
  }

  /** hijri.UmmAlQuraDate: the library's date record with int64 fields. */
  datatype UmmAlQuraDate = UmmAlQuraDate(year: int, month: int, day: int, weekday: int)

  /** The outside Umm al-Qura library: CreateUmmAlQuraDate and
      UmmAlQuraDate.ToGregorian. Their errors are dropped by the program. */
  datatype Converter = Converter(toHijri: Time -> UmmAlQuraDate, toGregorian: UmmAlQuraDate -> Time)

  datatype HjriDate = HjriDate(year: Uint, month: Uint, day: Uint, weekday: int, t: Time)

  /** The Hijri label of `h` is the one the converter produced in `v`, each
      field converted to `uint`. */
  predicate LabelsFrom(h: HjriDate, v: UmmAlQuraDate) {
    h.year == ToUint(v.year) && h.month == ToUint(v.month) && h.day == ToUint(v.day)
    && h.weekday == v.weekday
  }

  /** The record every constructor builds from a converter result. */
  function Labelled(v: UmmAlQuraDate, t: Time): (h: HjriDate)
    ensures LabelsFrom(h, v) && h.t == t
  {
    HjriDate(ToUint(v.year), ToUint(v.month), ToUint(v.day), v.weekday, t)
  }

  /** HijriOf: the converter reads the Saudi-shifted UTC time that
      KSATimeOf builds, while the stored time is the same instant shown in
      Asia/Riyadh. */
  function HijriOf(x: Time, conv: Converter): (h: HjriDate)
    ensures LabelsFrom(h, conv.toHijri(KsaTime.KSATimeOf(x).t))
    ensures h.t.instant == x.instant && h.t.offset == KsaTime.KsaOffset
  {
    var v := conv.toHijri(Add(In(x, 0), KsaTime.KsaOffset));
    Labelled(v, In(In(x, 0), KsaTime.KsaOffset))
  }

  /** NowHijri, with the clock's reading `now` passed in. */
  function NowHijri(now: Time, conv: Converter): HjriDate {
    var t := In(now, 0);
    var v := conv.toHijri(Add(t, KsaTime.KsaOffset));
    Labelled(v, In(t, KsaTime.KsaOffset))
  }

  /** NowHijri builds exactly what HijriOf builds for the same instant. */
  lemma NowHijriIsHijriOf(now: Time, conv: Converter)
    ensures NowHijri(now, conv) == HijriOf(now, conv)
  {
  }

  function Gregorian(h: HjriDate): Time {
    h.t
  }

  /** The Gregorian time of HijriOf(x) is the instant `x` itself, shown in Riyadh. */
  lemma GregorianOfHijriOf(x: Time, conv: Converter)
    ensures Gregorian(HijriOf(x, conv)).instant == x.instant
    ensures Wall(Gregorian(HijriOf(x, conv))) == Wall(KsaTime.KSATimeOf(x).t)
  {
  }

  /** AddDate: calendar arithmetic on the stored time, whose result the
      converter reads as it is, without the three-hour shift HijriOf applies. */
  function AddDate(h: HjriDate, years: int, months: int, days: int, conv: Converter): (r: HjriDate)
    ensures LabelsFrom(r, conv.toHijri(r.t))
    ensures r.t.offset == h.t.offset && Clock(r.t) == Clock(h.t)
    ensures years == 0 && months == 0 ==> r.t.instant == h.t.instant + days * 86_400_000_000_000
    ensures DayNumber(r.t)
            == Normalised(DateOf(h.t).year + years, DateOf(h.t).month + months, DateOf(h.t).day + days)
  {
    var tm := GoTime.AddDate(h.t, years, months, days);
    Labelled(conv.toHijri(tm), tm)
  }

  /** For a date made by HijriOf, the time AddDate(0, 0, 0) hands the
      converter shows the same wall clock as the one HijriOf handed it, but
      is an instant three hours earlier. */
  lemma ConverterInputs(x: Time, conv: Converter)
    ensures Wall(AddDate(HijriOf(x, conv), 0, 0, 0, conv).t) == Wall(KsaTime.KSATimeOf(x).t)
    ensures AddDate(HijriOf(x, conv), 0, 0, 0, conv).t.instant + KsaTime.KsaOffset
            == KsaTime.KSATimeOf(x).t.instant
  {
  }

  /** The converter reads only the wall clock of the time it is handed. */
  ghost predicate ReadsWallClock(conv: Converter) {
    forall a: Time, b: Time :: Wall(a) == Wall(b) ==> conv.toHijri(a) == conv.toHijri(b)
  }

  /** With a converter that reads only the wall clock, adding nothing to a
      date made by HijriOf gives that date back. */
  lemma AddNothing(x: Time, conv: Converter)
    requires ReadsWallClock(conv)
    ensures AddDate(HijriOf(x, conv), 0, 0, 0, conv) == HijriOf(x, conv)
  {
    var h := HijriOf(x, conv);
    var r := AddDate(h, 0, 0, 0, conv);
    assert r.t == h.t;
    assert Wall(h.t) == Wall(KsaTime.KSATimeOf(x).t);
  }

  /** String: "%04d-%02d-%02d" of the year, month and day. */
  function String(h: HjriDate): string {
    FormatYmd(Ymd(h.year, h.month, h.day))
  }

  /** The text reads back as the date's year, month and day, and it is ten
      characters long for a four-digit year. */
  lemma StringRoundTrip(h: HjriDate)
    ensures h.month < 100 && h.day < 100 ==> ParseYmd(String(h)) == Some(Ymd(h.year, h.month, h.day))
    ensures h.year < 10000 && h.month < 100 && h.day < 100 ==> |String(h)| == 10
  {
    if h.month < 100 && h.day < 100 {
      ParseFormatYmd(Ymd(h.year, h.month, h.day));
      if h.year < 10000 {
        FormatYmdLength(Ymd(h.year, h.month, h.day));
      }
    }
  }

  /** WeekStartingDay: the converter reads the time moved back to the
      Sunday of its week with its clock kept; the stored time is that
      Sunday's local midnight. */
  function WeekStartingDay(h: HjriDate, conv: Converter): (r: HjriDate)
    ensures LabelsFrom(r, conv.toHijri(Time(h.t.instant - Weekday(h.t) * 86_400_000_000_000, h.t.offset)))
    ensures r.t.offset == h.t.offset && IsLocalMidnight(r.t) && Weekday(r.t) == 0
    ensures 0 <= DayNumber(h.t) - DayNumber(r.t) <= 6
  {
    var weekStartG := GoTime.AddDate(h.t, 0, 0, -Weekday(h.t));
    assert weekStartG == Time(h.t.instant - Weekday(h.t) * 86_400_000_000_000, h.t.offset);
    Labelled(conv.toHijri(weekStartG), WeekStart(h.t))
  }

  /** The Gregorian time of the first of a Hijri month as the program reads
      it: the converter's answer moved three hours back and shown in `offset`. */
  function GregorianOf(conv: Converter, v: UmmAlQuraDate, offset: int): Time {
    In(Add(conv.toGregorian(v), -KsaTime.KsaOffset), offset)
  }

  /** MonthStartingDay: day 1 of the same Hijri year and month. The weekday
      is carried over from `h` rather than recomputed. */
  function MonthStartingDay(h: HjriDate, conv: Converter): (r: HjriDate)
    ensures r.year == h.year && r.month == h.month && r.day == 1 && r.weekday == h.weekday
    ensures r.t.offset == h.t.offset
    ensures r.t.instant + KsaTime.KsaOffset
            == conv.toGregorian(UmmAlQuraDate(Int64Of(h.year), Int64Of(h.month), 1, h.weekday)).instant
  {
    var wsg := UmmAlQuraDate(Int64Of(h.year), Int64Of(h.month), 1, h.weekday);
    UintRoundTrip(h.year);
    UintRoundTrip(h.month);
    Labelled(wsg, GregorianOf(conv, wsg, h.t.offset))
  }

  /** Moving to the start of the month a second time changes nothing. */
  lemma MonthStartingDayIdempotent(h: HjriDate, conv: Converter)
    ensures MonthStartingDay(MonthStartingDay(h, conv), conv) == MonthStartingDay(h, conv)
  {
    UintRoundTrip(h.year);
    UintRoundTrip(h.month);
  }

  /** The month NextMonthStart computes, as written: (month + 1) % 12 in
      `uint` arithmetic. */
  function NextMonthAsWritten(month: Uint): Uint {
    ToUint(month + 1) % 12
  }

  /** The month that was evidently intended: the next of 1..12, wrapping to 1. */
  function NextMonthCorrected(month: Uint): Uint {
    month % 12 + 1
  }

  /** The Hijri date of the first of month `nextMonth`, the year advancing
      when that month is 1, and its weekday read from the Gregorian time. */
  function MonthStartOf(h: HjriDate, nextMonth: Uint, conv: Converter): (r: HjriDate)
    ensures r.month == nextMonth && r.day == 1
    ensures r.year == if nextMonth == 1 then ToUint(h.year + 1) else h.year
    ensures r.weekday == Weekday(r.t) && r.t.offset == h.t.offset
    ensures r.t.instant + KsaTime.KsaOffset
            == conv.toGregorian(UmmAlQuraDate(Int64Of(r.year), Int64Of(r.month), 1, 0)).instant
  {
    var year := if nextMonth == 1 then ToUint(h.year + 1) else h.year;
    var nd := UmmAlQuraDate(Int64Of(year), Int64Of(nextMonth), 1, 0);
    var gnd := GregorianOf(conv, nd, h.t.offset);
    UintRoundTrip(year);
    UintRoundTrip(nextMonth);
    HjriDate(ToUint(nd.year), ToUint(nd.month), ToUint(nd.day), Weekday(gnd), gnd)
  }

  /** NextMonthStart as written. */
  function NextMonthStart(h: HjriDate, conv: Converter): (r: HjriDate)
    ensures 1 <= h.month <= 10 ==> r.month == h.month + 1 && r.year == h.year
    ensures h.month == 11 ==> r.month == 0 && r.year == h.year
    ensures h.month == 12 ==> r.month == 1 && r.year == ToUint(h.year + 1)
    ensures r.day == 1 && r.weekday == Weekday(r.t) && r.t.offset == h.t.offset
    ensures r.t.instant + KsaTime.KsaOffset
            == conv.toGregorian(UmmAlQuraDate(Int64Of(r.year), Int64Of(r.month), 1, 0)).instant
  {
    MonthStartOf(h, NextMonthAsWritten(h.month), conv)
  }

  /** NextMonthStart with the month arithmetic corrected. */
  function NextMonthStartCorrected(h: HjriDate, conv: Converter): (r: HjriDate)
    ensures 1 <= h.month <= 11 ==> r.month == h.month + 1 && r.year == h.year
    ensures h.month == 12 ==> r.month == 1 && r.year == ToUint(h.year + 1)
    ensures 1 <= r.month <= 12
    ensures r.day == 1 && r.weekday == Weekday(r.t) && r.t.offset == h.t.offset
    ensures r.t.instant + KsaTime.KsaOffset
            == conv.toGregorian(UmmAlQuraDate(Int64Of(r.year), Int64Of(r.month), 1, 0)).instant
  {
    MonthStartOf(h, NextMonthCorrected(h.month), conv)
  }

  /** The two agree on every month of the year except Dhu al-Qadah (11). */
  lemma NextMonthStartAgrees(h: HjriDate, conv: Converter)
    requires 1 <= h.month <= 12
    ensures NextMonthStart(h, conv) == NextMonthStartCorrected(h, conv) <==> h.month != 11
  {
    if h.month == 11 {
      assert NextMonthStart(h, conv).month == 0;
    }
  }

  /** As written, the month after Dhu al-Qadah is month 0, which has no name,
      and the month after that is Muharram of the next year: Dhu al-Hijjah
      (12) is never reached. */
  lemma NextMonthStartSkipsDhuAlHijjah(h: HjriDate, conv: Converter)
    requires h.month == 11
    ensures NextMonthStart(h, conv).month == 0
    ensures MonthNameAR(NextMonthStart(h, conv).month) == ""
    ensures NextMonthStart(NextMonthStart(h, conv), conv).month == 1
    ensures NextMonthStart(NextMonthStart(h, conv), conv).year == ToUint(h.year + 1)
  {
  }

  /** The corrected month always has a name. */
  lemma NextMonthStartCorrectedNamed(h: HjriDate, conv: Converter)
    ensures MonthNameAR(NextMonthStartCorrected(h, conv).month) != ""
  {
  }

  /** dayTime: the same Hijri label with the stored time moved to local
      midnight `inc` days after the start of its day. */
  function DayTime(h: HjriDate, inc: int): (r: HjriDate)
    ensures r.year == h.year && r.month == h.month && r.day == h.day && r.weekday == h.weekday
    ensures r.t.offset == h.t.offset && IsLocalMidnight(r.t)
    ensures DayNumber(r.t) == DayNumber(h.t) + inc
  {
    HjriDate(h.year, h.month, h.day, h.weekday, MidnightAfter(h.t, inc))
  }

  function CurrentDayStart(h: HjriDate): (r: HjriDate)
    ensures r.year == h.year && r.month == h.month && r.day == h.day && r.weekday == h.weekday
    ensures r.t.offset == h.t.offset
    ensures IsLocalMidnight(r.t) && DayNumber(r.t) == DayNumber(h.t)
  {
    DayTime(h, 0)
  }

  function NextDayStart(h: HjriDate): (r: HjriDate)
    ensures r.year == h.year && r.month == h.month && r.day == h.day && r.weekday == h.weekday
    ensures r.t.offset == h.t.offset
    ensures IsLocalMidnight(r.t) && DayNumber(r.t) == DayNumber(h.t) + 1
  {
    DayTime(h, 1)
  }

  /** DayContains: whether `x` lies strictly between the local midnight
      starting the day of the stored time and the next one. */
  predicate DayContains(h: HjriDate, x: Time) {
    CurrentDayStart(h).t.instant < x.instant && x.instant < NextDayStart(h).t.instant
  }

  /** Neither boundary is contained: both comparisons are strict. */
  lemma DayContainsExcludesBounds(h: HjriDate)
    ensures !DayContains(h, CurrentDayStart(h).t)
    ensures !DayContains(h, NextDayStart(h).t)
  {
  }

  /** `x` is contained exactly when, shown in the zone of the stored time,
      it falls on the same local date and is not that date's midnight. */
  lemma DayContainsSameDay(h: HjriDate, x: Time)
    ensures DayContains(h, x)
            <==> DayNumber(In(x, h.t.offset)) == DayNumber(h.t) && !IsLocalMidnight(In(x, h.t.offset))
  {
    var s := CurrentDayStart(h).t;
    var n := NextDayStart(h).t;
    assert s.instant + h.t.offset == DayNumber(h.t) * 86_400_000_000_000 by {
      WallSplit(s);
    }
    assert n.instant + h.t.offset == (DayNumber(h.t) + 1) * 86_400_000_000_000 by {
      WallSplit(n);
    }
    StrictlyWithinDay(x.instant + h.t.offset, DayNumber(h.t));
  }

  /** The day of a date contains its own time unless that time is a midnight. */
  lemma DayContainsOwnTime(h: HjriDate)
    ensures DayContains(h, h.t) <==> !IsLocalMidnight(h.t)
  {
    DayContainsSameDay(h, h.t);
  }

  /** hjiriMonthsAR: the Arabic names of the twelve Hijri months. Months 3
      and 5 write the hamza as an alef followed by a combining hamza above. */
  const MonthsAR: map<Uint, string> := map[
    1 := "محرم",
    2 := "صفر",
    3 := "ربيع ال\U{0627}\U{0654}ول",
    4 := "ربيع الثاني",
    5 := "جمادى ال\U{0627}\U{0654}ولى",
    6 := "جمادى الثانية",
    7 := "رجب",
    8 := "شعبان",
    9 := "رمضان",
    10 := "شوال",
    11 := "ذو القعدة",
    12 := "ذو الحجة"
  ]

  /** Rabi al-Awwal and Jumada al-Ula are spelt with the alef and the
      combining hamza as two code points, not the precomposed alef with hamza. */
  lemma MonthNamesDecomposedHamza()
    ensures |MonthNameAR(3)| == 11 && MonthNameAR(3)[7..9] == "\U{0627}\U{0654}"
    ensures |MonthNameAR(5)| == 13 && MonthNameAR(5)[8..10] == "\U{0627}\U{0654}"
    ensures forall m: Uint :: '\U{0623}' !in MonthNameAR(m)
  {
  }

  /** A lookup in hjiriMonthsAR; a missing key reads as Go's zero value "". */
  function MonthNameAR(month: Uint): (name: string)
    ensures name != "" <==> 1 <= month <= 12
  {
    if month in MonthsAR then MonthsAR[month] else ""
  }
}
