# taqweem in Dafny

taqweem is a small Go library of Saudi calendar helpers, and this project is a
Dafny model of it. It has three parts:

- **KSATime** is a `time.Time` kept in UTC and moved three hours forward, so
  that its wall clock reads Saudi local time. On it the library computes:
  - the "2006-01-02" texts of the day, of the Sunday that starts the week, and
    of the first of the month;
  - the local and UTC instants at which the Saudi day starts and ends;
  - a strict test of whether an instant lies inside that day.
- **HjriDate** is an Umm al-Qura (Hijri) year, month, day and weekday, kept
  together with the Gregorian time it was read from. The library builds it
  from an instant, adds calendar offsets to it, and renders it as
  "%04d-%02d-%02d". It also moves to the start of the week, of the month, of
  the next month and of the day.
- **DurationToMSU** renders a `time.Duration` in Arabic as its most
  significant whole unit: days, else hours, else minutes. The counted noun
  follows a fixed four-class table: one, two, three to ten, and any other
  count. As written, two hours take the plural "ساعات" rather than a dual,
  and every count outside 1 to 10 takes the accusative singular.

How the model is built:

- An instant is an integer count of nanoseconds since the Unix epoch. A zone
  is a fixed offset in nanoseconds, and Asia/Riyadh is three hours east of UTC.
- The parts of Go's `time` package the library uses are written out (module
  `GoTime`):
  - `Date`, `Weekday` and `AddDate`;
  - `time.Date`, with its normalisation of out-of-range months and days.
- The "2006-01-02" layout and fmt's "%04d-%02d-%02d" share one definition
  (module `DateText`), with a reader that parses the text back.
- `GoTime` rests on a proleptic Gregorian calendar (module `Civil`), which
  converts dates to day numbers and back and is proved to round-trip.
- The Umm al-Qura converter belongs to an outside library (go-hijri). The
  model takes it as a parameter: `HijriDate.Converter` is a pair of
  functions, and nothing is assumed about them. What is proved is what
  taqweem itself decides:
  - which time each operation hands the converter;
  - which fields each operation keeps or changes;
  - its own date arithmetic.
- The Arabic numerals printed by `golang.org/x/text/message` are a parameter
  too: `numeral: int -> string`.
- `CurrentKSATime` and `NowHijri` take the clock's reading as an argument
  instead of calling `time.Now`.

Modules, in dependency order:

| module | file | contents |
|---|---|---|
| `Basics` | basics.dfy | `Option` and a lemma about remainders |
| `Decimal` | decimal.dfy | zero-padded decimal digits and their value |
| `DateText` | date_text.dfy | the "YYYY-MM-DD" text and a reader for it |
| `Civil` | civil.dfy | the Gregorian calendar and day numbers |
| `GoTime` | go_time.dfy | `time.Time` with a fixed offset |
| `KsaTime` | ksa_time.dfy | `KSATime` |
| `HijriDate` | hijri_date.dfy | `HjriDate` and the month-name table |
| `DurationText` | duration.dfy | `DurationToMSU` and `fmtDurationInAR` |

## Model

| member | source | states |
|---|---|---|
| KsaTime.KSATimeOf | taqweem.go:21-23 | The result is held in UTC. Its wall clock is the Saudi wall clock of the argument. Its day number is the Saudi day of the instant, (instant + 3h) div 24h. |
| KsaTime.CurrentKSATime | taqweem.go:17-19 | For the clock reading passed in: held in UTC, with the Saudi wall clock of that instant, so the instant is three hours later, and on the Saudi day of that instant. |
| KsaTime.DateTextOf | taqweem.go:26 | The "2006-01-02" text of a time's date parses back to a valid date, and that date is the time's own local day. For a four-digit year the text is ten characters long. |
| KsaTime.Date | taqweem.go:25-28 | The text is a valid date, and it names the day the KSATime shows. For a four-digit year it is ten characters long. |
| KsaTime.WeekDate | taqweem.go:30-35 | The text names a Sunday no more than six days before the day shown, which is the Sunday that starts its week. For a four-digit year it is ten characters long. |
| KsaTime.MonthDate | taqweem.go:37-43 | The text reads back as day 1 of the same year and month. It names the day that lies day-of-month minus one days before the day shown. For a four-digit year it is ten characters long. |
| KsaTime.KsaDay | taqweem.go:53-58 | The result is a local midnight in the same zone, `inc` days after the day shown. |
| KsaTime.CurrentDayStart | taqweem.go:45-47 | A local midnight on the day shown, in the same zone. |
| KsaTime.NextDayStart | taqweem.go:49-51 | A local midnight on the day after the day shown, in the same zone. |
| KsaTime.KsaDayInUTC | taqweem.go:68-74 | The result is in UTC. Adding three hours to it gives the UTC midnight `inc` days after the UTC date of the time. |
| KsaTime.DayBoundsInUTC | taqweem.go:60-74 | The next day's start is exactly 24h after the current day's start. Each start plus three hours is an exact UTC midnight. |
| KsaTime.KSATimeOfWithinDay | taqweem.go:21-23 | For KSATimeOf(x), the current day's start is at or before x, and the next day's start is after x. |
| KsaTime.KsaDayIsInUTCShifted | taqweem.go:53-74 | For a KSATime held in UTC, ksaDay(inc) is ksaDayInUTC(inc) moved three hours forward. |
| KsaTime.DayContainsExcludesBounds | taqweem.go:76-81 | Neither the day's start nor the next day's start is contained. |
| KsaTime.DayContainsSameDay | taqweem.go:76-81 | The day of KSATimeOf(y) contains x exactly when x is on the same Saudi date as y and is not that date's midnight. |
| KsaTime.DayContainsOwnTime | taqweem.go:76-81 | KSATimeOf(x) contains x exactly when x + 3h is not an exact midnight. |
| HijriDate.ToUint | taqweem.go:95-97 | Go's conversion to `uint` is the identity on the values it can hold. |
| HijriDate.UintRoundTrip | taqweem.go:181-189 | `uint(int64(u))` gives back `u` for every `uint`. |
| HijriDate.HijriOf | taqweem.go:91-101 | The converter reads the time KSATimeOf builds: three hours forward, shown in UTC. The stored time is the same instant, shown at +3h. |
| HijriDate.NowHijriIsHijriOf | taqweem.go:103-114 | NowHijri builds exactly what HijriOf builds for the same instant. |
| HijriDate.GregorianOfHijriOf | taqweem.go:116-118 | Gregorian() of HijriOf(x) is the instant x, and its wall clock is the Saudi wall clock. |
| HijriDate.AddDate | taqweem.go:120-130 | The converter reads the shifted time itself, with no three-hour shift. The zone and the clock are kept. The new local day is the stored date plus the years, months and days, normalised as time.Date does. Adding days alone moves the instant by whole days. |
| HijriDate.ConverterInputs | taqweem.go:91-130 | On a date made by HijriOf, AddDate(0, 0, 0) hands the converter the same wall clock as HijriOf, but at an instant three hours earlier. |
| HijriDate.AddNothing | taqweem.go:120-130 | If the converter reads only the wall clock, AddDate(0, 0, 0) of HijriOf(x) is HijriOf(x). |
| HijriDate.StringRoundTrip | taqweem.go:132-139 | When month and day fit in two digits, the text reads back as the year, month and day. With a four-digit year it is ten characters long. |
| HijriDate.WeekStartingDay | taqweem.go:157-176 | The converter reads the time moved back to Sunday with its clock kept. The stored time is a local Sunday midnight in the same zone, at most six days earlier. |
| HijriDate.MonthStartingDay | taqweem.go:178-193 | Year and month are kept, the day becomes 1, and the original weekday is carried over. The time is the converter's Gregorian answer minus three hours, in the original zone. |
| HijriDate.MonthStartOf | taqweem.go:207-221 | The result is day 1 of the given month. The year advances only when that month is 1. The time is the converter's Gregorian answer for (year, month, 1, weekday 0) minus three hours, in the original zone. The weekday is read from that time. |
| HijriDate.NextMonthStart | taqweem.go:199-222 | As written: months 1 to 10 go to the next month of the same year, and 12 goes to 1 of the next year. 11 goes to month 0 of the same year. The time is the converter's Gregorian answer for day 1 of the new month minus three hours, in the original zone. |
| HijriDate.NextMonthStartCorrected | taqweem.go:199-222 | Corrected: months 1 to 11 go to the next month of the same year, and 12 goes to 1 of the next year. The month is always within 1 to 12. The time is the converter's Gregorian answer for day 1 of the new month minus three hours, in the original zone. |
| HijriDate.MonthStartingDayIdempotent | taqweem.go:178-193 | Moving to the start of the month a second time gives the same date and time. |
| HijriDate.NextMonthStartAgrees | taqweem.go:202-205 | For months 1 to 12, the as-written and corrected versions agree exactly when the month is not 11. |
| HijriDate.NextMonthStartSkipsDhuAlHijjah | taqweem.go:202-205 | As written, the month after 11 is 0, which has no name. The month after that is 1 of the next year. |
| HijriDate.NextMonthStartCorrectedNamed | taqweem.go:248-261 | The corrected next month always has a name in the month table. |
| HijriDate.DayTime | taqweem.go:228-239 | All four Hijri fields are kept. The time becomes a local midnight in the same zone, `inc` days on. |
| HijriDate.CurrentDayStart | taqweem.go:195-197 | The fields and the zone are kept, and the time is the midnight of its own day. |
| HijriDate.NextDayStart | taqweem.go:224-226 | The fields and the zone are kept, and the time is the next day's midnight. |
| HijriDate.DayContainsExcludesBounds | taqweem.go:241-246 | Neither the day's start nor the next day's start is contained. |
| HijriDate.DayContainsSameDay | taqweem.go:241-246 | x is contained exactly when, shown in the zone of the stored time, it is on the same local date and is not a midnight. |
| HijriDate.DayContainsOwnTime | taqweem.go:241-246 | A date's own time is contained unless it is a midnight. |
| HijriDate.MonthNameAR | taqweem.go:248-261 | A month has a non-empty name exactly when it is within 1 to 12. Any other key reads as Go's zero value "". |
| HijriDate.MonthNamesDecomposedHamza | taqweem.go:251-253 | Months 3 and 5 spell the hamza as an alef followed by a combining hamza above, and no name uses the precomposed alef with hamza. |
| DurationText.TruncDiv | taqweem.go:274-275 | Go's `/` truncates toward zero: the quotient has the sign of the dividend and lies within one divisor of it. |
| DurationText.TruncMod | taqweem.go:275-276 | Go's `%` has the sign of the dividend, its magnitude is below the divisor, and it completes the truncated quotient. |
| DurationText.WholeMinutes | taqweem.go:271 | The whole minutes of a duration, truncated toward zero, for either sign. |
| DurationText.SplitRecombines | taqweem.go:273-276 | days·1440 + hours·60 + minutes gives back the minute count. Every part has the sign of the count, hours stay below 24 and minutes below 60. |
| DurationText.DurationToMSUKeepsLargestUnit | taqweem.go:278-290 | The text is exactly the largest whole unit: days from 1440 minutes up, hours from 60, minutes from 1, and "" below that. |
| DurationText.DurationToMSUEmpty | taqweem.go:271-290 | The text is "" exactly when the whole-minute count is not positive, including for negative durations. |
| DurationText.DurationOfMinutes | taqweem.go:264-291 | For a duration of exactly m minutes, the text is the largest unit of m. |
| DurationText.DurationToMSUOneMinute | taqweem.go:264-291 | One minute reads "دقيقة". |
| DurationText.DurationToMSUHourExamples | taqweem.go:264-291 | Two hours read "ساعات". Ninety minutes read "ساعة": the whole hour, with the half hour dropped. |
| DurationText.DurationToMSUNumeralExamples | taqweem.go:264-291 | Five days read numeral 5 + " أيام", and forty-five minutes read numeral 45 + " دقيقة". |
| DurationText.Word | taqweem.go:306-343 | The agreement table has a non-empty word for every unit and class. |
| DurationText.FmtFollowsTable | taqweem.go:301-345 | Counts 1 and 2 give the lone word, and every other count gives numeral, space, word. The text is "" exactly for a value that is not DAY, HOUR or MINUTE, so the final `return ""` is unreachable for real units. |
| DurationText.FmtOneTwoWithoutNumeral | taqweem.go:306-324 | For 1 and 2 the text does not depend on how numerals are printed. |
| DurationText.TwoHoursWord | taqweem.go:320-321 | As written, two hours use the word of the 3 to 10 class, "ساعات". |
| GoTime.DateOf | taqweem.go:39 | Time.Date gives the valid calendar date whose day number is the time's local day. |
| GoTime.Weekday | taqweem.go:32 | The weekday is within 0 (Sunday) to 6. |
| GoTime.WeekdayNextDay | taqweem.go:32 | A day later the weekday is the next one, with Saturday wrapping to Sunday. |
| GoTime.EpochWeekday | taqweem.go:32 | 1970-01-01 is a Thursday (4). |
| GoTime.KnownSunday | taqweem.go:32 | 2024-01-07 is a Sunday (0). |
| GoTime.In | taqweem.go:99 | Changing the zone keeps the instant and takes the new offset. |
| GoTime.DateTime | taqweem.go:40 | time.Date gives the normalised day at the given clock in the given zone. A valid date at a clock within the day reads back as itself. |
| GoTime.AddDate | taqweem.go:121 | The zone and the clock are kept. The new local day is the date plus the years, months and days, normalised as time.Date does. Adding days alone moves the instant by whole days. |
| GoTime.AddDaysOnly | taqweem.go:158 | AddDate(0, 0, n) moves the instant by exactly n days. |
| GoTime.MidnightAfter | taqweem.go:53-57 | time.Date(y, m, d+inc, 0, 0, 0, 0, loc) is the local midnight `inc` days after the start of the day, in the same zone. |
| GoTime.WeekStart | taqweem.go:31-34 | Stepping back by the weekday and taking midnight gives a local Sunday midnight at most six days earlier, in the same zone. |
| Civil.FromDaysValid | taqweem.go:39 | Every day number has a valid Gregorian date. |
| Civil.ToDaysFromDays | taqweem.go:26 | The day number of the date of day z is z. |
| Civil.FromDaysToDays | taqweem.go:40 | Every valid date is the date of its own day number. |
| Civil.NormalisedValid | taqweem.go:40 | time.Date's normalisation leaves a valid date unchanged. |
| Civil.NormalisedOwnDate | taqweem.go:56 | Counting `inc` days from the date of day z, past month and year ends too, lands on day z + inc. |
| DateText.ParseFormatYmd | taqweem.go:26 | A date whose month and day fit in two digits reads back from its "2006-01-02" text. |
| DateText.FormatYmdLength | taqweem.go:133-138 | "%04d-%02d-%02d" of a four-digit year is ten characters long. |
| Decimal.PadNatWidth | taqweem.go:134 | Zero-padding a number that fits in the width gives exactly that many characters. |

## Left out

- The Umm al-Qura conversion (go-hijri's `CreateUmmAlQuraDate` and `ToGregorian`) is an outside library. It is a parameter, and nothing is proved about its answers. The errors the library returns are dropped by the program, so they are not modelled either.
- `Formatted()` is left out. Its numerals come from `message.NewPrinter` and `number.Decimal`, and `log.Println` is I/O. Its month lookup is modelled as `HijriDate.MonthNameAR`.
- The Arabic numerals `p.Sprintf("%d")` prints are a parameter (`numeral`). The `%s` of a fixed word is the word itself.
- `time.Now` is not called. `CurrentKSATime` and `NowHijri` take the clock's reading as an argument.
- `time.LoadLocation("Asia/Riyadh")` and tzdata are replaced by a fixed offset of +3h. Riyadh's historical local mean time (+3:06:52) before 14 March 1947 and a failed load are not modelled.
- DurationText.WholeMinutes: this is truncating integer division of nanoseconds. `d.Minutes()` goes through float64, and for a duration a few nanoseconds short of a whole minute its rounding can give the next minute. That rounding is not modelled.
- The Go `time.Time` internals (the monotonic reading, the `*Location` value, the wall/ext encoding) and its range limits are not modelled. Instants are unbounded integers.
- Go's `time.Weekday` is an `int` here, and `HjriDate.weekday` holds the converter's weekday as it is.
- `CurrentDayStartInUTC` and `NextDayStartInUTC` take the midnight of the UTC date and not of the local date, as the code does. The model follows the code. `KsaTime.KsaDayIsInUTCShifted` shows the two kinds of midnight differ by exactly three hours for the KSATime values the constructors build.
- String formatting is modelled for the decimal digits only. The Sprintf verbs themselves are not.

## Findings

| source | as written | input that shows it | evidently intended | confidence | as-written member | corrected member |
|---|---|---|---|---|---|---|
| taqweem.go:202-205 | `nextMonth := (t.month + 1) % 12` | month 11 (Dhu al-Qadah) gives month 0, which has no name, and the following step gives month 1 of the next year, so Dhu al-Hijjah (12) is never reached | the next month of 1 to 12, wrapping from 12 to 1: `t.month % 12 + 1` | not executed | HijriDate.NextMonthStart | HijriDate.NextMonthStartCorrected |

`HijriDate.NextMonthStartSkipsDhuAlHijjah` exhibits the case, and
`HijriDate.NextMonthStartAgrees` shows the two versions agree on every other
month.
