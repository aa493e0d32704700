/** The "YYYY-MM-DD" text of a year-month-day triple, in the two forms the
    program writes it: Go's time layout "2006-01-02" for Gregorian dates and
    fmt's "%04d-%02d-%02d" for Hijri dates. For the non-negative years a Hijri
    date holds the two agree, so one definition serves both. */
module DateText {
  import opened Basics
  import opened Decimal

  /** A calendar date as a plain triple; which calendar it belongs to is the
      caller's business. */
  datatype Ymd = Ymd(year: int, month: int, day: int)

  /** A year field: a '-' for negative years, then the magnitude padded to `width`. */
  function SignedPad(x: int, width: nat): (s: string)
  {
    if x < 0 then "-" + PadNat(-x, width) else PadNat(x, width)
  }

  function FormatYmd(d: Ymd): (s: string)
    requires 0 <= d.month && 0 <= d.day
  {
    SignedPad(d.year, 4) + "-" + PadNat(d.month, 2) + "-" + PadNat(d.day, 2)
  }

  function ParseSigned(s: string): Option<int>
  {
    if 1 < |s| && s[0] == '-' && AllDigits(s[1..]) then Some(0 - Value(s[1..]) as int)
    else if 0 < |s| && AllDigits(s) then Some(Value(s))
    else None
  }

  /** Reads a "Y-MM-DD" text back: exactly two digits of day and of month at
      the end, and a possibly signed year of any length before them. */
  function ParseYmd(s: string): Option<Ymd>
  {
    if |s| < 7 then None
    else
      var n := |s|;
      var ys, ms, ds := s[..n - 6], s[n - 5..n - 3], s[n - 2..];
      if s[n - 6] != '-' || s[n - 3] != '-' || !AllDigits(ms) || !AllDigits(ds) then None
      else match ParseSigned(ys)
        case None => None
        case Some(y) => Some(Ymd(y, Value(ms), Value(ds)))
  }

  lemma ParseSignedPad(x: int)
    ensures ParseSigned(SignedPad(x, 4)) == Some(x)
  {
    var s := SignedPad(x, 4);
    if x < 0 {
      assert s[1..] == PadNat(-x, 4);
    } else {
      assert IsDigit(s[0]);
    }
  }

  /** Reading back a year, a month and a day joined by '-' reads each part. */
  lemma ParseJoined(ys: string, ms: string, ds: string, y: int)
    requires |ms| == 2 && |ds| == 2 && AllDigits(ms) && AllDigits(ds)
    requires ParseSigned(ys) == Some(y)
    ensures ParseYmd(ys + "-" + ms + "-" + ds) == Some(Ymd(y, Value(ms), Value(ds)))
  {
    var s := ys + "-" + ms + "-" + ds;
    var n := |s|;
    assert n == |ys| + 6;
    assert s[n - 6] == '-' && s[n - 3] == '-';
    assert s[..n - 6] == ys;
    assert s[n - 5..n - 3] == ms;
    assert s[n - 2..] == ds;
  }

  /** Every date whose month and day fit in two digits reads back from its text. */
  lemma ParseFormatYmd(d: Ymd)
    requires 0 <= d.month < 100 && 0 <= d.day < 100
    ensures ParseYmd(FormatYmd(d)) == Some(d)
  {
    PadNatWidth(d.month, 2);
    PadNatWidth(d.day, 2);
    ParseSignedPad(d.year);
    ParseJoined(SignedPad(d.year, 4), PadNat(d.month, 2), PadNat(d.day, 2), d.year);
  }

  /** A date of a four-digit year renders in exactly ten characters. */
  lemma FormatYmdLength(d: Ymd)
    requires 0 <= d.year < 10000 && 0 <= d.month < 100 && 0 <= d.day < 100
    ensures |FormatYmd(d)| == 10
  {
    PadNatWidth(d.year, 4);
    PadNatWidth(d.month, 2);
    PadNatWidth(d.day, 2);
  }

  /** A date of a four-digit year renders in ten characters, stated for any year. */
  lemma FourDigitYearLength(d: Ymd)
    requires 0 <= d.month < 100 && 0 <= d.day < 100
    ensures 0 <= d.year < 10000 ==> |FormatYmd(d)| == 10
  {
    if 0 <= d.year < 10000 {
      FormatYmdLength(d);
    }
  }
}
