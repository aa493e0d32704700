/** Decimal rendering of non-negative integers, as Go's fmt package writes
    them for the "%0Nd" verbs and as the time package writes the numeric
    fields of a layout: the shortest digit string, left-padded with '0'. */
module Decimal {

  predicate IsDigit(c: char) {
    '0' <= c <= '9'
  }

  predicate AllDigits(s: string) {
    forall i :: 0 <= i < |s| ==> IsDigit(s[i])
  }

  function DigitValue(c: char): (v: nat)
    requires IsDigit(c)
    ensures v < 10
  {
    c as int - '0' as int
  }

  function DigitChar(v: nat): (c: char)
    requires v < 10
    ensures IsDigit(c) && DigitValue(c) == v
  {
    ('0' as int + v) as char
  }

  /** The number a digit string denotes, most significant digit first. */
  function Value(s: string): nat
    requires AllDigits(s)
  {
    if |s| == 0 then 0 else 10 * Value(s[..|s| - 1]) + DigitValue(s[|s| - 1])
  }

  function Pow10(k: nat): nat {
    if k == 0 then 1 else 10 * Pow10(k - 1)
  }

  /** The shortest decimal rendering of `n`; zero is "0". */
  function Digits(n: nat): (s: string)
    ensures 1 <= |s| && AllDigits(s) && Value(s) == n
    ensures s[0] == '0' ==> n == 0
    decreases n
  {
    if n < 10 then [DigitChar(n)]
    else
      var p := Digits(n / 10);
      var s := p + [DigitChar(n % 10)];
      assert s[..|s| - 1] == p;
      s
  }

  function Zeros(k: nat): (s: string)
    ensures |s| == k && AllDigits(s) && Value(s) == 0
  {
    if k == 0 then []
    else
      var s := Zeros(k - 1) + ['0'];
      assert s[..k - 1] == Zeros(k - 1);
      s
  }

  /** Leading zeros do not change the value of a digit string. */
  lemma {:induction false} ValueLeadingZeros(k: nat, s: string)
    requires AllDigits(s)
    ensures AllDigits(Zeros(k) + s) && Value(Zeros(k) + s) == Value(s)
    decreases |s|
  {
    var z := Zeros(k) + s;
    if |s| == 0 {
      assert z == Zeros(k);
    } else {
      var init := s[..|s| - 1];
      assert z[..|z| - 1] == Zeros(k) + init;
      assert z[|z| - 1] == s[|s| - 1];
      ValueLeadingZeros(k, init);
    }
  }

  /** Go's "%0<width>d" of an unsigned value. */
  function PadNat(n: nat, width: nat): (s: string)
    ensures AllDigits(s) && Value(s) == n
    ensures |s| == if |Digits(n)| < width then width else |Digits(n)|
  {
    var ds := Digits(n);
    if |ds| < width then
      ValueLeadingZeros(width - |ds|, ds);
      Zeros(width - |ds|) + ds
    else ds
  }

  /** A value below 10^w needs at most w digits. */
  lemma {:induction false} DigitsLength(n: nat, w: nat)
    requires 1 <= w && n < Pow10(w)
    ensures |Digits(n)| <= w
    decreases w
  {
    if n >= 10 {
      assert w != 1;
      assert n / 10 < Pow10(w - 1);
      DigitsLength(n / 10, w - 1);
    }
  }

  /** Padding a value that fits in `width` digits gives exactly `width` characters. */
  lemma PadNatWidth(n: nat, width: nat)
    requires 1 <= width && n < Pow10(width)
    ensures |PadNat(n, width)| == width
  {
    DigitsLength(n, width);
  }
}
