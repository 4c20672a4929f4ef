/** Decimal rendering of non-negative integers (Number.prototype.toString) and
    the `pad(num, size)` helper built on String.prototype.padStart. */
module Decimal {

  predicate IsDigit(c: char) { '0' <= c <= '9' }

  predicate AllDigits(s: string) { forall i :: 0 <= i < |s| ==> IsDigit(s[i]) }

  function DigitChar(d: nat): (c: char)
    requires d < 10
    ensures IsDigit(c) && DigitValue(c) == d
  {
    ('0' as int + d) as char
  }

  function DigitValue(c: char): nat
    requires IsDigit(c)
  {
    c as int - '0' as int
  }

  /** The number a string of decimal digits denotes, read left to right. */
  function DigitsValue(s: string): nat
    requires AllDigits(s)
  {
    if s == [] then 0 else DigitsValue(s[..|s| - 1]) * 10 + DigitValue(s[|s| - 1])
  }

  function Pow10(k: nat): (p: nat)
    ensures p >= 1
  {
    if k == 0 then 1 else 10 * Pow10(k - 1)
  }

  /** The shortest decimal rendering of n, as `String(n)` produces it. */
  function DecimalString(n: nat): (s: string)
    ensures s != [] && AllDigits(s)
  {
    if n < 10 then [DigitChar(n)] else DecimalString(n / 10) + [DigitChar(n % 10)]
  }

  /** Reading the rendering back gives the number. */
  lemma {:induction false} DecimalStringValue(n: nat)
    ensures DigitsValue(DecimalString(n)) == n
  {
    if n >= 10 {
      DecimalStringValue(n / 10);
      var s := DecimalString(n);
      assert s[..|s| - 1] == DecimalString(n / 10);
    }
  }

  /** A number with k digits renders as exactly k characters. */
  lemma {:induction false} DecimalStringLength(n: nat, k: nat)
    requires 1 <= k && n < Pow10(k) && (k > 1 ==> Pow10(k - 1) <= n)
    ensures |DecimalString(n)| == k
  {
    if k > 1 {
      assert Pow10(k - 1) == 10 * Pow10(k - 2);
      assert n >= 10;
      assert Pow10(k - 2) <= n / 10 < Pow10(k - 1);
      DecimalStringLength(n / 10, k - 1);
    }
  }

  function Zeros(k: nat): (z: string)
    ensures |z| == k && forall i :: 0 <= i < k ==> z[i] == '0'
  {
    seq(k, _ => '0')
  }

  /** `pad(num, size)`: the decimal digits of n, left-filled with '0' up to
      size characters; a rendering already size long or longer is kept whole. */
  function Pad(n: nat, size: nat): (s: string)
    ensures AllDigits(s)
    ensures |s| == if size > |DecimalString(n)| then size else |DecimalString(n)|
    ensures s[|s| - |DecimalString(n)|..] == DecimalString(n)
    ensures forall i :: 0 <= i < |s| - |DecimalString(n)| ==> s[i] == '0'
  {
    var digits := DecimalString(n);
    if |digits| >= size then digits else Zeros(size - |digits|) + digits
  }

  /** A one-digit number padded to width 2 gets one leading '0'. */
  lemma PadOneDigit(n: nat)
    requires n < 10
    ensures DecimalString(n) == [DigitChar(n)]
    ensures Pad(n, 2) == ['0', DigitChar(n)]
  {
    assert Zeros(1) == ['0'];
  }

  /** A two-digit number padded to width 2 is its own two digits. */
  lemma PadTwoDigits(n: nat)
    requires 10 <= n < 100
    ensures DecimalString(n) == [DigitChar(n / 10), DigitChar(n % 10)]
    ensures Pad(n, 2) == DecimalString(n)
  {
    assert DecimalString(n / 10) == [DigitChar(n / 10)];
  }

  lemma {:induction false} LeadingZerosValue(k: nat, s: string)
    requires AllDigits(s)
    ensures AllDigits(Zeros(k) + s) && DigitsValue(Zeros(k) + s) == DigitsValue(s)
    decreases |s|
  {
    if s == [] {
      assert Zeros(k) + s == Zeros(k);
      ZerosValue(k);
    } else {
      var t := Zeros(k) + s;
      assert t[..|t| - 1] == Zeros(k) + s[..|s| - 1];
      LeadingZerosValue(k, s[..|s| - 1]);
    }
  }

  lemma {:induction false} ZerosValue(k: nat)
    ensures AllDigits(Zeros(k)) && DigitsValue(Zeros(k)) == 0
  {
    if k > 0 {
      assert Zeros(k)[..k - 1] == Zeros(k - 1);
      ZerosValue(k - 1);
    }
  }

  /** Padding never changes the number the digits denote. */
  lemma PadValue(n: nat, size: nat)
    ensures DigitsValue(Pad(n, size)) == n
  {
    DecimalStringValue(n);
    var digits := DecimalString(n);
    if |digits| < size {
      LeadingZerosValue(size - |digits|, digits);
    }
  }
}
