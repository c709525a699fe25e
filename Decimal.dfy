/**
 * Decimal rendering of natural numbers, as Python's `str(n)` and the format
 * specifier `{n:04d}` produce it, together with the parse-back function that
 * shows the rendering loses nothing.
 */
module Decimal {

  predicate IsDigit(c: char)
  {
    '0' <= c <= '9'
  }

  predicate AllDigits(s: string)
  {
    forall i :: 0 <= i < |s| ==> IsDigit(s[i])
  }

  function DigitChar(d: nat): (c: char)
    requires d < 10
    ensures IsDigit(c) && c as int - '0' as int == d
  {
    ('0' as int + d) as char
  }

  function DigitValue(c: char): (d: nat)
    requires IsDigit(c)
    ensures d < 10
  {
    c as int - '0' as int
  }

  /** The shortest decimal rendering of `n`: never empty, never a leading zero except for 0 itself. */
  function Digits(n: nat): (s: string)
    ensures 1 <= |s| && AllDigits(s)
    ensures s[0] == '0' <==> n == 0
    ensures s[0] == '0' ==> |s| == 1
  {
    if n < 10 then [DigitChar(n)] else Digits(n / 10) + [DigitChar(n % 10)]
  }

  /** The number a string of decimal digits denotes (leading zeros allowed). */
  function Value(s: string): nat
    requires AllDigits(s)
  {
    if s == [] then 0 else Value(s[..|s| - 1]) * 10 + DigitValue(s[|s| - 1])
  }

  /** Reading back a rendering gives the number rendered. */
  lemma {:induction false} ValueOfDigits(n: nat)
    ensures Value(Digits(n)) == n
  {
    if n >= 10 {
      var s := Digits(n);
      assert s[..|s| - 1] == Digits(n / 10);
      ValueOfDigits(n / 10);
    }
  }

  /** Distinct numbers have distinct renderings. */
  lemma DigitsInjective(a: nat, b: nat)
    requires Digits(a) == Digits(b)
    ensures a == b
  {
    ValueOfDigits(a);
    ValueOfDigits(b);
  }

  function Zeros(k: nat): (s: string)
    ensures |s| == k && AllDigits(s)
    ensures forall i :: 0 <= i < k ==> s[i] == '0'
  {
    seq(k, i => '0')
  }

  /** Leading zeros do not change the number a digit string denotes. */
  lemma {:induction false} ValueIgnoresLeadingZeros(k: nat, s: string)
    requires AllDigits(s)
    ensures AllDigits(Zeros(k) + s)
    ensures Value(Zeros(k) + s) == Value(s)
    decreases |s|
  {
    var z := Zeros(k);
    if s == [] {
      assert z + s == z;
      ZerosValue(k);
    } else {
      var init := s[..|s| - 1];
      assert (z + s)[..|z + s| - 1] == z + init;
      ValueIgnoresLeadingZeros(k, init);
    }
  }

  lemma {:induction false} ZerosValue(k: nat)
    ensures Value(Zeros(k)) == 0
  {
    if k > 0 {
      assert Zeros(k)[..k - 1] == Zeros(k - 1);
      ZerosValue(k - 1);
    }
  }

  /**
   * `{n:0<width>d}`: the rendering of `n` left-padded with zeros to at least
   * `width` characters; a longer rendering is kept whole.
   */
  function ZeroPad(n: nat, width: nat): (s: string)
    ensures AllDigits(s)
    ensures |s| >= width && |s| >= |Digits(n)|
  {
    var d := Digits(n);
    if |d| < width then Zeros(width - |d|) + d else d
  }

  /** The padded text is at least `width` long, ends with the whole rendering, and is zeros before it. */
  lemma ZeroPadShape(n: nat, width: nat)
    ensures |ZeroPad(n, width)| == if |Digits(n)| < width then width else |Digits(n)|
    ensures |ZeroPad(n, width)| >= width
    ensures ZeroPad(n, width)[|ZeroPad(n, width)| - |Digits(n)|..] == Digits(n)
    ensures forall i :: 0 <= i < |ZeroPad(n, width)| - |Digits(n)| ==> ZeroPad(n, width)[i] == '0'
  {
  }

  /** Padding loses nothing: the padded text still denotes `n`. */
  lemma ZeroPadValue(n: nat, width: nat)
    ensures Value(ZeroPad(n, width)) == n
  {
    var d := Digits(n);
    ValueOfDigits(n);
    if |d| < width {
      var k := width - |d|;
      assert ZeroPad(n, width) == Zeros(k) + d;
      ValueIgnoresLeadingZeros(k, d);
    } else {
      assert ZeroPad(n, width) == d;
    }
  }

  /** Distinct counters never share a padded rendering. */
  lemma ZeroPadInjective(a: nat, b: nat, width: nat)
    requires ZeroPad(a, width) == ZeroPad(b, width)
    ensures a == b
  {
    ZeroPadValue(a, width);
    ZeroPadValue(b, width);
  }
}
