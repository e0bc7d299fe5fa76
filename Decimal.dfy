/**
 * Decimal numerals as the range expander uses them: Python's `int()` on a
 * string of ASCII digits, `str()` on a non-negative integer, and `str.zfill`.
 */
module Decimal {

  predicate IsDigit(c: char) {
    '0' <= c <= '9'
  }

  predicate AllDigits(s: string) {
    forall i :: 0 <= i < |s| ==> IsDigit(s[i])
  }

  /** A non-empty string of ASCII digits: the endpoints `int()` accepts in this model. */
  predicate IsDecimal(s: string) {
    |s| > 0 && AllDigits(s)
  }

  function DigitValue(c: char): (d: nat)
    requires IsDigit(c)
    ensures d < 10
  {
    (c as int) - ('0' as int)
  }

  function DigitChar(d: nat): (c: char)
    requires d < 10
    ensures IsDigit(c) && DigitValue(c) == d
  {
    (('0' as int) + d) as char
  }

  /** `int(s)`: the number a digit string denotes; leading zeros add nothing. */
  function Value(s: string): nat
    requires AllDigits(s)
  {
    if s == [] then 0 else Value(s[..|s| - 1]) * 10 + DigitValue(s[|s| - 1])
  }

  /** `str(n)`: the decimal numeral of `n`, with no leading zero unless `n` is 0. */
  function ToDecimal(n: nat): (s: string)
    ensures IsDecimal(s)
  {
    if n < 10 then [DigitChar(n)]
    else
      var p := ToDecimal(n / 10);
      var s := p + [DigitChar(n % 10)];
      assert s[..|s| - 1] == p;
      s
  }

  /** `str(n)` denotes `n`, and starts with '0' only for 0 itself. */
  lemma {:induction false} ToDecimalValue(n: nat)
    ensures Value(ToDecimal(n)) == n
    ensures ToDecimal(n)[0] == '0' ==> ToDecimal(n) == "0"
  {
    if n >= 10 {
      ToDecimalValue(n / 10);
      var p := ToDecimal(n / 10);
      var s := ToDecimal(n);
      assert s == p + [DigitChar(n % 10)];
      assert s[..|s| - 1] == p;
      assert s[0] == p[0];
    }
  }

  function Zeros(k: nat): (z: string)
    ensures |z| == k && AllDigits(z)
    ensures forall i :: 0 <= i < k ==> z[i] == '0'
  {
    if k == 0 then [] else Zeros(k - 1) + "0"
  }

  /**
   * `s.zfill(width)` for an unsigned numeral: left-pad with '0' up to `width`
   * characters; a string already that long is returned unchanged.
   */
  function ZeroFill(s: string, width: int): (r: string)
    ensures |s| >= width ==> r == s
    ensures |s| < width ==> |r| == width
    ensures |r| >= |s| && r[|r| - |s|..] == s
    ensures forall i :: 0 <= i < |r| - |s| ==> r[i] == '0'
  {
    if |s| >= width then s else Zeros(width - |s|) + s
  }

  lemma {:induction false} ValueOfZeros(k: nat)
    ensures Value(Zeros(k)) == 0
  {
    if k > 0 {
      assert Zeros(k)[..k - 1] == Zeros(k - 1);
      ValueOfZeros(k - 1);
    }
  }

  /** Leading zeros do not change the value of a numeral. */
  lemma {:induction false} ValueIgnoresLeadingZeros(k: nat, s: string)
    requires AllDigits(s)
    ensures AllDigits(Zeros(k) + s) && Value(Zeros(k) + s) == Value(s)
  {
    var t := Zeros(k) + s;
    if s == [] {
      assert t == Zeros(k);
      ValueOfZeros(k);
    } else {
      assert t[..|t| - 1] == Zeros(k) + s[..|s| - 1];
      ValueIgnoresLeadingZeros(k, s[..|s| - 1]);
    }
  }

  /** Zero-filling a numeral keeps its value. */
  lemma ZeroFillValue(s: string, width: int)
    requires AllDigits(s)
    ensures AllDigits(ZeroFill(s, width)) && Value(ZeroFill(s, width)) == Value(s)
  {
    if |s| < width {
      ValueIgnoresLeadingZeros(width - |s|, s);
    }
  }

  /** `str` is monotone in length: a larger number never has a shorter numeral. */
  lemma {:induction false} ToDecimalLengthMonotone(n: nat, m: nat)
    requires n <= m
    ensures |ToDecimal(n)| <= |ToDecimal(m)|
  {
    if n >= 10 {
      ToDecimalLengthMonotone(n / 10, m / 10);
    }
  }

  /** The numeral `str(int(s))` is never longer than the digit string `s` it came from. */
  lemma {:induction false} ToDecimalNoLonger(s: string)
    requires IsDecimal(s)
    ensures |ToDecimal(Value(s))| <= |s|
  {
    var n := Value(s);
    if n >= 10 {
      var p := s[..|s| - 1];
      assert n == Value(p) * 10 + DigitValue(s[|s| - 1]);
      assert p != [];
      assert n / 10 == Value(p);
      ToDecimalNoLonger(p);
    }
  }
}
