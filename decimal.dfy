/**
  ASCII decimal digit strings, as the filename counter uses them: reading a
  run of digits as a number (Python's `int` on a digit string), writing a
  natural number in decimal (`str`), and left-padding with zeros (`str.zfill`).
 */
module Decimal {

  predicate IsDigit(c: char) {
    '0' <= c <= '9'
  }

  predicate AllDigits(s: string) {
    forall i :: 0 <= i < |s| ==> IsDigit(s[i])
  }

  predicate HasDigit(s: string) {
    exists i :: 0 <= i < |s| && IsDigit(s[i])
  }

  predicate AllNines(s: string) {
    forall i :: 0 <= i < |s| ==> s[i] == '9'
  }

  function DigitValue(c: char): (d: nat)
    requires IsDigit(c)
    ensures d < 10
  {
    (c - '0') as nat
  }

  function DigitChar(d: nat): (c: char)
    requires d < 10
    ensures IsDigit(c) && DigitValue(c) == d
  {
    ('0' as int + d) as char
  }

  function Pow10(k: nat): (p: nat)
    ensures p >= 1
  {
    if k == 0 then 1 else 10 * Pow10(k - 1)
  }

  /** The number a digit string denotes; leading zeros do not matter. */
  function ValueOf(s: string): (v: nat)
    requires AllDigits(s)
    ensures v < Pow10(|s|)
  {
    if s == [] then 0 else ValueOf(s[..|s| - 1]) * 10 + DigitValue(s[|s| - 1])
  }

  /** The decimal spelling of `n`, without leading zeros ("0" for zero). */
  function ToDecimal(n: nat): (s: string)
    ensures AllDigits(s) && |s| >= 1
    ensures |s| > 1 ==> s[0] != '0'
  {
    if n < 10 then [DigitChar(n)] else ToDecimal(n / 10) + [DigitChar(n % 10)]
  }

  function Zeros(k: nat): (z: string)
    ensures |z| == k && AllDigits(z)
    ensures forall i :: 0 <= i < k ==> z[i] == '0'
  {
    if k == 0 then [] else Zeros(k - 1) + ['0']
  }

  /**
    `s.zfill(width)` for an unsigned digit string: pad on the left with '0'
    up to `width`; never truncates. (Python puts the padding after a leading
    sign; no signed string reaches this function.)
   */
  function ZFill(s: string, width: nat): (r: string)
    requires AllDigits(s)
    ensures |r| == if |s| >= width then |s| else width
    ensures r[|r| - |s|..] == s
    ensures forall i :: 0 <= i < |r| - |s| ==> r[i] == '0'
  {
    if |s| >= width then s else Zeros(width - |s|) + s
  }

  /** Appending a digit to a digit string multiplies its value by ten and adds the digit. */
  lemma ValueOfSnoc(init: string, last: char)
    requires AllDigits(init) && IsDigit(last)
    ensures AllDigits(init + [last]) && ValueOf(init + [last]) == 10 * ValueOf(init) + DigitValue(last)
  {
    assert (init + [last])[..|init|] == init;
  }

  /** Reading back what `ToDecimal` wrote gives the number. */
  lemma {:induction false} ValueOfToDecimal(n: nat)
    ensures ValueOf(ToDecimal(n)) == n
  {
    if n >= 10 {
      var s := ToDecimal(n);
      assert s[..|s| - 1] == ToDecimal(n / 10);
      ValueOfToDecimal(n / 10);
    }
  }

  lemma {:induction false} ValueOfZeros(k: nat)
    ensures ValueOf(Zeros(k)) == 0
  {
    if k > 0 {
      assert Zeros(k)[..k - 1] == Zeros(k - 1);
      ValueOfZeros(k - 1);
    }
  }

  /** Leading zeros do not change the value of a digit string. */
  lemma {:induction false} ValueOfPadded(k: nat, s: string)
    requires AllDigits(s)
    ensures AllDigits(Zeros(k) + s)
    ensures ValueOf(Zeros(k) + s) == ValueOf(s)
  {
    var t := Zeros(k) + s;
    assert AllDigits(t) by {
      forall i | 0 <= i < |t| ensures IsDigit(t[i]) {
        if i < k { assert t[i] == Zeros(k)[i]; } else { assert t[i] == s[i - k]; }
      }
    }
    if s == [] {
      assert t == Zeros(k);
      ValueOfZeros(k);
    } else {
      assert t[..|t| - 1] == Zeros(k) + s[..|s| - 1];
      ValueOfPadded(k, s[..|s| - 1]);
    }
  }

  /** Zero-padding keeps a digit string a digit string with the same value. */
  lemma ValueOfZFill(s: string, width: nat)
    requires AllDigits(s)
    ensures AllDigits(ZFill(s, width))
    ensures ValueOf(ZFill(s, width)) == ValueOf(s)
  {
    if |s| < width {
      ValueOfPadded(width - |s|, s);
    }
  }

  /** The decimal spelling of `n` is as long as the least `k` with `n < 10^k`. */
  lemma {:induction false} ToDecimalLength(n: nat, k: nat)
    ensures |ToDecimal(n)| <= k <==> (n < Pow10(k) && k >= 1)
  {
    if n >= 10 && k >= 1 {
      ToDecimalLength(n / 10, k - 1);
    }
  }

  /** A digit string denotes `10^|s| - 1` exactly when every digit is a nine. */
  lemma {:induction false} AllNinesValue(s: string)
    requires AllDigits(s)
    ensures ValueOf(s) + 1 == Pow10(|s|) <==> AllNines(s)
  {
    if s != [] {
      var init := s[..|s| - 1];
      AllNinesValue(init);
      if ValueOf(s) + 1 == Pow10(|s|) {
        // ValueOf(init) < 10^(|s|-1), so the total reaches 10^|s| - 1 only with
        // the largest prefix and a last digit of nine.
        assert ValueOf(init) + 1 == Pow10(|init|) && s[|s| - 1] == '9';
        forall i | 0 <= i < |s| ensures s[i] == '9' {
          if i < |init| { assert s[i] == init[i]; }
        }
      }
      if AllNines(s) {
        assert forall i :: 0 <= i < |init| ==> init[i] == s[i];
      }
    }
  }
}
