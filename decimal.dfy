/**
 * Decimal text of non-negative integers: JavaScript's String(n) for an integer
 * n, String.prototype.padStart(width, '0'), and the value of a digit string as
 * Number() computes it.
 */
module Decimal {
  import opened Text

  predicate IsDigit(c: char) {
    '0' <= c <= '9'
  }

  predicate AllDigits(s: string) {
    forall i :: 0 <= i < |s| ==> IsDigit(s[i])
  }

  function DigitChar(d: int): (c: char)
    requires 0 <= d < 10
    ensures IsDigit(c)
  {
    ('0' as int + d) as char
  }

  function DigitValue(c: char): (d: int)
    requires IsDigit(c)
    ensures 0 <= d < 10
  {
    c as int - '0' as int
  }

  function Pow10(k: nat): (p: nat)
    ensures p >= 1
  {
    if k == 0 then 1 else 10 * Pow10(k - 1)
  }

  /** The value of a digit string, most significant digit first; "" has value 0. */
  function DigitsValue(s: string): nat
    requires AllDigits(s)
    decreases |s|
  {
    if s == [] then 0 else 10 * DigitsValue(s[..|s| - 1]) + DigitValue(s[|s| - 1])
  }

  /** JavaScript's String(n) for a non-negative integer: its shortest decimal form. */
  function NatToString(n: nat): (s: string)
    ensures AllDigits(s) && 1 <= |s|
    ensures s[0] == '0' ==> s == "0"
    ensures DigitsValue(s) == n
    decreases n
  {
    if n < 10 then [DigitChar(n)]
    else
      var s := NatToString(n / 10) + [DigitChar(n % 10)];
      assert s[..|s| - 1] == NatToString(n / 10);
      s
  }

  /** The shortest form of n has at most k digits exactly when n < 10^k. */
  lemma {:induction false} NatToStringLength(n: nat, k: nat)
    requires 1 <= k
    ensures |NatToString(n)| <= k <==> n < Pow10(k)
    decreases n
  {
    if n >= 10 {
      if k == 1 {
        assert Pow10(1) == 10;
        assert |NatToString(n)| >= 2;
      } else {
        NatToStringLength(n / 10, k - 1);
      }
    } else {
      PowGrows(k);
    }
  }

  lemma {:induction false} PowGrows(k: nat)
    requires 1 <= k
    ensures Pow10(k) >= 10
  {
    if k > 1 {
      PowGrows(k - 1);
    }
  }

  function Zeros(k: nat): (z: string)
    ensures |z| == k && AllDigits(z)
    ensures forall i :: 0 <= i < k ==> z[i] == '0'
  {
    seq(k, _ => '0')
  }

  /** String.prototype.padStart(width, "0"): left-fill with zeros up to width, never cut. */
  function PadStart(s: string, width: nat): (r: string)
    ensures |r| == if |s| >= width then |s| else width
    ensures r == Zeros(|r| - |s|) + s
  {
    if |s| >= width then (assert Zeros(0) + s == s; s) else Zeros(width - |s|) + s
  }

  /** Leading zeros do not change the value of a digit string. */
  lemma {:induction false} LeadingZerosValue(k: nat, s: string)
    requires AllDigits(s)
    ensures AllDigits(Zeros(k) + s) && DigitsValue(Zeros(k) + s) == DigitsValue(s)
    decreases |s|
  {
    var t := Zeros(k) + s;
    if s == [] {
      assert t == Zeros(k);
      ZerosValue(k);
    } else {
      assert t[..|t| - 1] == Zeros(k) + s[..|s| - 1];
      LeadingZerosValue(k, s[..|s| - 1]);
    }
  }

  lemma {:induction false} ZerosValue(k: nat)
    ensures DigitsValue(Zeros(k)) == 0
  {
    if k > 0 {
      assert Zeros(k)[..k - 1] == Zeros(k - 1);
      ZerosValue(k - 1);
    }
  }

  /** n written with at least width digits, as padStart renders it. */
  function Fixed(n: nat, width: nat): (s: string)
    requires 1 <= width
    ensures AllDigits(s) && DigitsValue(s) == n && |s| >= width
    ensures n < Pow10(width) ==> |s| == width
  {
    var d := NatToString(n);
    var r := PadStart(d, width);
    LeadingZerosValue(|r| - |d|, d);
    NatToStringLength(n, width);
    r
  }

  /**
   * Digit strings of equal length compare as text exactly as their values
   * compare as numbers, and are equal exactly when their values are.
   */
  lemma {:induction false} DigitsOrder(a: string, b: string)
    requires AllDigits(a) && AllDigits(b) && |a| == |b|
    ensures TextLess(a, b) <==> DigitsValue(a) < DigitsValue(b)
    ensures a == b <==> DigitsValue(a) == DigitsValue(b)
    decreases |a|
  {
    if |a| > 0 {
      var a', b' := a[..|a| - 1], b[..|b| - 1];
      var x, y := a[|a| - 1], b[|b| - 1];
      DigitsOrder(a', b');
      assert a == a' + [x] && b == b' + [y];
      TextLessConcat(a', [x], b', [y]);
      if a' == b' && x != y {
        assert a[|a| - 1] != b[|b| - 1];
      }
    }
  }

  /** A digit string of k digits is below 10^k. */
  lemma {:induction false} DigitsBelow(s: string)
    requires AllDigits(s)
    ensures DigitsValue(s) < Pow10(|s|)
    decreases |s|
  {
    if s != [] {
      DigitsBelow(s[..|s| - 1]);
    }
  }

  /** Digits as String() writes a number: at least one, and no leading zero unless the number is 0. */
  predicate Canonical(s: string) {
    s != [] && AllDigits(s) && (s[0] != '0' || |s| == 1)
  }

  /** A digit string that starts with a digit other than 0 is at least 10^(k-1). */
  lemma {:induction false} LeadingDigitBound(s: string)
    requires s != [] && AllDigits(s) && s[0] != '0'
    ensures DigitsValue(s) >= Pow10(|s| - 1)
    decreases |s|
  {
    if |s| > 1 {
      var p := s[..|s| - 1];
      assert p[0] == s[0];
      LeadingDigitBound(p);
    }
  }

  /** String() is onto the canonical digit strings: each is the shortest form of its value. */
  lemma CanonicalDigits(s: string)
    requires Canonical(s)
    ensures NatToString(DigitsValue(s)) == s
  {
    CanonicalLength(s);
    SameDigits(NatToString(DigitsValue(s)), s);
  }

  lemma CanonicalLength(s: string)
    requires Canonical(s)
    ensures |NatToString(DigitsValue(s))| == |s|
  {
    DigitsBelow(s);
    if |s| > 1 {
      LeadingDigitBound(s);
    }
    LengthBetween(DigitsValue(s), |s|);
  }

  /** A number from 10^(k-1) up to below 10^k has k digits (one digit when k is 1). */
  lemma LengthBetween(n: nat, k: nat)
    requires 1 <= k && (k == 1 || Pow10(k - 1) <= n) && n < Pow10(k)
    ensures |NatToString(n)| == k
  {
    NatToStringLength(n, k);
    if k > 1 {
      NatToStringLength(n, k - 1);
    }
  }

  /** A one-digit number padded to one digit is its digit. */
  lemma FixedOne(n: nat)
    requires n < 10
    ensures Fixed(n, 1) == [DigitChar(n)]
  {
    assert Pow10(1) == 10;
    var e := [DigitChar(n)];
    assert e[..0] == [];
    DigitsOrder(Fixed(n, 1), e);
  }

  /** Padding to one more digit: the number without its last digit, padded, then that digit. */
  lemma FixedSnoc(n: nat, w: nat)
    requires 1 <= w && n < Pow10(w + 1)
    ensures Fixed(n, w + 1) == Fixed(n / 10, w) + [DigitChar(n % 10)]
  {
    assert n / 10 < Pow10(w);
    DigitsSnoc(Fixed(n / 10, w), n % 10);
    SameDigits(Fixed(n, w + 1), Fixed(n / 10, w) + [DigitChar(n % 10)]);
  }

  /** Appending a digit d to a digit string p multiplies its value by ten and adds d. */
  lemma DigitsSnoc(p: string, d: int)
    requires AllDigits(p) && 0 <= d < 10
    ensures AllDigits(p + [DigitChar(d)]) && DigitsValue(p + [DigitChar(d)]) == 10 * DigitsValue(p) + d
  {
    var e := p + [DigitChar(d)];
    assert e[..|e| - 1] == p;
  }

  /** Digit strings of the same length and value are the same string. */
  lemma SameDigits(a: string, b: string)
    requires AllDigits(a) && AllDigits(b) && |a| == |b| && DigitsValue(a) == DigitsValue(b)
    ensures a == b
  {
    DigitsOrder(a, b);
  }

  /** Zero padded to two and to three digits. */
  lemma FixedZero()
    ensures Fixed(0, 2) == "00" && Fixed(0, 3) == "000"
  {
    FixedOne(0);
    FixedSnoc(0, 1);
    FixedSnoc(0, 2);
  }
}
