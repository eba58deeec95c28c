/**
 * JavaScript's conversions from text to number: Number() on a string (the
 * StringToNumber grammar of ECMAScript), parseInt(s, 10), and the truncation
 * toward zero (ToIntegerOrInfinity) that Date.UTC applies to its arguments.
 * NaN is None; a finite Number is kept as an exact decimal.
 */
module JsNumber {
  import opened Wrappers
  import opened Decimal

  /**
   * A Number other than NaN: a finite value, kept exactly as mantissa times 10 to the exponent (so one
   * value has several forms), or an infinity of either sign.
   */
  datatype Numeric = Finite(mantissa: int, exponent: int) | Infinite(negative: bool)

  /** WhiteSpace and LineTerminator code points, which Number and parseInt skip. */
  predicate IsJsSpace(c: char) {
    var k := c as int;
    k == 0x09 || k == 0x0A || k == 0x0B || k == 0x0C || k == 0x0D || k == 0x20 || k == 0xA0
    || k == 0x1680 || (0x2000 <= k <= 0x200A) || k == 0x2028 || k == 0x2029 || k == 0x202F
    || k == 0x205F || k == 0x3000 || k == 0xFEFF
  }

  /** The text without its leading white space. */
  function TrimStart(s: string): (r: string)
    ensures |r| <= |s|
    ensures r == [] || !IsJsSpace(r[0])
    decreases |s|
  {
    if s != [] && IsJsSpace(s[0]) then TrimStart(s[1..]) else s
  }

  /** The text without its trailing white space. */
  function TrimEnd(s: string): (r: string)
    ensures |r| <= |s|
    ensures r == [] || !IsJsSpace(r[|r| - 1])
    decreases |s|
  {
    if s != [] && IsJsSpace(s[|s| - 1]) then TrimEnd(s[..|s| - 1]) else s
  }

  /** The text without white space at either end. */
  function Trim(s: string): string {
    TrimEnd(TrimStart(s))
  }

  /** The length of the run of decimal digits s starts with. */
  function LeadingDigits(s: string): (k: nat)
    ensures k <= |s| && (k < |s| ==> !IsDigit(s[k]))
    ensures forall i :: 0 <= i < k ==> IsDigit(s[i])
    decreases |s|
  {
    if s != [] && IsDigit(s[0]) then
      var k := LeadingDigits(s[1..]);
      assert forall i :: 1 <= i <= k ==> s[i] == s[1..][i - 1];
      k + 1
    else 0
  }

  // ---------------------------------------------------------------------
  // Number(s)

  /** The value of a digit of base 2, 8, 10 or 16, letters in either case; 16 for any other character. */
  function RadixDigit(c: char): nat {
    if '0' <= c <= '9' then c as int - '0' as int
    else if 'a' <= c <= 'f' then c as int - 'a' as int + 10
    else if 'A' <= c <= 'F' then c as int - 'A' as int + 10
    else 16
  }

  /** The base the letter after a leading 0 announces (0b, 0o, 0x, in either case); 0 for none. */
  function RadixOf(c: char): nat {
    if c == 'b' || c == 'B' then 2
    else if c == 'o' || c == 'O' then 8
    else if c == 'x' || c == 'X' then 16
    else 0
  }

  predicate InRadix(s: string, radix: nat) {
    forall i :: 0 <= i < |s| ==> RadixDigit(s[i]) < radix
  }

  /** The value of a digit string in the base, most significant digit first. */
  function RadixValue(s: string, radix: nat): nat
    decreases |s|
  {
    if s == [] then 0 else radix * RadixValue(s[..|s| - 1], radix) + RadixDigit(s[|s| - 1])
  }

  /** The exponent part of a decimal literal: empty, or e or E, an optional sign and digits; None if malformed. */
  function ExponentOf(p: string): Option<int> {
    if p == [] then Some(0)
    else if p[0] != 'e' && p[0] != 'E' then None
    else
      var q := p[1..];
      var digits := if q != [] && (q[0] == '+' || q[0] == '-') then q[1..] else q;
      if digits == [] || !AllDigits(digits) then None
      else if q[0] == '-' then Some(0 - DigitsValue(digits))
      else Some(DigitsValue(digits))
  }

  /** The literal with whole digits i, fraction digits f and exponent part p: i.f times 10 to the exponent. */
  function WithExponent(i: string, f: string, p: string): Option<Numeric>
    requires AllDigits(i) && AllDigits(f)
  {
    if i == [] && f == [] then None
    else
      match ExponentOf(p)
      case None => None
      case Some(e) => Some(Finite(DigitsValue(i) * Pow10(|f|) + DigitsValue(f), e - |f|))
  }

  /**
   * An unsigned decimal literal other than Infinity: digits, optionally a point and more digits (one of
   * the two runs may be empty, not both), then an optional exponent.
   */
  function UnsignedDecimal(u: string): Option<Numeric> {
    var k := LeadingDigits(u);
    var afterInt := u[k..];
    if afterInt != [] && afterInt[0] == '.' then
      var f := LeadingDigits(afterInt[1..]);
      WithExponent(u[..k], afterInt[1..][..f], afterInt[1..][f..])
    else WithExponent(u[..k], "", afterInt)
  }

  /** A signed decimal literal: an optional + or -, then Infinity or an unsigned decimal. */
  function DecimalLiteral(t: string): Option<Numeric>
    requires t != []
  {
    var negative := t[0] == '-';
    var u := if t[0] == '-' || t[0] == '+' then t[1..] else t;
    if u == "Infinity" then Some(Infinite(negative))
    else
      match UnsignedDecimal(u)
      case Some(Finite(m, x)) => Some(Finite(if negative then -m else m, x))
      case other => other
  }

  /**
   * Number(s) on a string: white space around the literal is ignored, blank text is 0, a literal is a
   * signed decimal or Infinity, or an unsigned 0b/0o/0x integer; anything else is NaN.
   */
  function StringToNumber(s: string): Option<Numeric> {
    NumberOfTrimmed(Trim(s))
  }

  /** Number() on text without white space at either end. */
  function NumberOfTrimmed(t: string): Option<Numeric> {
    if t == [] then Some(Finite(0, 0))
    else if |t| > 2 && t[0] == '0' && RadixOf(t[1]) != 0 then
      var digits := t[2..];
      if InRadix(digits, RadixOf(t[1])) then Some(Finite(RadixValue(digits, RadixOf(t[1])), 0)) else None
    else DecimalLiteral(t)
  }

  /** x - 1 on a Number: infinities and NaN stay as they are. */
  function MinusOne(n: Option<Numeric>): Option<Numeric> {
    match n
    case Some(Finite(m, x)) =>
      if x >= 0 then Some(Finite(m * Pow10(x) - 1, 0)) else Some(Finite(m - Pow10(-x), x))
    case _ => n
  }

  /** ToIntegerOrInfinity on m times 10 to the x: the integer part, truncated toward zero. */
  function IntegerPart(m: int, x: int): int {
    if x >= 0 then m * Pow10(x)
    else if m >= 0 then m / Pow10(-x)
    else -((-m) / Pow10(-x))
  }

  /** The integer Date.UTC takes from an argument: NaN or an infinity makes the date NaN. */
  function DateArgument(n: Option<Numeric>): Option<int> {
    match n
    case Some(Finite(m, x)) => Some(IntegerPart(m, x))
    case _ => None
  }

  // ---------------------------------------------------------------------
  // What Number() reads

  /** A white-space character after the text is kept by TrimStart only when something else is. */
  lemma {:induction false} TrimStartSnoc(s: string, c: char)
    requires IsJsSpace(c)
    ensures TrimStart(s + [c]) == if TrimStart(s) == [] then [] else TrimStart(s) + [c]
    decreases |s|
  {
    if s != [] && IsJsSpace(s[0]) {
      assert (s + [c])[1..] == s[1..] + [c];
      TrimStartSnoc(s[1..], c);
    } else if s == [] {
      assert [c][1..] == [];
    }
  }

  /** TrimStart leaves a suffix of the text. */
  lemma {:induction false} TrimStartSuffix(s: string)
    ensures TrimStart(s) == s[|s| - |TrimStart(s)|..]
    decreases |s|
  {
    if s != [] && IsJsSpace(s[0]) {
      TrimStartSuffix(s[1..]);
      assert s[1..][|s| - 1 - |TrimStart(s)|..] == s[|s| - |TrimStart(s)|..];
    }
  }

  /** TrimEnd leaves a prefix of the text, and keeps a first character that is not white space. */
  lemma {:induction false} TrimEndPrefix(s: string)
    ensures TrimEnd(s) == s[..|TrimEnd(s)|]
    ensures s != [] && !IsJsSpace(s[0]) ==> TrimEnd(s) != []
    decreases |s|
  {
    if s != [] && IsJsSpace(s[|s| - 1]) {
      var p := s[..|s| - 1];
      TrimEndPrefix(p);
      assert p[..|TrimEnd(s)|] == s[..|TrimEnd(s)|];
      if |s| > 1 {
        assert p[0] == s[0];
      }
    }
  }

  /** White space after the text does not change what is trimmed. */
  lemma TrimSpaceEnd(s: string, c: char)
    requires IsJsSpace(c)
    ensures Trim(s + [c]) == Trim(s)
  {
    TrimStartSnoc(s, c);
    var t := TrimStart(s);
    if t != [] {
      assert (t + [c])[..|t|] == t;
    }
  }

  /** White space before the text does not change what is trimmed. */
  lemma TrimSpaceStart(c: char, s: string)
    requires IsJsSpace(c)
    ensures Trim([c] + s) == Trim(s)
  {
    assert ([c] + s)[1..] == s;
  }

  /** Number ignores white space around the text. */
  lemma NumberIgnoresSpace(s: string, c: char)
    requires IsJsSpace(c)
    ensures StringToNumber(s + [c]) == StringToNumber(s)
    ensures StringToNumber([c] + s) == StringToNumber(s)
  {
    TrimSpaceEnd(s, c);
    TrimSpaceStart(c, s);
  }

  /** A text that neither starts nor ends with white space is its own trimmed form. */
  lemma TrimUnspaced(s: string)
    requires s != [] && !IsJsSpace(s[0]) && !IsJsSpace(s[|s| - 1])
    ensures Trim(s) == s
  {
  }

  lemma {:induction false} DigitsThenOther(d: string, rest: string)
    requires AllDigits(d) && (rest == [] || !IsDigit(rest[0]))
    ensures LeadingDigits(d + rest) == |d|
    decreases |d|
  {
    if d != [] {
      assert (d + rest)[1..] == d[1..] + rest;
      DigitsThenOther(d[1..], rest);
    } else {
      assert d + rest == rest;
    }
  }

  /** A literal that starts with a digit, and is no 0b/0o/0x form, is read as an unsigned decimal. */
  lemma PlainLiteral(t: string)
    requires t != [] && IsDigit(t[0]) && !IsJsSpace(t[|t| - 1]) && (|t| > 1 ==> RadixOf(t[1]) == 0)
    ensures StringToNumber(t) == UnsignedDecimal(t)
  {
    TrimUnspaced(t);
    assert t != "Infinity" by {
      assert t[0] != 'I';
    }
  }

  /** Digits followed by neither a digit nor a point: the digits are the whole literal's mantissa. */
  lemma UnsignedOfWhole(u: string, i: string, rest: string)
    requires AllDigits(i) && u == i + rest && (rest == [] || (rest[0] != '.' && !IsDigit(rest[0])))
    ensures UnsignedDecimal(u) == WithExponent(i, "", rest)
  {
    DigitsThenOther(i, rest);
    assert u[..|i|] == i && u[|i|..] == rest;
  }

  /** Digits, a point and digits, then something that is not a digit. */
  lemma UnsignedOfPoint(u: string, i: string, f: string, rest: string)
    requires AllDigits(i) && AllDigits(f) && (rest == [] || !IsDigit(rest[0]))
    requires u == i + "." + f + rest
    ensures UnsignedDecimal(u) == WithExponent(i, f, rest)
  {
    var after := "." + f + rest;
    assert u == i + after;
    DigitsThenOther(i, after);
    assert u[..|i|] == i && u[|i|..] == after;
    assert after[1..] == f + rest;
    DigitsThenOther(f, rest);
    assert (f + rest)[..|f|] == f && (f + rest)[|f|..] == rest;
  }

  /** A digit string is its value. */
  lemma NumberOfDigits(d: string)
    requires d != [] && AllDigits(d)
    ensures StringToNumber(d) == Some(Finite(DigitsValue(d), 0))
  {
    PlainLiteral(d);
    UnsignedOfWhole(d, d, "");
    assert d + "" == d;
  }

  /** A + before digits is read as the digits' unsigned decimal. */
  lemma SignedShape(d: string)
    requires d != [] && AllDigits(d)
    ensures Trim("+" + d) == "+" + d
    ensures NumberOfTrimmed("+" + d) == UnsignedDecimal(d)
  {
    var t := "+" + d;
    assert t[0] == '+' && t[|t| - 1] == d[|d| - 1] && t[1..] == d;
    TrimUnspaced(t);
    assert d != "Infinity" by {
      assert d[0] != 'I';
    }
    assert NumberOfTrimmed(t) == DecimalLiteral(t);
  }

  /** A leading + changes nothing. */
  lemma NumberPlusSign(d: string)
    requires d != [] && AllDigits(d)
    ensures StringToNumber("+" + d) == StringToNumber(d)
  {
    PlainLiteral(d);
    SignedShape(d);
  }

  /** The text of a fraction starts with a digit, ends with no space and has no base letter. */
  lemma FractionShape(i: string, f: string, t: string)
    requires i != [] && AllDigits(i) && AllDigits(f) && t == i + "." + f
    ensures t != [] && IsDigit(t[0]) && !IsJsSpace(t[|t| - 1]) && (|t| > 1 ==> RadixOf(t[1]) == 0)
  {
    assert t[0] == i[0];
    if f == [] {
      assert t[|t| - 1] == '.';
    } else {
      assert t[|t| - 1] == f[|f| - 1];
    }
    if |i| > 1 {
      assert t[1] == i[1];
    } else {
      assert t[1] == '.';
    }
  }

  lemma FractionValue(i: string, f: string)
    requires i != [] && AllDigits(i) && AllDigits(f)
    ensures WithExponent(i, f, "") == Some(Finite(DigitsValue(i) * Pow10(|f|) + DigitsValue(f), -|f|))
  {
  }

  /** Digits, a point and more digits: the whole part and the fraction, to |f| places. */
  lemma NumberOfFraction(i: string, f: string)
    requires i != [] && AllDigits(i) && AllDigits(f)
    ensures StringToNumber(i + "." + f) == Some(Finite(DigitsValue(i) * Pow10(|f|) + DigitsValue(f), -|f|))
  {
    var t := i + "." + f;
    FractionShape(i, f, t);
    PlainLiteral(t);
    assert t == i + "." + f + "";
    UnsignedOfPoint(t, i, f, "");
    FractionValue(i, f);
  }

  /** The text of a power of ten starts with a digit, ends with one and has no base letter. */
  lemma ExponentShape(d: string, x: string, t: string)
    requires d != [] && AllDigits(d) && x != [] && AllDigits(x) && t == d + ("e" + x)
    ensures t != [] && IsDigit(t[0]) && !IsJsSpace(t[|t| - 1]) && (|t| > 1 ==> RadixOf(t[1]) == 0)
  {
    assert t[0] == d[0] && t[|t| - 1] == x[|x| - 1];
    if |d| > 1 {
      assert t[1] == d[1];
    } else {
      assert t[1] == 'e';
    }
  }

  lemma ExponentValue(d: string, x: string)
    requires d != [] && AllDigits(d) && x != [] && AllDigits(x)
    ensures WithExponent(d, "", "e" + x) == Some(Finite(DigitsValue(d), DigitsValue(x)))
  {
    assert ("e" + x)[1..] == x;
    assert ExponentOf("e" + x) == Some(DigitsValue(x));
  }

  /** Digits, e and more digits: the value times that power of ten. */
  lemma NumberOfExponent(d: string, x: string)
    requires d != [] && AllDigits(d) && x != [] && AllDigits(x)
    ensures StringToNumber(d + "e" + x) == Some(Finite(DigitsValue(d), DigitsValue(x)))
  {
    var t := d + ("e" + x);
    assert t == d + "e" + x;
    ExponentShape(d, x, t);
    PlainLiteral(t);
    UnsignedOfWhole(t, d, "e" + x);
    ExponentValue(d, x);
  }

  /** A text starting with a letter (other than the I of Infinity) is NaN. */
  lemma NumberOfWord(s: string)
    requires s != [] && (('a' <= s[0] <= 'z') || ('A' <= s[0] <= 'Z' && s[0] != 'I'))
    ensures StringToNumber(s) == None
  {
    TrimEndPrefix(s);
    var t := Trim(s);
    assert t[0] == s[0];
    assert t != "Infinity";
    assert LeadingDigits(t) == 0;
    assert t[0..] == t;
  }

  lemma MulMono(p: nat, a: nat, b: nat)
    requires a <= b
    ensures p * a <= p * b
  {
  }

  lemma DivPlus(n: nat, p: nat, r: nat)
    requires 0 <= r < p
    ensures (n * p + r) / p == n
  {
    var a := n * p + r;
    var q := a / p;
    assert a == p * q + a % p;
    if q > n {
      assert p * (n + 1) == p * n + p;
      MulMono(p, n + 1, q);
    } else if q < n {
      assert p * (q + 1) == p * q + p;
      MulMono(p, q + 1, n);
    }
  }

  /** Date.UTC takes a digit string as its value, and the digit string minus one as one less. */
  lemma DigitsArgument(d: string)
    requires d != [] && AllDigits(d)
    ensures DateArgument(StringToNumber(d)) == Some(DigitsValue(d))
    ensures DateArgument(MinusOne(StringToNumber(d))) == Some(DigitsValue(d) - 1)
  {
    NumberOfDigits(d);
    WholeArgument(StringToNumber(d), DigitsValue(d));
  }

  /** Date.UTC takes a whole number as it is. */
  lemma WholeArgument(v: Option<Numeric>, n: int)
    requires v == Some(Finite(n, 0))
    ensures DateArgument(v) == Some(n) && DateArgument(MinusOne(v)) == Some(n - 1)
  {
  }

  /** Date.UTC drops the fraction of a non-negative argument. */
  lemma TruncateFraction(n: nat, f: string)
    requires AllDigits(f)
    ensures DateArgument(Some(Finite(n * Pow10(|f|) + DigitsValue(f), -|f|))) == Some(n)
  {
    if f != [] {
      DigitsBelow(f);
      DivPlus(n, Pow10(|f|), DigitsValue(f));
    }
  }

  /** Date.UTC takes digits, a point and more digits as the whole part. */
  lemma FractionArgument(i: string, f: string)
    requires i != [] && AllDigits(i) && AllDigits(f)
    ensures DateArgument(StringToNumber(i + "." + f)) == Some(DigitsValue(i))
  {
    NumberOfFraction(i, f);
    TruncateFraction(DigitsValue(i), f);
  }

  // ---------------------------------------------------------------------
  // parseInt(s, 10)

  /** parseInt(s, 10): skip white space, take an optional sign and the digits after it; no digit is NaN. */
  function ParseInt(s: string): Option<int> {
    ParseSigned(TrimStart(s))
  }

  function ParseSigned(t: string): Option<int> {
    var negative := |t| > 0 && t[0] == '-';
    var u := if |t| > 0 && (t[0] == '-' || t[0] == '+') then t[1..] else t;
    var k := LeadingDigits(u);
    if k == 0 then None
    else if negative then Some(0 - DigitsValue(u[..k]))
    else Some(DigitsValue(u[..k]))
  }

  /** parseInt reads back the decimal form of a number, and stops at the first character that is not a digit. */
  lemma ParseIntDecimal(n: nat, rest: string)
    requires rest == [] || !IsDigit(rest[0])
    ensures ParseInt(NatToString(n) + rest) == Some(n)
    ensures ParseInt("-" + NatToString(n) + rest) == Some(-(n as int))
  {
    var d := NatToString(n);
    DigitsThenOther(d, rest);
    DigitRun(d, rest, n);
    NegativeText("-" + d + rest, d, rest, n);
  }

  lemma DigitRun(d: string, rest: string, n: nat)
    requires |d| > 0 && AllDigits(d) && DigitsValue(d) == n && LeadingDigits(d + rest) == |d|
    ensures ParseInt(d + rest) == Some(n)
  {
    var t := d + rest;
    assert t[..|d|] == d;
    assert IsDigit(t[0]);
    Untrimmed(t);
  }

  lemma NegativeText(m: string, d: string, rest: string, n: nat)
    requires m == "-" + d + rest && |d| > 0 && AllDigits(d) && DigitsValue(d) == n && LeadingDigits(d + rest) == |d|
    ensures ParseInt(m) == Some(-(n as int))
  {
    var t := d + rest;
    assert m[0] == '-' && m[1..] == t;
    assert t[..|d|] == d;
    Untrimmed(m);
  }

  /** A text that starts with no white space is parsed as it is. */
  lemma Untrimmed(t: string)
    requires |t| > 0 && !IsJsSpace(t[0])
    ensures ParseInt(t) == ParseSigned(t)
  {
  }

  /** Leading white space is skipped. */
  lemma ParseIntSkipsSpace(c: char, s: string)
    requires IsJsSpace(c)
    ensures ParseInt([c] + s) == ParseInt(s)
  {
    assert ([c] + s)[1..] == s;
  }

  /** A text without digits is not a number. */
  lemma ParseIntNoDigits(s: string)
    requires forall i :: 0 <= i < |s| ==> !IsDigit(s[i])
    ensures ParseInt(s) == None
  {
    var t := TrimStart(s);
    TrimStartSuffix(s);
    assert forall i :: 0 <= i < |t| ==> t[i] == s[|s| - |t| + i];
  }
}
