/**
 The C library's number scanning and printing, as far as the parsers and printers of
 dpdk-nfs/nf-util.c and dpdk-nfs/nf-parse.c use it: strtoimax (sections 7.8.2.3 and 7.22.1.4
 of ISO C11), sscanf conversions (7.21.6.2) and snprintf (7.21.6.5).

 A string is its characters; reading at its length gives the terminator.
 */
module CText {

  const INTMAX_MAX: nat := 0x7fff_ffff_ffff_ffff
  const INTMAX_MIN: int := -0x8000_0000_0000_0000
  const UINTMAX_MAX: nat := 0xffff_ffff_ffff_ffff

  function CharAt(s: string, i: nat): char {
    if i < |s| then s[i] else '\0'
  }

  predicate IsSpace(c: char) {
    c == ' ' || ('\t' <= c <= '\r')
  }

  predicate IsDigit(c: char) {
    '0' <= c <= '9'
  }

  /** The value of a letter or digit as a digit, and 36 for any other character. */
  function DigitOf(c: char): nat {
    if IsDigit(c) then c as nat - '0' as nat
    else if 'a' <= c <= 'z' then c as nat - 'a' as nat + 10
    else if 'A' <= c <= 'Z' then c as nat - 'A' as nat + 10
    else 36
  }

  /** A digit of a number in the given base. */
  predicate IsDigitIn(c: char, base: nat) {
    DigitOf(c) < base && DigitOf(c) < 36
  }

  /** The bases strtoimax takes: 0 stands for the one the text announces. */
  predicate ValidBase(base: nat) {
    base == 0 || 2 <= base <= 36
  }

  function SkipSpace(s: string, i: nat): (r: nat)
    ensures r >= i
    decreases |s| - i
  {
    if i < |s| && IsSpace(s[i]) then SkipSpace(s, i + 1) else i
  }

  /** The end of the digits that start at i. */
  function DigitsEnd(s: string, i: nat, base: nat): (e: nat)
    ensures e >= i && (i <= |s| ==> e <= |s|)
    decreases |s| - i
  {
    if i < |s| && IsDigitIn(s[i], base) then DigitsEnd(s, i + 1, base) else i
  }

  function Value(s: string, i: nat, e: nat, base: nat): nat {
    if e <= i then 0 else base * Value(s, i, e - 1, base) + DigitOf(CharAt(s, e - 1))
  }

  /** Where a number may start at i: past white space and a sign. */
  function NumberStart(s: string, i: nat): nat {
    var j := SkipSpace(s, i);
    if CharAt(s, j) == '+' || CharAt(s, j) == '-' then j + 1 else j
  }

  predicate IsNegative(s: string, i: nat) {
    CharAt(s, SkipSpace(s, i)) == '-'
  }

  /** 0x in front of a hexadecimal digit, in base 16 or where the text announces the base. */
  predicate HasHexPrefix(s: string, d: nat, base: nat) {
    && (base == 0 || base == 16)
    && CharAt(s, d) == '0' && (CharAt(s, d + 1) == 'x' || CharAt(s, d + 1) == 'X')
    && IsDigitIn(CharAt(s, d + 2), 16)
  }

  /** The base in which digits are read from d on. */
  function EffectiveBase(s: string, d: nat, base: nat): nat {
    if base != 0 then base
    else if HasHexPrefix(s, d, base) then 16
    else if CharAt(s, d) == '0' then 8
    else 10
  }

  /** strtoimax(s + i, &end, base): value and end; the end is i when there is no number. */
  function Strtoimax(s: string, i: nat, base: nat): (int, nat) {
    var n := NumberStart(s, i);
    var b := EffectiveBase(s, n, base);
    var d := if HasHexPrefix(s, n, base) then n + 2 else n;
    var e := DigitsEnd(s, d, b);
    if e == d then (0, i)
    else
      var v: int := Value(s, d, e, b);
      (if IsNegative(s, i) then (if -v < INTMAX_MIN then INTMAX_MIN else -v)
       else (if v > INTMAX_MAX then INTMAX_MAX else v), e)
  }

  /** A signed value stored in a uintmax_t. */
  function Stored(v: int): nat {
    v % (UINTMAX_MAX + 1)
  }

  lemma StoredNatural(v: nat)
    requires v <= UINTMAX_MAX
    ensures Stored(v) == v
  {
  }

  // ---------- numerals ----------

  function Digit(n: nat): (c: char)
    requires n < 36
    ensures DigitOf(c) == n && (c == '0' <==> n == 0)
  {
    if n < 10 then '0' + n as char else 'a' + (n - 10) as char
  }

  lemma TimesTwo(base: nat, q: nat)
    requires base >= 2
    ensures base * q >= 2 * q
  {
    assert (base - 2) * q >= 0;
  }

  lemma Quotient(n: nat, base: nat, q: int, r: int)
    requires base >= 2 && n == base * q + r && 0 <= r < base
    ensures 0 <= q && (n >= base ==> 0 < q < n)
  {
    if q >= 0 {
      TimesTwo(base, q);
      if q == 0 { assert base * q == 0; }
    }
  }

  lemma DivMod(n: nat, base: nat)
    requires base >= 2
    ensures n == base * (n / base) + n % base && n % base < base
    ensures n >= base ==> 0 < n / base < n
  {
    Quotient(n, base, n / base, n % base);
  }

  /** The text of n in the given base. */
  function Numeral(n: nat, base: nat): (r: string)
    requires 2 <= base <= 36
    ensures r != []
    decreases n
  {
    if n < base then [Digit(n)]
    else
      DivMod(n, base);
      Numeral(n / base, base) + [Digit(n % base)]
  }

  function Decimal(n: nat): (r: string)
    ensures r != []
  {
    Numeral(n, 10)
  }

  lemma {:induction false} NumeralDigits(n: nat, base: nat)
    requires 2 <= base <= 36
    ensures forall k :: 0 <= k < |Numeral(n, base)| ==> IsDigitIn(Numeral(n, base)[k], base)
    ensures Numeral(n, base)[0] == '0' <==> n == 0
    ensures n == 0 ==> Numeral(n, base) == ['0']
    decreases n
  {
    if n >= base {
      DivMod(n, base);
      NumeralDigits(n / base, base);
    }
  }

  /** The text of n stands in s at i. */
  ghost predicate At(s: string, i: nat, t: string) {
    i + |t| <= |s| && forall k :: 0 <= k < |t| ==> s[i + k] == t[k]
  }

  /** The parts of a text that stands in s stand there one after the other. */
  lemma AtPrefix(s: string, i: nat, t: string, u: string)
    requires At(s, i, t + u)
    ensures At(s, i, t) && At(s, i + |t|, u)
  {
    forall k | 0 <= k < |t|
      ensures s[i + k] == t[k]
    {
      assert (t + u)[k] == t[k];
    }
    forall k | 0 <= k < |u|
      ensures s[i + |t| + k] == u[k]
    {
      assert s[i + (|t| + k)] == (t + u)[|t| + k];
    }
  }

  lemma AtChar(s: string, i: nat, c: char)
    requires At(s, i, [c])
    ensures i < |s| && s[i] == c
  {
    assert s[i + 0] == [c][0];
  }

  lemma AtDigits(s: string, i: nat, n: nat, base: nat)
    requires 2 <= base <= 36 && At(s, i, Numeral(n, base))
    ensures forall k :: i <= k < i + |Numeral(n, base)| ==> IsDigitIn(CharAt(s, k), base)
    ensures CharAt(s, i) == '0' <==> n == 0
  {
    var t := Numeral(n, base);
    NumeralDigits(n, base);
    forall k | i <= k < i + |t|
      ensures CharAt(s, k) == t[k - i]
    {
      assert s[i + (k - i)] == t[k - i];
    }
  }

  lemma {:induction false} NumeralValue(s: string, i: nat, n: nat, base: nat)
    requires 2 <= base <= 36 && At(s, i, Numeral(n, base))
    ensures Value(s, i, i + |Numeral(n, base)|, base) == n
    decreases n
  {
    if n >= base {
      DivMod(n, base);
      AtPrefix(s, i, Numeral(n / base, base), [Digit(n % base)]);
      NumeralValue(s, i, n / base, base);
      AtChar(s, i + |Numeral(n / base, base)|, Digit(n % base));
    } else {
      AtChar(s, i, Digit(n));
      assert Value(s, i, i, base) == 0;
      assert base * 0 == 0;
    }
  }

  lemma {:induction false} DigitsEndIs(s: string, i: nat, e: nat, base: nat)
    requires i <= e <= |s| && (forall k :: i <= k < e ==> IsDigitIn(CharAt(s, k), base))
    requires !IsDigitIn(CharAt(s, e), base)
    ensures DigitsEnd(s, i, base) == e
    decreases e - i
  {
    if i < e {
      assert IsDigitIn(CharAt(s, i), base);
      DigitsEndIs(s, i + 1, e, base);
    }
  }

  /** A number that starts with a digit has neither space nor sign. */
  lemma NoSign(s: string, i: nat)
    requires IsDigitIn(CharAt(s, i), 36)
    ensures NumberStart(s, i) == i && !IsNegative(s, i) && i < |s|
  {
  }

  /** Scanning the decimal text of a natural number, up to a non-digit. */
  lemma ScanDecimal(s: string, i: nat, n: nat)
    requires At(s, i, Decimal(n)) && !IsDigitIn(CharAt(s, i + |Decimal(n)|), 10)
    ensures NumberStart(s, i) == i && !IsNegative(s, i) && DigitsEnd(s, i, 10) == i + |Decimal(n)|
    ensures Value(s, i, DigitsEnd(s, i, 10), 10) == n
  {
    AtDigits(s, i, n, 10);
    NumeralValue(s, i, n, 10);
    DigitsEndIs(s, i, i + |Decimal(n)|, 10);
    NoSign(s, i);
  }

  /** The base in which numerals for strtoimax are written: decimal where the text announces it. */
  function TextBase(base: nat): (b: nat)
    requires ValidBase(base)
    ensures 2 <= b <= 36
  {
    if base == 0 then 10 else base
  }

  /** The base in which the numeral of n is read: a lone 0 announces octal. */
  function ReadingBase(base: nat, n: nat): nat {
    if base != 0 then base else if n == 0 then 8 else 10
  }

  function Clamp(n: nat): nat {
    if n > INTMAX_MAX then INTMAX_MAX else n
  }

  lemma ReadingDigits(s: string, i: nat, n: nat, base: nat)
    requires ValidBase(base) && At(s, i, Numeral(n, TextBase(base)))
    ensures forall k :: i <= k < i + |Numeral(n, TextBase(base))| ==> IsDigitIn(CharAt(s, k), ReadingBase(base, n))
    ensures Value(s, i, i + |Numeral(n, TextBase(base))|, ReadingBase(base, n)) == n
    ensures CharAt(s, i) == '0' <==> n == 0
    ensures n == 0 ==> |Numeral(n, TextBase(base))| == 1
  {
    AtDigits(s, i, n, TextBase(base));
    NumeralValue(s, i, n, TextBase(base));
    NumeralDigits(n, TextBase(base));
    if n == 0 {
      assert Value(s, i, i, 8) == 0;
      assert 8 * 0 == 0;
    }
  }

  /** Reading the numeral of n, with no hexadecimal prefix and up to a character that is no
      digit in the base it is read in. */
  lemma ScanNumeral(s: string, i: nat, n: nat, base: nat)
    requires ValidBase(base) && At(s, i, Numeral(n, TextBase(base))) && !HasHexPrefix(s, i, base)
    requires !IsDigitIn(CharAt(s, i + |Numeral(n, TextBase(base))|), ReadingBase(base, n))
    ensures Strtoimax(s, i, base) == (Clamp(n), i + |Numeral(n, TextBase(base))|)
  {
    var e := i + |Numeral(n, TextBase(base))|;
    ReadingDigits(s, i, n, base);
    assert IsDigitIn(CharAt(s, i), ReadingBase(base, n));
    NoSign(s, i);
    DigitsEndIs(s, i, e, ReadingBase(base, n));
  }

  /** snprintf into a buffer of `size` bytes: the text that fits before the terminator. */
  function Snprintf(size: nat, text: string): string
    requires size > 0
  {
    if |text| < size then text else text[..size - 1]
  }
}
