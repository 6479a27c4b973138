/** Numbers in the text of a symbol: `strtol` into an `int`, and `sprintf` back.  A long has 64 bits. */
module Numbers {
  const INT_SIZE: int := 0x1_0000_0000
  const INT_HALF: int := 0x8000_0000
  const LONG_HALF: int := 0x8000_0000_0000_0000

  const DIGITS := "0123456789abcdef"

  function DigitOf(c: char): nat {
    if '0' <= c <= '9' then c as nat - '0' as nat
    else if 'a' <= c <= 'z' then c as nat - 'a' as nat + 10
    else if 'A' <= c <= 'Z' then c as nat - 'A' as nat + 10
    else 36
  }

  predicate IsSpace(c: char) { c == ' ' || 9 as char <= c <= 13 as char }

  function SkipSpaces(s: string): string { if s != "" && IsSpace(s[0]) then SkipSpaces(s[1..]) else s }

  /** The digits at the front of s, behind digits with the value `before`. */
  function Digits(s: string, base: nat, before: nat): nat {
    if s == "" || DigitOf(s[0]) >= base then before else Digits(s[1..], base, before * base + DigitOf(s[0]))
  }

  function SkipPrefix(s: string, base: nat): string {
    if base == 16 && |s| >= 2 && s[0] == '0' && (s[1] == 'x' || s[1] == 'X') then s[2..] else s
  }

  /** `strtol`: spaces, a sign, the prefix of a hexadecimal number and digits, if they are there. */
  function Strtol(s: string, base: nat): int {
    var t := SkipSpaces(s);
    var minus := t != "" && t[0] == '-';
    var digits := if t != "" && (t[0] == '-' || t[0] == '+') then t[1..] else t;
    var n: int := Digits(SkipPrefix(digits, base), base, 0);
    if minus then (if n > LONG_HALF then -LONG_HALF else -n) else if n >= LONG_HALF then LONG_HALF - 1 else n
  }

  /** The conversion to an int. */
  function ToInt(x: int): int { (x + INT_HALF) % INT_SIZE - INT_HALF }

  function Number(s: string, base: nat): (n: int)
    ensures -INT_HALF <= n < INT_HALF
  {
    ToInt(Strtol(s, base))
  }

  // ---------------------------------------------------------------- printing

  function Unsigned(n: nat, base: nat): (s: string)
    requires 2 <= base <= 16
    ensures s != ""
  {
    if n < base then [DIGITS[n]]
    else
      QuotientSmaller(n, base);
      Unsigned(n / base, base) + [DIGITS[n % base]]
  }

  lemma QuotientSmaller(n: nat, base: nat)
    requires 2 <= base <= n
    ensures 0 <= n / base < n
  {
  }

  /** `%d` */
  function Decimal(n: int): string { if n < 0 then "-" + Unsigned(-n, 10) else Unsigned(n, 10) }

  /** `0x%x` */
  function Hexadecimal(n: int): string { "0x" + Unsigned(n % INT_SIZE, 16) }

  /** A digit, and nothing that `strtol` looks for in front of the digits. */
  predicate PlainDigit(c: char, base: nat) {
    DigitOf(c) < base && !IsSpace(c) && c != '-' && c != '+' && c != 'x' && c != 'X'
  }

  predicate PlainDigits(s: string, base: nat) { forall i :: 0 <= i < |s| ==> PlainDigit(s[i], base) }

  lemma DigitsOfAll(d: nat, base: nat)
    requires d < base <= 16
    ensures DigitOf(DIGITS[d]) == d && PlainDigit(DIGITS[d], base)
  {
  }

  lemma {:induction false} DigitsAppend(s: string, c: char, base: nat, before: nat)
    requires PlainDigits(s, base) && DigitOf(c) < base
    ensures Digits(s + [c], base, before) == Digits(s, base, before) * base + DigitOf(c)
  {
    if s == "" {
      assert (s + [c])[1..] == "";
    } else {
      assert (s + [c])[1..] == s[1..] + [c];
      assert PlainDigit(s[0], base);
      DigitsAppend(s[1..], c, base, before * base + DigitOf(s[0]));
    }
  }

  lemma Quotient(n: nat, base: nat)
    requires 2 <= base <= 16
    ensures n == n / base * base + n % base && (n >= base ==> 0 < n / base < n)
  {
  }

  lemma {:induction false} UnsignedDigits(n: nat, base: nat)
    requires 2 <= base <= 16
    ensures var s := Unsigned(n, base); s != "" && Digits(s, base, 0) == n && PlainDigits(s, base)
  {
    Quotient(n, base);
    DigitsOfAll(n % base, base);
    if n < base {
      OneDigit(n, base);
    } else {
      UnsignedDigits(n / base, base);
      DigitsAppend(Unsigned(n / base, base), DIGITS[n % base], base, 0);
    }
  }

  lemma OneDigit(n: nat, base: nat)
    requires 2 <= base <= 16 && n < base
    ensures Unsigned(n, base) == [DIGITS[n]] && Digits([DIGITS[n]], base, 0) == n && PlainDigits([DIGITS[n]], base)
  {
    DigitsOfAll(n, base);
    assert [DIGITS[n]][1..] == "";
  }

  lemma ToIntSmall(n: int)
    requires -INT_HALF <= n < INT_HALF
    ensures ToInt(n) == n && ToInt(n % INT_SIZE) == n
  {
  }

  /** An int printed in decimal is read back. */
  lemma NumberDecimal(n: int)
    requires -INT_HALF <= n < INT_HALF
    ensures Number(Decimal(n), 10) == n
  {
    var d := Unsigned(if n < 0 then -n else n, 10);
    UnsignedDigits(if n < 0 then -n else n, 10);
    ToIntSmall(n);
    assert PlainDigit(d[0], 10);
    if n < 0 {
      assert Decimal(n)[1..] == d && SkipSpaces(Decimal(n)) == Decimal(n);
    } else {
      assert SkipSpaces(d) == d;
    }
  }

  /** So is one printed in hexadecimal, negative ones by their 32 bits. */
  lemma NumberHexadecimal(n: int)
    requires -INT_HALF <= n < INT_HALF
    ensures Number(Hexadecimal(n), 16) == n
  {
    UnsignedDigits(n % INT_SIZE, 16);
    ToIntSmall(n);
    assert Hexadecimal(n)[2..] == Unsigned(n % INT_SIZE, 16) && SkipSpaces(Hexadecimal(n)) == Hexadecimal(n);
  }

  /** A printed number other than 0 has no leading zero. */
  lemma {:induction false} UnsignedLeading(n: nat, base: nat)
    requires 2 <= base <= 16
    ensures Unsigned(n, base)[0] == '0' <==> n == 0
    ensures n == 0 ==> |Unsigned(n, base)| == 1
  {
    Quotient(n, base);
    if n >= base { UnsignedLeading(n / base, base); }
  }

  // ---------------------------------------------------------------- what else is read as a number

  /** Spaces in front do not count. */
  lemma SpacesSkipped(c: char, s: string, base: nat)
    requires IsSpace(c)
    ensures Number([c] + s, base) == Number(s, base)
  {
    assert ([c] + s)[1..] == s;
  }

  /** A text that goes on behind a number. */
  ghost predicate Behind(rest: string, base: nat) {
    (base == 10 || base == 16) && (rest != "" ==> DigitOf(rest[0]) >= base && rest[0] != 'x' && rest[0] != 'X')
  }

  lemma NumberRead(n: nat, rest: string, base: nat)
    requires Behind(rest, base)
    ensures var t := Unsigned(n, base) + rest;
            Digits(SkipPrefix(t, base), base, 0) == n && SkipSpaces(t) == t && t[0] != '-' && t[0] != '+'
  {
    var d := Unsigned(n, base);
    var t := d + rest;
    UnsignedDigits(n, base);
    assert PlainDigit(d[0], base) && t[0] == d[0];
    if |d| > 1 { assert PlainDigit(d[1], base) && t[1] == d[1]; }
    if |d| == 1 && rest != "" { assert t[1] == rest[0]; }
    assert SkipPrefix(t, base) == t;
    DigitsThen(d, rest, base, 0);
  }

  /** A sign in front counts, and anything behind the digits does not; what is too large ends at the limits. */
  lemma SignAndRest(n: nat, rest: string, base: nat)
    requires Behind(rest, base)
    ensures Strtol(Unsigned(n, base) + rest, base) == if n >= LONG_HALF then LONG_HALF - 1 else n
    ensures Strtol("+" + (Unsigned(n, base) + rest), base) == if n >= LONG_HALF then LONG_HALF - 1 else n
    ensures Strtol("-" + (Unsigned(n, base) + rest), base) == if n > LONG_HALF then -LONG_HALF else -(n as int)
  {
    var t := Unsigned(n, base) + rest;
    NumberRead(n, rest, base);
    assert ("+" + t)[1..] == t && ("-" + t)[1..] == t;
    assert SkipSpaces("+" + t) == "+" + t && SkipSpaces("-" + t) == "-" + t;
  }

  lemma {:induction false} DigitsThen(s: string, rest: string, base: nat, before: nat)
    requires PlainDigits(s, base) && (rest != "" ==> DigitOf(rest[0]) >= base)
    ensures Digits(s + rest, base, before) == Digits(s, base, before)
  {
    if s == "" {
      assert s + rest == rest;
    } else {
      assert PlainDigit(s[0], base) && (s + rest)[0] == s[0] && (s + rest)[1..] == s[1..] + rest;
      DigitsThen(s[1..], rest, base, before * base + DigitOf(s[0]));
    }
  }

  /** Without digits it is 0. */
  lemma NoDigits(s: string, base: nat)
    requires (base == 10 || base == 16) && (s == "" || (DigitOf(s[0]) >= base && !IsSpace(s[0]) && s[0] != '-' && s[0] != '+'))
    ensures Number(s, base) == 0
  {
  }

  /** The conversion keeps the 32 lowest bits. */
  lemma ToIntWraps(x: int)
    ensures -INT_HALF <= ToInt(x) < INT_HALF && (x - ToInt(x)) % INT_SIZE == 0
  {
  }
}
