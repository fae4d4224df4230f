// printf's decimal conversions and the strtol family that reads them back.
module Decimal {
  import opened Text
  import opened Words

  function Digit(d: nat): char
    requires d < 10
  {
    '0' + d as char
  }

  // %u
  function Dec(n: nat): (s: string)
    ensures s != ""
  {
    if n < 10 then [Digit(n)] else Dec(n / 10) + [Digit(n % 10)]
  }

  // %d
  function DecInt(i: int): (s: string)
    ensures s != ""
  {
    if i < 0 then "-" + Dec(-i) else Dec(i)
  }

  function DigitValue(c: char): int {
    if '0' <= c <= '9' then (c - '0') as int
    else if 'a' <= c <= 'z' then (c - 'a') as int + 10
    else if 'A' <= c <= 'Z' then (c - 'A') as int + 10
    else 99
  }

  // The number the leading digits of s spell after the digits already read.
  function ReadDigits(s: string, base: nat, sofar: nat): nat
    decreases |s|
  {
    if s == "" || DigitValue(s[0]) >= base then sofar
    else ReadDigits(s[1..], base, sofar * base + DigitValue(s[0]))
  }

  predicate IsSpace(c: char) { c in " \t\n\r" || c == 11 as char || c == 12 as char }

  function SkipSpace(s: string): string
    decreases |s|
  {
    if s != "" && IsSpace(s[0]) then SkipSpace(s[1..]) else s
  }

  // Base 0 takes the base from a 0x or 0 prefix.
  function ReadMagnitude(s: string, base: nat): nat {
    if base == 0 then
      if |s| >= 3 && s[0] == '0' && (s[1] == 'x' || s[1] == 'X') && DigitValue(s[2]) < 16
      then ReadDigits(s[2..], 16, 0)
      else if s != "" && s[0] == '0' then ReadDigits(s, 8, 0)
      else ReadDigits(s, 10, 0)
    else ReadDigits(s, base, 0)
  }

  function ReadSigned(s: string, base: nat): int {
    var t := SkipSpace(s);
    if t != "" && t[0] == '-' then 0 - ReadMagnitude(t[1..], base)
    else if t != "" && t[0] == '+' then ReadMagnitude(t[1..], base)
    else ReadMagnitude(t, base)
  }

  // strtol and strtoul saturate at 64 bits; strtoul negates a "-" number modulo 2^64.
  function StrToL(s: string, base: nat): int {
    var v := ReadSigned(s, base);
    if v > 0x7FFF_FFFF_FFFF_FFFF then 0x7FFF_FFFF_FFFF_FFFF
    else if v < -0x8000_0000_0000_0000 then -0x8000_0000_0000_0000
    else v
  }

  function StrToUL(s: string, base: nat): nat {
    var v := ReadSigned(s, base);
    if v > 0xFFFF_FFFF_FFFF_FFFF || v < -0xFFFF_FFFF_FFFF_FFFF then 0xFFFF_FFFF_FFFF_FFFF
    else v % 0x1_0000_0000_0000_0000
  }

  // The cast to int.
  function ToI32(v: int): i32 {
    (v + 0x8000_0000) % 0x1_0000_0000 - 0x8000_0000
  }

  function Atoi(s: string): i32 { ToI32(StrToL(s, 10)) }

  // ---- reading back what was printed ----

  lemma {:induction false} ReadAppended(s: string, c: char, base: nat, sofar: nat)
    requires DigitValue(c) < base && forall d <- s :: DigitValue(d) < base
    ensures ReadDigits(s + [c], base, sofar) == ReadDigits(s, base, sofar) * base + DigitValue(c)
    decreases |s|
  {
    if s == "" {
      assert (s + [c])[1..] == "";
    } else {
      ReadAppended(s[1..], c, base, sofar * base + DigitValue(s[0]));
      assert (s + [c])[1..] == s[1..] + [c];
    }
  }

  lemma {:induction false} DecDigits(n: nat)
    ensures forall d <- Dec(n) :: '0' <= d <= '9'
    ensures n > 0 ==> Dec(n)[0] != '0'
  {
    if n >= 10 {
      DecDigits(n / 10);
    }
  }

  lemma {:induction false} ReadDec(n: nat)
    ensures ReadDigits(Dec(n), 10, 0) == n
  {
    DecDigits(n);
    if n >= 10 {
      ReadDec(n / 10);
      DecDigits(n / 10);
      ReadAppended(Dec(n / 10), Digit(n % 10), 10, 0);
    }
  }

  lemma ReadMagnitudeDec(n: nat, base: nat)
    requires base == 0 || base == 10
    ensures ReadMagnitude(Dec(n), base) == n
  {
    DecDigits(n);
    ReadDec(n);
    if n == 0 {
      assert Dec(0) == ['0'] && Dec(0)[1..] == "";
    }
  }

  // Printing in decimal and reading with base 10 or 0 is the identity.
  lemma ReadSignedDecInt(i: int, base: nat)
    requires base == 0 || base == 10
    ensures ReadSigned(DecInt(i), base) == i
  {
    if i < 0 {
      ReadMagnitudeDec(-i, base);
      assert DecInt(i)[1..] == Dec(-i);
    } else {
      DecDigits(i);
      ReadMagnitudeDec(i, base);
    }
  }

  lemma AtoiDecInt(i: i32)
    ensures Atoi(DecInt(i)) == i
  {
    ReadSignedDecInt(i, 10);
  }

  // Printed numbers contain no separator and have bounded length.
  lemma {:induction false} DecIntPlain(i: int)
    ensures forall c <- DecInt(i) :: c == '-' || '0' <= c <= '9'
  {
    DecDigits(if i < 0 then -i else i);
  }

  function Pow10(k: nat): (p: nat)
    ensures p > 0
  {
    if k == 0 then 1 else 10 * Pow10(k - 1)
  }

  lemma {:induction false} DecLength(n: nat, k: nat)
    requires k > 0 && n < Pow10(k)
    ensures |Dec(n)| <= k
  {
    if n >= 10 {
      DecLength(n / 10, k - 1);
    }
  }

  lemma DecIntLength(i: int)
    requires -0x1_0000_0000_0000_0000 < i < 0x1_0000_0000_0000_0000
    ensures |DecInt(i)| <= 21
  {
    assert Pow10(20) == 10000000000 * Pow10(10);
    DecLength(if i < 0 then -i else i, 20);
  }
}
