// Fixed-width words, little-endian byte strings and the arithmetic shared by
// the binary formats and the ring buffer.
module Words {
  const TWO32: int := 0x1_0000_0000
  const TWO64: int := 0x1_0000_0000_0000_0000

  type byte = x: int | 0 <= x < 0x100
  type u16 = x: int | 0 <= x < 0x1_0000
  type u32 = x: int | 0 <= x < TWO32
  type u64 = x: int | 0 <= x < TWO64
  type Bytes = seq<byte>
  type i32 = x: int | -0x8000_0000 <= x < 0x8000_0000

  function Min(a: int, b: int): int { if a < b then a else b }

  function Max(a: int, b: int): int { if a > b then a else b }

  lemma Regroup<T>(a: seq<T>, b: seq<T>, c: seq<T>)
    ensures a + (b + c) == a + b + c
  {
  }

  // ---- division with remainder ----

  // A multiple of c lies in (-c, c) only if it is zero.
  lemma SmallMultiple(d: int, c: int)
    requires c > 0
    ensures -c < d * c < c <==> d == 0
  {
    if d >= 1 {
      assert d * c >= c by { assert (d - 1) * c >= 0; }
    } else if d <= -1 {
      assert d * c <= -c by { assert (-d - 1) * c >= 0; }
    }
  }

  lemma MulMonotone(p: int, q: int, t: nat)
    requires p <= q
    ensures p * t <= q * t
  {
    assert (q - p) * t >= 0;
  }

  lemma MulCancel(p: int, q: int, t: nat)
    requires p * t < q * t
    ensures p < q
  {
    assert q <= p ==> (p - q) * t >= 0;
  }

  lemma DivModUnique(a: int, c: int, q: int, r: int)
    requires 0 <= r < c && a == q * c + r
    ensures a / c == q && a % c == r
  {
    var d := a / c - q;
    assert d * c == r - a % c by {
      assert a == (a / c) * c + a % c;
      assert d * c == (a / c) * c - q * c;
    }
    SmallMultiple(d, c);
  }

  // Reducing modulo a multiple of c first does not change the remainder by c.
  lemma ModOfMod(a: int, c: int, k: int)
    requires c > 0 && k > 0
    ensures k * c > 0
    ensures (a % (k * c)) % c == a % c
  {
    assert k * c > 0 by { assert (k - 1) * c >= 0; }
    var m := k * c;
    var inner := a % m;
    MulAssoc(a / m, k, c);
    MulAdd((a / m) * k, inner / c, c);
    DivModUnique(a, c, (a / m) * k + inner / c, inner % c);
  }

  lemma MulAssoc(a: int, b: int, c: int)
    ensures a * (b * c) == (a * b) * c
  {
  }

  lemma MulAdd(a: int, b: int, c: int)
    ensures (a + b) * c == a * c + b * c
  {
  }

  // Two positions less than c apart fall on different cells of a c-cell ring.
  lemma ModApart(a: int, b: int, c: int)
    requires c > 0 && a < b < a + c
    ensures a % c != b % c
  {
    var d := b / c - a / c;
    assert b - a == d * c + b % c - a % c by {
      assert a == (a / c) * c + a % c;
      assert b == (b / c) * c + b % c;
      assert d * c == (b / c) * c - (a / c) * c;
    }
    SmallMultiple(d, c);
  }

  // (a + j) % c splits at the wrap of the ring.
  lemma ModSplit(a: nat, j: nat, c: nat)
    requires c > 0 && j <= c
    ensures a % c + j < c ==> (a + j) % c == a % c + j
    ensures c <= a % c + j < 2 * c ==> (a + j) % c == a % c + j - c
  {
    var q := a / c;
    assert a == q * c + a % c;
    if a % c + j < c {
      DivModUnique(a + j, c, q, a % c + j);
    } else if a % c + j < 2 * c {
      assert a + j == (q + 1) * c + (a % c + j - c) by {
        assert (q + 1) * c == q * c + c;
      }
      DivModUnique(a + j, c, q + 1, a % c + j - c);
    }
  }

  // ---- bitwise and ----

  function Pow2(k: nat): (p: nat)
    ensures p > 0
  {
    if k == 0 then 1 else 2 * Pow2(k - 1)
  }

  // The C operator & on non-negative words, bit by bit.
  function And(x: nat, y: nat): nat
    decreases x
  {
    if x == 0 || y == 0 then 0
    else 2 * And(x / 2, y / 2) + if x % 2 == 1 && y % 2 == 1 then 1 else 0
  }

  lemma ModDouble(x: nat, m: nat)
    requires m > 0
    ensures x % (2 * m) == 2 * ((x / 2) % m) + x % 2
  {
    var h := x / 2;
    var q := h / m;
    assert h == q * m + h % m;
    assert x == 2 * h + x % 2;
    assert x == q * (2 * m) + (2 * (h % m) + x % 2) by {
      assert 2 * (q * m) == q * (2 * m);
    }
    DivModUnique(x, 2 * m, q, 2 * (h % m) + x % 2);
  }

  // Masking with 2^k - 1 takes the remainder by 2^k.
  lemma {:induction false} AndMask(x: nat, k: nat)
    ensures And(x, Pow2(k) - 1) == x % Pow2(k)
  {
    if k == 0 {
      assert x % 1 == 0;
    } else {
      var y := Pow2(k) - 1;
      assert y / 2 == Pow2(k - 1) - 1 && y % 2 == 1;
      ModDouble(x, Pow2(k - 1));
      AndMask(x / 2, k - 1);
      if x == 0 {
        assert 0 / 2 == 0;
        assert x % Pow2(k) == 0 by { DivModUnique(0, Pow2(k), 0, 0); }
      }
    }
  }

  lemma {:induction false} Pow2Add(a: nat, b: nat)
    ensures Pow2(a + b) == Pow2(a) * Pow2(b)
  {
    if a == 0 {
      assert Pow2(0) * Pow2(b) == Pow2(b);
    } else {
      Pow2Add(a - 1, b);
      assert Pow2(a + b) == 2 * (Pow2(a - 1) * Pow2(b)) == Pow2(a) * Pow2(b);
    }
  }

  lemma Pow2Constants()
    ensures Pow2(8) == 0x100 && Pow2(16) == 0x1_0000
    ensures Pow2(31) == 0x8000_0000
    ensures Pow2(32) == TWO32 && Pow2(63) == 0x8000_0000_0000_0000 && Pow2(64) == TWO64
  {
    Pow2Bytes();
    Pow2Add(16, 16);
    Pow2Next(31);
    Pow2Wide();
  }

  lemma Pow2Bytes()
    ensures Pow2(8) == 0x100 && Pow2(16) == 0x1_0000
  {
    Pow2Add(8, 8);
  }

  lemma Pow2Wide()
    ensures Pow2(63) == 0x8000_0000_0000_0000 && Pow2(64) == TWO64
  {
    Pow2Bytes();
    Pow2Add(16, 16);
    Pow2Add(32, 32);
    Pow2Next(63);
  }

  lemma Pow2Next(k: nat)
    ensures Pow2(k + 1) == 2 * Pow2(k)
  {
  }

  lemma {:induction false} Pow2Monotone(a: nat, b: nat)
    requires a < b
    ensures 2 * Pow2(a) <= Pow2(b)
  {
    if a + 1 < b {
      Pow2Monotone(a, b - 1);
    }
  }

  // ---- little-endian byte strings ----

  function LeBytes(v: nat, n: nat): (s: seq<byte>)
    ensures |s| == n
    decreases v, n
  {
    if n == 0 then [] else [v % 0x100] + LeBytes(v / 0x100, n - 1)
  }

  function LeValue(s: seq<byte>): nat
  {
    if s == [] then 0 else s[0] + 0x100 * LeValue(s[1..])
  }

  function Pow256(n: nat): (p: nat)
    ensures p > 0
  {
    if n == 0 then 1 else 0x100 * Pow256(n - 1)
  }

  lemma Pow256Constants()
    ensures Pow256(4) == TWO32 && Pow256(8) == TWO64
  {
    assert Pow256(4) == TWO32;
    assert Pow256(8) == 0x1_0000_0000 * Pow256(4);
  }

  // Writing n little-endian bytes and reading them back keeps the value modulo 256^n.
  lemma {:induction false} LeRoundTrip(v: nat, n: nat)
    ensures LeValue(LeBytes(v, n)) == v % Pow256(n)
  {
    if n == 0 {
      assert v % 1 == 0;
    } else {
      var s := LeBytes(v, n);
      assert s[1..] == LeBytes(v / 0x100, n - 1);
      LeRoundTrip(v / 0x100, n - 1);
      LowDigit(v, Pow256(n - 1));
    }
  }

  // The remainder by 256 p from the low byte and the rest.
  lemma LowDigit(v: nat, p: nat)
    requires p > 0
    ensures v % (0x100 * p) == 0x100 * ((v / 0x100) % p) + v % 0x100
  {
    var h := v / 0x100;
    assert h == (h / p) * p + h % p;
    MulAssoc(h / p, p, 0x100);
    DivModUnique(v, 0x100 * p, h / p, 0x100 * (h % p) + v % 0x100);
  }

  lemma {:induction false} LeBytesOfValue(s: seq<byte>)
    ensures LeValue(s) < Pow256(|s|)
    ensures LeBytes(LeValue(s), |s|) == s
  {
    if s != [] {
      LeBytesOfValue(s[1..]);
      var v := LeValue(s);
      DivModUnique(v, 0x100, LeValue(s[1..]), s[0]);
    }
  }

  // What a reader of NUL-terminated bytes sees.
  function UpToNul(s: seq<byte>): (r: seq<byte>)
    ensures |r| <= |s| && 0 !in r
  {
    if s == [] || s[0] == 0 then [] else [s[0]] + UpToNul(s[1..])
  }

  lemma {:induction false} WholeIffNoNul(s: seq<byte>)
    ensures UpToNul(s) == s <==> 0 !in s
  {
    if s != [] {
      WholeIffNoNul(s[1..]);
    }
  }

  // ---- fields of a byte string ----

  // The field s lies in the file at position pos.
  predicate Holds(file: seq<byte>, pos: nat, s: seq<byte>) {
    pos + |s| <= |file| && file[pos..pos + |s|] == s
  }

  lemma HoldsParts(file: seq<byte>, pos: nat, a: seq<byte>, b: seq<byte>)
    ensures Holds(file, pos, a + b) <==> Holds(file, pos, a) && Holds(file, pos + |a|, b)
  {
    var s := a + b;
    if Holds(file, pos, s) {
      forall i | 0 <= i < |a|
        ensures file[pos..pos + |a|][i] == a[i]
      {
        assert file[pos..pos + |s|][i] == s[i];
      }
      forall i | 0 <= i < |b|
        ensures file[pos + |a|..pos + |a| + |b|][i] == b[i]
      {
        assert file[pos..pos + |s|][|a| + i] == s[|a| + i];
      }
    }
    if Holds(file, pos, a) && Holds(file, pos + |a|, b) {
      forall i | 0 <= i < |s|
        ensures file[pos..pos + |s|][i] == s[i]
      {
        if i < |a| {
          assert file[pos..pos + |a|][i] == a[i];
        } else {
          assert file[pos + |a|..pos + |a| + |b|][i - |a|] == b[i - |a|];
        }
      }
    }
  }

  lemma HoldsFour(file: seq<byte>, pos: nat, a: seq<byte>, b: seq<byte>, c: seq<byte>, d: seq<byte>)
    requires Holds(file, pos, a + (b + (c + d)))
    ensures Holds(file, pos, a) && Holds(file, pos + |a|, b)
    ensures Holds(file, pos + |a| + |b|, c) && Holds(file, pos + |a| + |b| + |c|, d)
  {
    HoldsParts(file, pos, a, b + (c + d));
    HoldsParts(file, pos + |a|, b, c + d);
    HoldsParts(file, pos + |a| + |b|, c, d);
  }

  lemma HoldsAtEnd(before: seq<byte>, s: seq<byte>)
    ensures Holds(before + s, |before|, s)
  {
  }

  lemma HoldsExtended(file: seq<byte>, pos: nat, s: seq<byte>, more: seq<byte>)
    requires Holds(file, pos, s)
    ensures Holds(file + more, pos, s)
    ensures pos + |s| == |file| ==> Holds(file + more, pos, s + more)
  {
    assert (file + more)[pos..pos + |s|] == file[pos..pos + |s|];
    if pos + |s| == |file| {
      HoldsAtEnd(file, more);
      HoldsParts(file + more, pos, s, more);
    }
  }

  lemma HoldsInside(before: seq<byte>, s: seq<byte>, after: seq<byte>)
    ensures Holds(before + s + after, |before|, s)
  {
  }

  lemma Le32RoundTrip(v: nat)
    ensures LeValue(LeBytes(v, 4)) == v % TWO32
  {
    LeRoundTrip(v, 4);
    Pow256Constants();
  }

  lemma Le64RoundTrip(v: nat)
    ensures LeValue(LeBytes(v, 8)) == v % TWO64
  {
    LeRoundTrip(v, 8);
    Pow256Constants();
  }

  // The n-byte little-endian number at a position.
  function Word(file: seq<byte>, at: nat, n: nat): nat
    requires at + n <= |file|
    decreases n, |file|
  {
    if n == 0 then 0 else file[at] + 0x100 * Word(file, at + 1, n - 1)
  }

  lemma {:induction false} WordIs(file: seq<byte>, at: nat, n: nat)
    requires at + n <= |file|
    ensures Word(file, at, n) == LeValue(file[at..at + n]) < Pow256(n)
    decreases n
  {
    LeBytesOfValue(file[at..at + n]);
    if n > 0 {
      WordIs(file, at + 1, n - 1);
      assert file[at..at + n][1..] == file[at + 1..at + n];
    }
  }

  // A copied slice has the numbers of the original.
  lemma {:induction false} WordInside(file: seq<byte>, from: nat, part: seq<byte>, at: nat, n: nat)
    requires from + |part| <= |file| && part == file[from..from + |part|] && at + n <= |part|
    ensures Word(part, at, n) == Word(file, from + at, n)
    decreases n
  {
    if n > 0 {
      WordInside(file, from, part, at + 1, n - 1);
    }
  }

  // The number some little-endian bytes spell.
  lemma WordOfBytes(file: seq<byte>, at: nat, n: nat, v: nat)
    requires at + n <= |file| && file[at..at + n] == LeBytes(v, n) && v < Pow256(n)
    ensures Word(file, at, n) == v
  {
    WordIs(file, at, n);
    LeRoundTrip(v, n);
    DivModUnique(v, Pow256(n), 0, v);
  }

  lemma Field64(file: seq<byte>, pos: nat, v: u64)
    requires Holds(file, pos, LeBytes(v, 8))
    ensures pos + 8 <= |file| && Word(file, pos, 8) == v
  {
    WordIs(file, pos, 8);
    Le64RoundTrip(v);
  }

  lemma Field32(file: seq<byte>, pos: nat, v: nat)
    requires Holds(file, pos, LeBytes(v, 4))
    ensures pos + 4 <= |file| && Word(file, pos, 4) == v % TWO32
  {
    WordIs(file, pos, 4);
    Le32RoundTrip(v);
  }
}
