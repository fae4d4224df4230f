// The single-producer single-consumer byte ring used by one thread at a time:
// it refines a bounded byte queue.
module Ring {
  import opened Status
  import opened Words

  // The request doubled k times, as the loop of round_up_pow2 computes it in 64 bits.
  function Doubled(k: nat): (v: nat)
  {
    if k == 0 then 1 else 2 * Doubled(k - 1) % TWO64
  }

  lemma {:induction false} DoubledIsPow2(k: nat)
    ensures Doubled(k) == if k < 64 then Pow2(k) else 0
  {
    if k > 0 {
      DoubledIsPow2(k - 1);
      Pow2Bound(k);
      LowWord(2 * Doubled(k - 1));
    }
  }

  lemma LowWord(x: nat)
    ensures x < TWO64 ==> x % TWO64 == x
    ensures x == TWO64 || x == 0 ==> x % TWO64 == 0
  {
  }

  lemma Pow2Bound(k: nat)
    ensures k < 64 ==> Pow2(k) < TWO64
    ensures k == 64 ==> Pow2(k) == TWO64
  {
    Pow2Constants();
    if k < 64 { Pow2Monotone(k, 64); }
  }

  // The doubling loop reaches a value >= n exactly for the requests up to 2^63;
  // above that the 64-bit shift drops to 0 first and the loop never ends.
  lemma RoundUpEndsIff(n: u64)
    ensures (exists k: nat :: Doubled(k) >= n) <==> n <= 0x8000_0000_0000_0000
  {
    Pow2Constants();
    DoubledIsPow2(63);
    if n <= 0x8000_0000_0000_0000 {
      assert Doubled(63) >= n;
    } else {
      forall k: nat
        ensures Doubled(k) < n
      {
        DoubledIsPow2(k);
        if k < 63 {
          Pow2Monotone(k, 63);
        }
      }
    }
  }

  method RoundUpPow2(n: u64) returns (v: nat, ghost k: nat)
    requires n <= 0x8000_0000_0000_0000
    ensures v == Pow2(k) && n <= v && k <= 63
    ensures forall j: nat :: n <= Pow2(j) ==> v <= Pow2(j)
  {
    v, k := 1, 0;
    Pow2Constants();
    while v < n
      invariant v == Pow2(k) && k <= 63
      invariant forall j: nat :: n <= Pow2(j) ==> k <= j
      decreases 63 - k
    {
      Pow2Monotone(k, 64);
      assert k != 63;
      Pow2Monotone(k + 1, 64);
      v := v * 2 % TWO64;
      k := k + 1;
    }
    forall j: nat | n <= Pow2(j)
      ensures v <= Pow2(j)
    {
      if k < j { Pow2Monotone(k, j); }
    }
  }

  lemma LargeMask(k: nat)
    requires 32 < k <= 63
    ensures (Pow2(k) - 1) % TWO32 == TWO32 - 1 && TWO32 < Pow2(k)
  {
    Pow2Constants();
    Pow2Add(k - 32, 32);
    Pow2Monotone(32, k);
    var c := Pow2(k - 32);
    assert Pow2(k) - 1 == (c - 1) * TWO32 + (TWO32 - 1);
    DivModUnique(Pow2(k) - 1, TWO32, c - 1, TWO32 - 1);
  }

  lemma SmallMask(k: nat)
    requires k <= 32
    ensures Pow2(k) <= TWO32 && (Pow2(k) - 1) % TWO32 == Pow2(k) - 1
  {
    Pow2Constants();
    if k < 32 { Pow2Monotone(k, 32); }
  }

  // The least power of two above a request fits 2^32 exactly when the request does.
  lemma RoundedFits(request: u64, k: nat)
    requires 0 < request <= Pow2(k) && k <= 63
    requires forall j: nat :: request <= Pow2(j) ==> Pow2(k) <= Pow2(j)
    ensures request <= TWO32 <==> k <= 32
    ensures (Pow2(k) - 1) % TWO32 == Pow2(k) - 1 <==> k <= 32
  {
    if k <= 32 {
      SmallMask(k);
    } else {
      LargeMask(k);
      Pow2Constants();
    }
  }

  // Masking with the 32-bit mask selects the position's cell exactly when the
  // capacity fits 2^32; for a larger ring the position 2^32 already goes wrong.
  lemma MaskSelectsCellIff(k: nat)
    requires k <= 63
    ensures (forall x: u64 :: And(x, (Pow2(k) - 1) % TWO32) == x % Pow2(k)) <==> k <= 32
  {
    var p, mask := Pow2(k), (Pow2(k) - 1) % TWO32;
    if k <= 32 {
      SmallMask(k);
      forall x: u64
        ensures And(x, mask) == x % p
      {
        AndMask(x, k);
      }
    } else {
      LargeMaskMisses(k);
    }
  }

  lemma LargeMaskMisses(k: nat)
    requires 32 < k <= 63
    ensures And(TWO32, (Pow2(k) - 1) % TWO32) == 0 && TWO32 % Pow2(k) == TWO32
  {
    LargeMask(k);
    Pow2Constants();
    AndMask(TWO32, 32);
    DivModUnique(TWO32, Pow2(k), 0, TWO32);
  }

  // The cell of a 64-bit counter value is its unwrapped position modulo the
  // capacity, because the capacity divides 2^64.
  lemma CellOfCounter(pos: nat, k: nat)
    requires k <= 32
    ensures And(pos % TWO64, Pow2(k) - 1) == pos % Pow2(k)
  {
    Pow2Constants();
    Pow2Add(64 - k, k);
    ModOfMod(pos, Pow2(k), Pow2(64 - k));
    AndMask(pos % TWO64, k);
  }

  // The cell reached from cell c after j more bytes.
  function Wrap(c: nat, j: nat, capacity: nat): nat
    requires c < capacity && j <= capacity
  {
    if c + j < capacity then c + j else c + j - capacity
  }

  lemma CounterStep(x: u64, j: nat, k: nat)
    requires k <= 32 && j <= Pow2(k)
    ensures And(x, Pow2(k) - 1) < Pow2(k)
    ensures And((x + j) % TWO64, Pow2(k) - 1) == Wrap(And(x, Pow2(k) - 1), j, Pow2(k))
  {
    AndMask(x, k);
    CellOfCounter(x + j, k);
    ModSplit(x, j, Pow2(k));
  }

  // The used bytes that start at cell c, in the order they are read.
  function Stored(buf: seq<byte>, c: nat, used: nat): (s: seq<byte>)
    requires c < |buf| && used <= |buf|
    ensures |s| == used
  {
    seq(used, i requires 0 <= i < used => buf[Wrap(c, i, |buf|)])
  }

  function Blit(dst: seq<byte>, to: nat, src: seq<byte>): (s: seq<byte>)
    requires to + |src| <= |dst|
    ensures |s| == |dst|
  {
    dst[..to] + src + dst[to + |src|..]
  }

  lemma StoredAt(buf: seq<byte>, c: nat, used: nat, i: nat)
    requires c < |buf| && used <= |buf| && i < used
    ensures Stored(buf, c, used)[i] == buf[Wrap(c, i, |buf|)]
  {
  }

  lemma BlitAt(dst: seq<byte>, to: nat, src: seq<byte>, p: nat)
    requires to + |src| <= |dst| && p < |dst|
    ensures Blit(dst, to, src)[p] == if to <= p < to + |src| then src[p - to] else dst[p]
  {
  }

  // The two parts of a copy in from cell t: first bytes up to the end, the rest from 0.
  function CopiedIn(buf: seq<byte>, t: nat, data: seq<byte>, first: nat): (b: seq<byte>)
    requires t < |buf| && |data| <= |buf| && first == Min(|buf| - t, |data|)
    ensures |b| == |buf|
  {
    Blit(Blit(buf, t, data[..first]), 0, data[first..])
  }

  lemma CopiedAt(buf: seq<byte>, t: nat, data: seq<byte>, first: nat, p: nat)
    requires t < |buf| && |data| <= |buf| && first == Min(|buf| - t, |data|) && p < |buf|
    ensures CopiedIn(buf, t, data, first)[p] ==
      if p < |data| - first then data[first + p]
      else if t <= p < t + first then data[p - t]
      else buf[p]
  {
    BlitAt(buf, t, data[..first], p);
    BlitAt(Blit(buf, t, data[..first]), 0, data[first..], p);
  }

  // Behind the stored bytes, cell i past them is byte i of what was copied in.
  lemma NewByte(buf: seq<byte>, c: nat, used: nat, data: seq<byte>, first: nat, i: nat)
    requires c < |buf| && used + |data| <= |buf| && i < |data|
    requires first == Min(|buf| - Wrap(c, used, |buf|), |data|)
    ensures CopiedIn(buf, Wrap(c, used, |buf|), data, first)[Wrap(c, used + i, |buf|)] == data[i]
  {
    CopiedAt(buf, Wrap(c, used, |buf|), data, first, Wrap(c, used + i, |buf|));
  }

  lemma OldByte(buf: seq<byte>, c: nat, used: nat, data: seq<byte>, first: nat, i: nat)
    requires c < |buf| && used + |data| <= |buf| && i < used
    requires first == Min(|buf| - Wrap(c, used, |buf|), |data|)
    ensures CopiedIn(buf, Wrap(c, used, |buf|), data, first)[Wrap(c, i, |buf|)] == buf[Wrap(c, i, |buf|)]
  {
    CopiedAt(buf, Wrap(c, used, |buf|), data, first, Wrap(c, i, |buf|));
  }

  // A buffer holds a byte string when its cells do, one by one.
  lemma StoredIs(buf: seq<byte>, c: nat, used: nat, bytes: seq<byte>)
    requires c < |buf| && used <= |buf| && |bytes| == used
    requires forall i: nat | i < used :: buf[Wrap(c, i, |buf|)] == bytes[i]
    ensures Stored(buf, c, used) == bytes
  {
    forall i: nat | i < used
      ensures Stored(buf, c, used)[i] == bytes[i]
    {
      StoredAt(buf, c, used, i);
    }
  }

  // The two-part copy in puts data right behind what is stored.
  lemma CopyInAppends(buf: seq<byte>, c: nat, used: nat, data: seq<byte>, first: nat)
    requires c < |buf| && used + |data| <= |buf|
    requires first == Min(|buf| - Wrap(c, used, |buf|), |data|)
    ensures Stored(CopiedIn(buf, Wrap(c, used, |buf|), data, first), c, used + |data|)
      == Stored(buf, c, used) + data
  {
    var b, all := CopiedIn(buf, Wrap(c, used, |buf|), data, first), Stored(buf, c, used) + data;
    forall i: nat | i < used + |data|
      ensures b[Wrap(c, i, |buf|)] == all[i]
    {
      if i < used {
        OldByte(buf, c, used, data, first, i);
        StoredAt(buf, c, used, i);
      } else {
        NewByte(buf, c, used, data, first, i - used);
      }
    }
    StoredIs(b, c, used + |data|, all);
  }

  lemma TwoBlits(dst: seq<byte>, a: seq<byte>, b: seq<byte>)
    requires |a| + |b| <= |dst|
    ensures Blit(Blit(dst, 0, a), |a|, b) == a + b + dst[|a| + |b|..]
    ensures b == [] ==> Blit(dst, 0, a) == a + b + dst[|a| + |b|..]
  {
  }

  // The two-part copy out reads the oldest n bytes.
  lemma CopyOutReads(buf: seq<byte>, c: nat, used: nat, n: nat, first: nat)
    requires c < |buf| && n <= used <= |buf|
    requires first == Min(|buf| - c, n)
    ensures buf[c..c + first] + buf[0..n - first] == Stored(buf, c, used)[..n]
  {
    var parts := buf[c..c + first] + buf[0..n - first];
    forall i: nat | i < n
      ensures parts[i] == Stored(buf, c, used)[i]
    {
      StoredAt(buf, c, used, i);
    }
  }

  lemma AdvanceDrops(buf: seq<byte>, c: nat, used: nat, n: nat)
    requires c < |buf| && n <= used <= |buf| && Wrap(c, n, |buf|) < |buf|
    ensures Stored(buf, Wrap(c, n, |buf|), used - n) == Stored(buf, c, used)[n..]
  {
    var rest := Stored(buf, Wrap(c, n, |buf|), used - n);
    forall i: nat | i < used - n
      ensures rest[i] == Stored(buf, c, used)[n + i]
    {
      StoredAt(buf, Wrap(c, n, |buf|), used - n, i);
      StoredAt(buf, c, used, n + i);
    }
  }

  // tail - head in 64-bit arithmetic; the distance does not notice that the counters wrap.
  function Distance(head: u64, tail: u64): (d: nat)
    ensures d < TWO64
  {
    if tail >= head then tail - head else tail - head + TWO64
  }

  // x is below 2 * TWO64, so at most one wrap is taken off.
  lemma OneWrap(x: nat)
    requires x < 2 * TWO64
    ensures x % TWO64 == if x < TWO64 then x else x - TWO64
  {
  }

  lemma DistanceSteps(head: u64, tail: u64, n: nat)
    ensures (head + Distance(head, tail)) % TWO64 == tail
    ensures Distance(head, tail) + n < TWO64 ==>
      Distance(head, (tail + n) % TWO64) == Distance(head, tail) + n
    ensures n <= Distance(head, tail) ==>
      Distance((head + n) % TWO64, tail) == Distance(head, tail) - n
  {
    OneWrap(head + Distance(head, tail));
    if n < TWO64 {
      OneWrap(tail + n);
      OneWrap(head + n);
    }
  }

  lemma CounterMoved(head: u64, tail: u64, n: nat)
    requires Distance(head, tail) + n <= TWO32
    ensures 0 <= (tail + n) % TWO64 < TWO64
    ensures Distance(head, (tail + n) % TWO64) == Distance(head, tail) + n
  {
    DistanceSteps(head, tail, n);
  }

  lemma HeadMoved(head: u64, tail: u64, n: nat)
    requires n <= Distance(head, tail)
    ensures 0 <= (head + n) % TWO64 < TWO64
    ensures Distance((head + n) % TWO64, tail) == Distance(head, tail) - n
  {
    DistanceSteps(head, tail, n);
  }

  // Moving head of a ring of 2^k cells.
  lemma HeadAdvanced(buf: seq<byte>, head: u64, tail: u64, k: nat, n: nat, moved: u64)
    requires k <= 32 && |buf| == Pow2(k) && n <= Distance(head, tail) <= |buf|
    requires moved == (head + n) % TWO64
    ensures And(head, |buf| - 1) < |buf| && And(moved, |buf| - 1) < |buf|
    ensures Distance(moved, tail) == Distance(head, tail) - n
    ensures Stored(buf, And(moved, |buf| - 1), Distance(moved, tail))
         == Stored(buf, And(head, |buf| - 1), Distance(head, tail))[n..]
  {
    CounterStep(head, n, k);
    HeadMoved(head, tail, n);
    AdvanceDrops(buf, And(head, |buf| - 1), Distance(head, tail), n);
  }

  class ByteRing {
    var buf: array?<byte>
    var capacity: nat
    var mask: u32
    var head: u64
    var tail: u64
    ghost var bits: nat  // the capacity is 2^bits

    ghost predicate Valid()
      reads this, buf
    {
      && buf != null
      && bits <= 32 && capacity == Pow2(bits)
      && buf.Length == capacity && mask == capacity - 1
      && Used() <= capacity
    }

    // cellar_ring_used; the subtraction wraps at 64 bits.
    function Used(): nat
      reads this
    {
      Distance(head, tail)
    }

    // The stored bytes, oldest first.
    ghost function Contents(): (s: seq<byte>)
      requires Valid()
      reads this, buf
      ensures |s| == Used()
    {
      CellAfter(0);
      Stored(buf[..], And(head, mask), Used())
    }

    lemma CellAfter(j: nat)
      requires Valid() && j <= capacity
      ensures 0 < capacity <= TWO32 && And(head, mask) < capacity
      ensures And((head + j) % TWO64, mask) == Wrap(And(head, mask), j, capacity)
    {
      SmallMask(bits);
      CounterStep(head, j, bits);
    }

    lemma TailCell()
      requires Valid()
      ensures 0 < capacity && And(head, mask) < capacity
      ensures And(tail, mask) == Wrap(And(head, mask), Used(), capacity)
    {
      CellAfter(Used());
      DistanceSteps(head, tail, 0);
    }

    // cellar_ring_create; hasMemory says whether malloc succeeds.
    method Create(request: u64, hasMemory: bool) returns (status: Status)
      requires request <= 0x8000_0000_0000_0000
      modifies this
      ensures request == 0 ==> status == InvalidArgument && unchanged(this)
      ensures request > 0 && !hasMemory ==> status == OutOfMemory && buf == null
      ensures request > 0 && hasMemory ==>
        && status == Ok && fresh(buf) && head == tail == 0 && request <= capacity
        && bits <= 63 && capacity == Pow2(bits)
        && (forall j: nat :: request <= Pow2(j) ==> capacity <= Pow2(j))
        && (Valid() <==> request <= TWO32)
        && (Valid() ==> Contents() == [])
    {
      if request == 0 {
        return InvalidArgument;
      }
      buf, head, tail := null, 0, 0;
      var v, k := RoundUpPow2(request);
      capacity, bits := v, k;
      mask := (capacity - 1) % TWO32;
      if !hasMemory {
        return OutOfMemory;
      }
      buf := new byte[capacity];
      RoundedFits(request, k);
      return Ok;
    }

    method MemCpy(dst: array<byte>, to: nat, src: array<byte>, from: nat, n: nat)
      requires dst != src && to + n <= dst.Length && from + n <= src.Length
      modifies dst
      ensures dst[..] == Blit(old(dst[..]), to, old(src[from..from + n]))
    {
      var i := 0;
      while i < n
        invariant i <= n
        invariant forall j | to <= j < to + i :: dst[j] == src[j - to + from]
        invariant forall j | 0 <= j < dst.Length && (j < to || to + i <= j) :: dst[j] == old(dst[j])
      {
        dst[to + i] := src[from + i];
        i := i + 1;
      }
      assert dst[..] == Blit(old(dst[..]), to, src[from..from + n]);
    }

    method TwoCopies(cell: nat, data: array<byte>, n: nat, first: nat)
      requires buf != null && data != buf && first <= n <= data.Length
      requires cell + first <= buf.Length && n - first <= buf.Length
      modifies buf
      ensures buf[..] == Blit(Blit(old(buf[..]), cell, data[..n][..first]), 0, data[..n][first..])
    {
      assert data[0..first] == data[..n][..first] && data[first..n] == data[..n][first..];
      MemCpy(buf, cell, data, 0, first);
      if n > first {
        MemCpy(buf, 0, data, first, n - first);
      }
    }

    // Copies data in behind the bytes stored from cell c on, in two parts.
    method CopyIn(data: array<byte>, n: nat, cell: nat, ghost c: nat, ghost used: nat)
      requires buf != null && data != buf && n <= data.Length
      requires c < buf.Length && used + n <= buf.Length && cell == Wrap(c, used, buf.Length)
      modifies buf
      ensures Stored(buf[..], c, used + n) == Stored(old(buf[..]), c, used) + data[..n]
    {
      var first := buf.Length - cell;
      if first > n {
        first := n;
      }
      CopyInAppends(buf[..], c, used, data[..n], first);
      TwoCopies(cell, data, n, first);
    }

    // Copies n bytes in, then publishes them by moving tail from t.
    method Append(data: array<byte>, n: nat, t: u64)
      requires Valid() && data != buf && n <= data.Length && Used() + n <= capacity && t == tail
      modifies this`tail, buf
      ensures Valid() && head == old(head)
      ensures Contents() == old(Contents()) + data[..n]
    {
      CellAfter(0);
      TailCell();
      CounterMoved(head, t, n);
      CopyIn(data, n, And(tail, mask), And(head, mask), Used());
      tail := (t + n) % TWO64;
    }

    // Appends exactly the first min(len, free) bytes.
    method Produce(data: array?<byte>, len: nat) returns (n: nat)
      requires Valid() && data != buf
      requires data != null ==> Min(len, capacity - Used()) <= data.Length
      modifies this`tail, buf
      ensures Valid() && head == old(head)
      ensures n == if data == null then 0 else Min(len, capacity - old(Used()))
      ensures Contents() == if data == null then old(Contents()) else old(Contents()) + data[..n]
    {
      if data == null || len == 0 {
        return 0;
      }
      var t, h := tail, head;
      n := len;
      var free := capacity - Distance(h, t);
      if n > free {
        n := free;
      }
      if n == 0 {
        return 0;
      }
      Append(data, n, t);
    }

    method TwoCopiesOut(dst: array<byte>, cell: nat, n: nat, first: nat)
      requires buf != null && dst != buf && first <= n <= dst.Length
      requires cell + first <= buf.Length && n - first <= buf.Length
      modifies dst
      ensures dst[..] == buf[cell..cell + first] + buf[0..n - first] + old(dst[..])[n..]
    {
      ghost var was, a, b := dst[..], buf[cell..cell + first], buf[0..n - first];
      TwoBlits(was, a, b);
      MemCpy(dst, 0, buf, cell, first);
      if n > first {
        MemCpy(dst, first, buf, 0, n - first);
      }
      assert dst[..] == a + b + was[n..];
    }

    // Copies the n oldest stored bytes out in two parts.
    method CopyOut(dst: array<byte>, n: nat)
      requires Valid() && dst != buf && n <= Used() && n <= dst.Length
      modifies dst
      ensures dst[..] == Contents()[..n] + old(dst[..])[n..]
    {
      CellAfter(0);
      var cell := And(head, mask);
      var first := capacity - cell;
      if first > n {
        first := n;
      }
      CopyOutReads(buf[..], cell, Used(), n, first);
      assert buf[0..n - first] == buf[..][..n - first] && buf[cell..cell + first] == buf[..][cell..cell + first];
      TwoCopiesOut(dst, cell, n, first);
    }

    // Moving head forward by n removes exactly the n oldest bytes.
    method Advance(n: nat)
      requires Valid() && n <= Used()
      modifies this`head
      ensures Valid() && head == (old(head) + n) % TWO64
      ensures Contents() == old(Contents())[n..]
    {
      HeadAdvanced(buf[..], head, tail, bits, n, (head + n) % TWO64);
      head := (head + n) % TWO64;
    }

    // Returns and removes exactly the first min(len, used) bytes.
    method Consume(dst: array?<byte>, len: nat) returns (n: nat)
      requires Valid() && dst != buf
      requires dst != null ==> Min(len, Used()) <= dst.Length
      modifies this`head, dst
      ensures Valid() && tail == old(tail) && buf[..] == old(buf[..])
      ensures n == if dst == null then 0 else Min(len, old(Used()))
      ensures dst != null ==> dst[..] == old(Contents())[..n] + old(dst[..])[n..]
      ensures Contents() == old(Contents())[n..]
    {
      if dst == null || len == 0 {
        return 0;
      }
      n := len;
      if n > Used() {
        n := Used();
      }
      if n == 0 {
        return 0;
      }
      CopyOut(dst, n);
      Advance(n);
    }

    // Removes the first min(len, used) bytes without copying them.
    method Drop(len: nat)
      requires Valid()
      modifies this`head
      ensures Valid() && tail == old(tail)
      ensures Contents() == old(Contents())[Min(len, old(Used()))..]
    {
      if len == 0 {
        return;
      }
      var n := len;
      if n > Used() {
        n := Used();
      }
      Advance(n);
    }

    // Returns the bytes Consume would return, and leaves them stored.
    method Peek(dst: array?<byte>, len: nat) returns (n: nat)
      requires Valid() && dst != buf
      requires dst != null ==> Min(len, Used()) <= dst.Length
      modifies dst
      ensures Valid() && Contents() == old(Contents())
      ensures n == if dst == null then 0 else Min(len, Used())
      ensures dst != null ==> dst[..] == Contents()[..n] + old(dst[..])[n..]
    {
      if dst == null || len == 0 {
        return 0;
      }
      n := len;
      if n > Used() {
        n := Used();
      }
      if n == 0 {
        return 0;
      }
      CopyOut(dst, n);
    }
  }

}
