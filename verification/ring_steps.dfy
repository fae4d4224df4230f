// The same ring shared by one producer and one consumer thread: every counter
// load, byte copy and counter store is a step of its own, and the two threads
// interleave freely over sequentially consistent memory.
module RingSteps {
  import opened Status
  import opened Words
  import Ring

  // Where produce is: after loading tail; while copying data[..n], with the
  // set of byte offsets already written.
  datatype Producer =
    | PIdle
    | PTail(data: seq<byte>, tail: u64)
    | PCopy(data: seq<byte>, tail: u64, n: nat, done: set<nat>)

  datatype Op = Consume | Drop | Peek

  // Where the consumer is: after its first load (tail for consume, head for
  // drop and peek); then taking n bytes, with the bytes copied out so far.
  datatype Consumer =
    | CIdle
    | CFirst(op: Op, len: nat, first: u64)
    | CCopy(op: Op, head: u64, n: nat, got: map<nat, byte>)

  // published and taken are histories: all bytes ever made visible by a tail
  // store, and all bytes returned by consume or passed over by drop.
  datatype State = State(
    buf: seq<byte>, head: u64, tail: u64,
    producer: Producer, consumer: Consumer,
    published: seq<byte>, taken: seq<byte>)

  datatype Step =
    | LoadTail(data: seq<byte>)
    | LoadHead
    | Write(i: nat)
    | Publish
    | LoadFirst(op: Op, len: nat)
    | LoadSecond
    | Read(i: nat)
    | Finish

  // The index of byte i of a copy that starts at a counter value, through the two parts.
  function CellIndex(counter: u64, i: nat, k: nat): nat
    requires k <= 32 && i <= Pow2(k)
  {
    Ring.CounterStep(counter, i, k);
    Ring.Wrap(And(counter, Pow2(k) - 1), i, Pow2(k))
  }

  // The second memcpy starts once the first part, up to the end of the buffer, is written.
  predicate PartOrder(counter: u64, i: nat, k: nat, done: set<nat>)
  {
    var first := Pow2(k) - And(counter, Pow2(k) - 1);
    i < first || forall j: nat | j < first :: j in done
  }

  predicate Enabled(k: nat, s: State, step: Step)
    requires k <= 32 && |s.buf| == Pow2(k)
  {
    match step
    case LoadTail(_) => s.producer.PIdle?
    case LoadHead => s.producer.PTail?
    case Write(i) =>
      && s.producer.PCopy? && i < Min(s.producer.n, Pow2(k)) && i < |s.producer.data|
      && i !in s.producer.done && PartOrder(s.producer.tail, i, k, s.producer.done)
    case Publish =>
      && s.producer.PCopy? && s.producer.n <= |s.producer.data|
      && forall i: nat | i < s.producer.n :: i in s.producer.done
    case LoadFirst(_, _) => s.consumer.CIdle?
    case LoadSecond => s.consumer.CFirst?
    case Read(i) =>
      && s.consumer.CCopy? && s.consumer.op != Drop && i < Min(s.consumer.n, Pow2(k))
      && i !in s.consumer.got && PartOrder(s.consumer.head, i, k, s.consumer.got.Keys)
    case Finish =>
      && s.consumer.CCopy? && s.consumer.n <= Pow2(k)
      && (s.consumer.op == Drop || forall i: nat | i < s.consumer.n :: i in s.consumer.got)
  }

  // What a finishing consumer call has copied out, or passed over in the buffer.
  function Outcome(k: nat, s: State): (bytes: seq<byte>)
    requires k <= 32 && |s.buf| == Pow2(k) && Enabled(k, s, Finish)
    ensures |bytes| == s.consumer.n
  {
    var c := s.consumer;
    if c.op == Drop then
      seq(c.n, i requires 0 <= i < c.n =>
        Ring.CounterStep(c.head, i, k);
        s.buf[CellIndex(c.head, i, k)])
    else
      seq(c.n, i requires 0 <= i < c.n => c.got[i])
  }

  function Apply(k: nat, s: State, step: Step): (t: State)
    requires k <= 32 && |s.buf| == Pow2(k) && Enabled(k, s, step)
    ensures |t.buf| == Pow2(k)
  {
    match step
    case LoadTail(data) => s.(producer := PTail(data, s.tail))
    case LoadHead =>
      var p := s.producer;
      var n := Min(|p.data|, (Pow2(k) - Ring.Distance(s.head, p.tail)) % TWO64);
      s.(producer := if n == 0 then PIdle else PCopy(p.data, p.tail, n, {}))
    case Write(i) =>
      var p := s.producer;
      Ring.CounterStep(p.tail, i, k);
      s.(buf := s.buf[CellIndex(p.tail, i, k) := p.data[i]],
         producer := p.(done := p.done + {i}))
    case Publish =>
      var p := s.producer;
      s.(tail := (p.tail + p.n) % TWO64,
         published := s.published + p.data[..p.n],
         producer := PIdle)
    case LoadFirst(op, len) =>
      s.(consumer := CFirst(op, len, if op == Consume then s.tail else s.head))
    case LoadSecond =>
      var c := s.consumer;
      var head := if c.op == Consume then s.head else c.first;
      var tail := if c.op == Consume then c.first else s.tail;
      var n := Min(c.len, Ring.Distance(head, tail));
      s.(consumer := if n == 0 && c.op != Drop then CIdle else CCopy(c.op, head, n, map[]))
    case Read(i) =>
      var c := s.consumer;
      Ring.CounterStep(c.head, i, k);
      s.(consumer := c.(got := c.got[i := s.buf[CellIndex(c.head, i, k)]]))
    case Finish =>
      var c := s.consumer;
      if c.op == Peek then s.(consumer := CIdle)
      else s.(head := (c.head + c.n) % TWO64,
              taken := s.taken + Outcome(k, s),
              consumer := CIdle)
  }

  function Init(buf: seq<byte>): State
  {
    State(buf, 0, 0, PIdle, CIdle, [], [])
  }

  // The state after an interleaving, if every step of it was enabled.
  function Exec(k: nat, buf: seq<byte>, steps: seq<Step>): (r: Option<State>)
    requires k <= 32 && |buf| == Pow2(k)
    ensures r.Some? ==> |r.value.buf| == Pow2(k)
  {
    if steps == [] then Some(Init(buf))
    else
      match Exec(k, buf, steps[..|steps| - 1])
      case None => None
      case Some(s) =>
        var step := steps[|steps| - 1];
        if Enabled(k, s, step) then Some(Apply(k, s, step)) else None
  }

  // ---- the invariant ----

  // The cell of an unwrapped stream position.
  function Slot(p: nat, capacity: nat): (c: nat)
    requires capacity > 0
    ensures c < capacity
  {
    if p < capacity then p else Slot(p - capacity, capacity)
  }

  lemma {:induction false} SlotIsRemainder(p: nat, capacity: nat)
    requires capacity > 0
    ensures Slot(p, capacity) == p % capacity
  {
    if p < capacity {
      DivModUnique(p, capacity, 0, p);
    } else {
      SlotIsRemainder(p - capacity, capacity);
      var q := (p - capacity) / capacity;
      assert p == (q + 1) * capacity + (p - capacity) % capacity by {
        assert (q + 1) * capacity == q * capacity + capacity;
      }
      DivModUnique(p, capacity, q + 1, (p - capacity) % capacity);
    }
  }

  lemma SlotsApart(p: nat, q: nat, capacity: nat)
    requires capacity > 0 && p < q < p + capacity
    ensures Slot(p, capacity) != Slot(q, capacity)
  {
    SlotIsRemainder(p, capacity);
    SlotIsRemainder(q, capacity);
    ModApart(p, q, capacity);
  }

  // Overwriting one position leaves every other position of the same lap alone.
  lemma OtherSlotsKept(buf: seq<byte>, q: nat, v: byte)
    requires |buf| > 0
    ensures forall r: nat | r != q && r < q + |buf| && q < r + |buf| ::
      buf[Slot(q, |buf|) := v][Slot(r, |buf|)] == buf[Slot(r, |buf|)]
  {
    forall r: nat | r != q && r < q + |buf| && q < r + |buf|
      ensures Slot(r, |buf|) != Slot(q, |buf|)
    {
      if r < q { SlotsApart(r, q, |buf|); } else { SlotsApart(q, r, |buf|); }
    }
  }

  lemma CellIsSlot(p: nat, i: nat, k: nat)
    requires k <= 32 && i <= Pow2(k)
    ensures CellIndex(p % TWO64, i, k) == Slot(p + i, Pow2(k))
  {
    Ring.CounterStep(p % TWO64, i, k);
    Ring.CellOfCounter(p, k);
    Ring.CellOfCounter(p + i, k);
    SlotIsRemainder(p + i, Pow2(k));
    ModSplit(p, i, Pow2(k));
  }

  ghost predicate Shared(k: nat, s: State)
  {
    && |s.buf| == Pow2(k)
    && s.head == |s.taken| % TWO64 && s.tail == |s.published| % TWO64
    && |s.taken| <= |s.published| <= |s.taken| + Pow2(k)
    && s.taken == s.published[..|s.taken|]
    && (forall p: nat | |s.taken| <= p < |s.published| ::
          s.buf[Slot(p, Pow2(k))] == s.published[p])
  }

  ghost predicate ProducerInv(k: nat, s: State)
    requires |s.buf| == Pow2(k)
  {
    match s.producer
    case PIdle => true
    case PTail(_, tail) => tail == s.tail
    case PCopy(data, tail, n, done) =>
      && tail == s.tail && 0 < n <= |data|
      && |s.published| + n <= |s.taken| + Pow2(k)
      && (forall i <- done :: i < n && s.buf[Slot(|s.published| + i, Pow2(k))] == data[i])
  }

  ghost predicate ConsumerInv(k: nat, s: State)
  {
    match s.consumer
    case CIdle => true
    case CFirst(op, _, first) =>
      if op == Consume then Ring.Distance(s.head, first) <= |s.published| - |s.taken|
      else first == s.head
    case CCopy(op, head, n, got) =>
      && head == s.head && |s.taken| + n <= |s.published|
      && (forall i <- got :: i < n && got[i] == s.published[|s.taken| + i])
  }

  ghost predicate Inv(k: nat, s: State)
  {
    Shared(k, s) && ProducerInv(k, s) && ConsumerInv(k, s)
  }

  lemma DistanceIsGap(a: nat, b: nat)
    requires a <= b < a + TWO64
    ensures Ring.Distance(a % TWO64, b % TWO64) == b - a
  {
    ModSplit(a, b - a, TWO64);
  }

  lemma CounterAdvance(a: nat, n: nat)
    ensures (a % TWO64 + n) % TWO64 == (a + n) % TWO64
  {
  }

  lemma CapacityBound(k: nat)
    requires k <= 32
    ensures Pow2(k) <= TWO32
  {
    Ring.SmallMask(k);
  }

  // The invariant's parts depend only on the fields they speak of.
  lemma SharedSame(k: nat, s: State, t: State)
    requires Shared(k, s)
    requires t.buf == s.buf && t.head == s.head && t.tail == s.tail
    requires t.published == s.published && t.taken == s.taken
    ensures Shared(k, t)
  {
  }

  lemma ConsumerSame(k: nat, s: State, t: State)
    requires ConsumerInv(k, s) && t.consumer == s.consumer && t.head == s.head
    requires t.published == s.published && t.taken == s.taken
    ensures ConsumerInv(k, t)
  {
  }

  lemma SlotWritten(k: nat, s: State, i: nat, t: State)
    requires Inv(k, s) && s.producer.PCopy? && i < s.producer.n
    requires t == s.(buf := s.buf[Slot(|s.published| + i, Pow2(k)) := s.producer.data[i]],
                     producer := s.producer.(done := s.producer.done + {i}))
    ensures Inv(k, t)
  {
    SharedWritten(k, s, i, t);
    ProducerWritten(k, s, i, t);
    ConsumerSame(k, s, t);
  }

  lemma ProducerWritten(k: nat, s: State, i: nat, t: State)
    requires Shared(k, s) && ProducerInv(k, s) && s.producer.PCopy? && i < s.producer.n
    requires t == s.(buf := s.buf[Slot(|s.published| + i, Pow2(k)) := s.producer.data[i]],
                     producer := s.producer.(done := s.producer.done + {i}))
    ensures ProducerInv(k, t)
  {
    var p := s.producer;
    PartWritten(k, s, i, t.buf);
    CopyGoesOn(k, t, p.data, p.tail, p.n, p.done + {i});
  }

  lemma CopyGoesOn(k: nat, t: State, data: seq<byte>, tail: u64, n: nat, done: set<nat>)
    requires |t.buf| == Pow2(k) && t.producer == PCopy(data, tail, n, done) && tail == t.tail
    requires 0 < n <= |data| && |t.published| + n <= |t.taken| + Pow2(k)
    requires forall i <- done :: i < n && t.buf[Slot(|t.published| + i, Pow2(k))] == data[i]
    ensures ProducerInv(k, t)
  {
  }

  lemma SharedWritten(k: nat, s: State, i: nat, t: State)
    requires Shared(k, s) && s.producer.PCopy? && i < |s.producer.data|
    requires |s.published| + i < |s.taken| + Pow2(k)
    requires t.buf == s.buf[Slot(|s.published| + i, Pow2(k)) := s.producer.data[i]]
    requires t.head == s.head && t.tail == s.tail && t.published == s.published && t.taken == s.taken
    ensures Shared(k, t)
  {
    OtherSlotsKept(s.buf, |s.published| + i, s.producer.data[i]);
  }

  lemma PartWritten(k: nat, s: State, i: nat, buf: seq<byte>)
    requires |s.buf| == |buf| == Pow2(k) && s.producer.PCopy? && i < s.producer.n <= Pow2(k)
    requires ProducerInv(k, s) && buf == s.buf[Slot(|s.published| + i, Pow2(k)) := s.producer.data[i]]
    ensures forall j <- s.producer.done + {i} ::
      j < s.producer.n && buf[Slot(|s.published| + j, Pow2(k))] == s.producer.data[j]
  {
    forall j | j in s.producer.done + {i}
      ensures j < s.producer.n && buf[Slot(|s.published| + j, Pow2(k))] == s.producer.data[j]
    {
      OneSlot(s.buf, |s.published|, i, j, s.producer.data[i]);
    }
  }

  // Of the positions of one lap, only the written one changes.
  lemma OneSlot(buf: seq<byte>, p: nat, i: nat, j: nat, v: byte)
    requires i < |buf| && j < |buf|
    ensures buf[Slot(p + i, |buf|) := v][Slot(p + j, |buf|)] == if i == j then v else buf[Slot(p + j, |buf|)]
  {
    if j < i { SlotsApart(p + j, p + i, |buf|); }
    if i < j { SlotsApart(p + i, p + j, |buf|); }
  }

  lemma WriteKeepsInv(k: nat, s: State, i: nat)
    requires k <= 32 && Inv(k, s) && Enabled(k, s, Write(i))
    ensures Inv(k, Apply(k, s, Write(i)))
  {
    CellIsSlot(|s.published|, i, k);
    SlotWritten(k, s, i, Apply(k, s, Write(i)));
  }

  // Publishing n written bytes keeps what is shared.
  lemma Published(k: nat, s: State, data: seq<byte>, t: State)
    requires Shared(k, s) && |s.published| + |data| <= |s.taken| + Pow2(k)
    requires forall i: nat | i < |data| :: s.buf[Slot(|s.published| + i, Pow2(k))] == data[i]
    requires t.buf == s.buf && t.head == s.head && t.taken == s.taken
    requires t.published == s.published + data && t.tail == (s.tail + |data|) % TWO64
    ensures Shared(k, t)
  {
    CounterAdvance(|s.published|, |data|);
    assert t.taken == t.published[..|t.taken|];
    forall q: nat | |t.taken| <= q < |t.published|
      ensures t.buf[Slot(q, Pow2(k))] == t.published[q]
    {
      PublishedAt(k, s, data, q);
    }
  }

  lemma PublishedAt(k: nat, s: State, data: seq<byte>, q: nat)
    requires Shared(k, s) && |s.taken| <= q < |s.published| + |data|
    requires forall i: nat | i < |data| :: s.buf[Slot(|s.published| + i, Pow2(k))] == data[i]
    ensures s.buf[Slot(q, Pow2(k))] == (s.published + data)[q]
  {
    if q >= |s.published| {
      var i: nat := q - |s.published|;
      assert s.buf[Slot(|s.published| + i, Pow2(k))] == data[i];
    }
  }

  lemma PublishShared(k: nat, s: State)
    requires k <= 32 && Shared(k, s) && ProducerInv(k, s) && Enabled(k, s, Publish)
    ensures Shared(k, Apply(k, s, Publish))
  {
    var p := s.producer;
    forall i: nat | i < p.n
      ensures s.buf[Slot(|s.published| + i, Pow2(k))] == p.data[..p.n][i]
    {
      assert i in p.done;
    }
    Published(k, s, p.data[..p.n], Apply(k, s, Publish));
  }

  lemma ConsumerAfterPublish(k: nat, s: State, t: State)
    requires ConsumerInv(k, s) && t.consumer == s.consumer && t.head == s.head && t.taken == s.taken
    requires |s.taken| <= |s.published| <= |t.published| && t.published[..|s.published|] == s.published
    ensures ConsumerInv(k, t)
  {
    var c := s.consumer;
    if c.CCopy? {
      forall i | i in c.got
        ensures i < c.n && c.got[i] == t.published[|t.taken| + i]
      {
        assert t.published[..|s.published|][|t.taken| + i] == t.published[|t.taken| + i];
      }
    }
  }

  lemma PublishKeepsInv(k: nat, s: State)
    requires k <= 32 && Inv(k, s) && Enabled(k, s, Publish)
    ensures Inv(k, Apply(k, s, Publish))
  {
    var t := Apply(k, s, Publish);
    PublishShared(k, s);
    assert t.published[..|s.published|] == s.published;
    ConsumerAfterPublish(k, s, t);
  }

  // The bytes a finishing call hands over are the oldest unread ones.
  lemma OutcomeIsNext(k: nat, s: State)
    requires k <= 32 && Inv(k, s) && Enabled(k, s, Finish)
    ensures Outcome(k, s) == s.published[|s.taken|..|s.taken| + s.consumer.n]
  {
    var c := s.consumer;
    forall i | 0 <= i < c.n
      ensures Outcome(k, s)[i] == s.published[|s.taken| + i]
    {
      CellIsSlot(|s.taken|, i, k);
    }
  }

  // Taking the next n published bytes keeps what is shared.
  lemma Taken(k: nat, s: State, n: nat, t: State)
    requires Shared(k, s) && |s.taken| + n <= |s.published|
    requires t.buf == s.buf && t.tail == s.tail && t.published == s.published
    requires t.taken == s.taken + s.published[|s.taken|..|s.taken| + n]
    requires t.head == (s.head + n) % TWO64
    ensures Shared(k, t)
  {
    CounterAdvance(|s.taken|, n);
    assert t.taken == s.published[..|s.taken| + n];
  }

  lemma FinishShared(k: nat, s: State)
    requires k <= 32 && Inv(k, s) && Enabled(k, s, Finish)
    ensures Shared(k, Apply(k, s, Finish))
  {
    var t := Apply(k, s, Finish);
    if s.consumer.op == Peek {
      SharedSame(k, s, t);
    } else {
      OutcomeIsNext(k, s);
      Taken(k, s, s.consumer.n, t);
    }
  }

  lemma FinishKeepsInv(k: nat, s: State)
    requires k <= 32 && Inv(k, s) && Enabled(k, s, Finish)
    ensures Inv(k, Apply(k, s, Finish))
  {
    FinishShared(k, s);
    assert |Outcome(k, s)| == s.consumer.n;
  }

  lemma ReadsPublished(k: nat, s: State, i: nat)
    requires k <= 32 && Shared(k, s) && i < |s.published| - |s.taken|
    ensures CellIndex(s.head, i, k) < |s.buf|
    ensures s.buf[CellIndex(s.head, i, k)] == s.published[|s.taken| + i]
  {
    CellIsSlot(|s.taken|, i, k);
  }

  lemma ProducerSame(k: nat, s: State, t: State)
    requires Shared(k, s) && ProducerInv(k, s) && t.producer == s.producer && t.buf == s.buf
    requires t.tail == s.tail && t.published == s.published && t.taken == s.taken
    ensures ProducerInv(k, t)
  {
  }

  lemma ByteRead(k: nat, s: State, i: nat, v: byte, t: State)
    requires Inv(k, s) && s.consumer.CCopy? && i < s.consumer.n
    requires v == s.published[|s.taken| + i]
    requires t == s.(consumer := s.consumer.(got := s.consumer.got[i := v]))
    ensures Inv(k, t)
  {
    SharedSame(k, s, t);
    ProducerSame(k, s, t);
  }

  lemma ReadKeepsInv(k: nat, s: State, i: nat)
    requires k <= 32 && Inv(k, s) && Enabled(k, s, Read(i))
    ensures Inv(k, Apply(k, s, Read(i)))
  {
    ReadsPublished(k, s, i);
    ByteRead(k, s, i, s.buf[CellIndex(s.head, i, k)], Apply(k, s, Read(i)));
  }

  lemma LoadHeadKeepsInv(k: nat, s: State)
    requires k <= 32 && Inv(k, s) && Enabled(k, s, LoadHead)
    ensures Inv(k, Apply(k, s, LoadHead))
  {
    var t := Apply(k, s, LoadHead);
    CapacityBound(k);
    DistanceIsGap(|s.taken|, |s.published|);
    SharedSame(k, s, t);
    ConsumerSame(k, s, t);
  }

  lemma LoadSecondKeepsInv(k: nat, s: State)
    requires k <= 32 && Inv(k, s) && Enabled(k, s, LoadSecond)
    ensures Inv(k, Apply(k, s, LoadSecond))
  {
    var t := Apply(k, s, LoadSecond);
    CapacityBound(k);
    DistanceIsGap(|s.taken|, |s.published|);
    SharedSame(k, s, t);
    ProducerSame(k, s, t);
  }

  lemma LoadTailKeepsInv(k: nat, s: State, data: seq<byte>)
    requires k <= 32 && Inv(k, s) && Enabled(k, s, LoadTail(data))
    ensures Inv(k, Apply(k, s, LoadTail(data)))
  {
    SharedSame(k, s, Apply(k, s, LoadTail(data)));
    ConsumerSame(k, s, Apply(k, s, LoadTail(data)));
  }

  lemma LoadFirstKeepsInv(k: nat, s: State, op: Op, len: nat)
    requires k <= 32 && Inv(k, s) && Enabled(k, s, LoadFirst(op, len))
    ensures Inv(k, Apply(k, s, LoadFirst(op, len)))
  {
    var t := Apply(k, s, LoadFirst(op, len));
    CapacityBound(k);
    DistanceIsGap(|s.taken|, |s.published|);
    SharedSame(k, s, t);
    ProducerSame(k, s, t);
  }

  lemma StepKeepsInv(k: nat, s: State, step: Step)
    requires k <= 32 && Inv(k, s) && Enabled(k, s, step)
    ensures Inv(k, Apply(k, s, step))
  {
    match step
    case Write(i) => WriteKeepsInv(k, s, i);
    case Publish => PublishKeepsInv(k, s);
    case Read(i) => ReadKeepsInv(k, s, i);
    case Finish => FinishKeepsInv(k, s);
    case LoadHead => LoadHeadKeepsInv(k, s);
    case LoadSecond => LoadSecondKeepsInv(k, s);
    case LoadTail(data) => LoadTailKeepsInv(k, s, data);
    case LoadFirst(op, len) => LoadFirstKeepsInv(k, s, op, len);
  }

  lemma {:induction false} ReachableInv(k: nat, buf: seq<byte>, steps: seq<Step>)
    requires k <= 32 && |buf| == Pow2(k) && Exec(k, buf, steps).Some?
    ensures Inv(k, Exec(k, buf, steps).value)
  {
    if steps != [] {
      ReachableInv(k, buf, steps[..|steps| - 1]);
      var s := Exec(k, buf, steps[..|steps| - 1]).value;
      StepKeepsInv(k, s, steps[|steps| - 1]);
    }
  }

  lemma StoredIsUnread(k: nat, s: State)
    requires k <= 32 && Shared(k, s)
    ensures var used := Ring.Distance(s.head, s.tail);
      && used == |s.published| - |s.taken| && used <= Pow2(k)
      && And(s.head, Pow2(k) - 1) < Pow2(k)
      && Ring.Stored(s.buf, And(s.head, Pow2(k) - 1), used) == s.published[|s.taken|..]
  {
    CapacityBound(k);
    DistanceIsGap(|s.taken|, |s.published|);
    Ring.CounterStep(s.head, 0, k);
    var c, unread := And(s.head, Pow2(k) - 1), s.published[|s.taken|..];
    forall i: nat | i < |unread|
      ensures s.buf[Ring.Wrap(c, i, Pow2(k))] == unread[i]
    {
      UnreadAt(k, s, i);
    }
    Ring.StoredIs(s.buf, c, |unread|, unread);
  }

  lemma UnreadAt(k: nat, s: State, i: nat)
    requires k <= 32 && Shared(k, s) && i < |s.published| - |s.taken|
    ensures And(s.head, Pow2(k) - 1) < Pow2(k)
    ensures s.buf[Ring.Wrap(And(s.head, Pow2(k) - 1), i, Pow2(k))] == s.published[|s.taken| + i]
  {
    Ring.CounterStep(s.head, i, k);
    ReadsPublished(k, s, i);
  }

  // ---- what every interleaving guarantees ----

  // No byte is lost, duplicated or reordered: what was taken or dropped, then what
  // the buffer holds between head and tail, is what was published; and never
  // more than the capacity is stored.
  lemma Fifo(k: nat, buf: seq<byte>, steps: seq<Step>)
    requires k <= 32 && |buf| == Pow2(k) && Exec(k, buf, steps).Some?
    ensures var s := Exec(k, buf, steps).value;
      && Ring.Distance(s.head, s.tail) <= Pow2(k)
      && And(s.head, Pow2(k) - 1) < Pow2(k)
      && s.taken + Ring.Stored(s.buf, And(s.head, Pow2(k) - 1), Ring.Distance(s.head, s.tail))
         == s.published
  {
    ReachableInv(k, buf, steps);
    StoredIsUnread(k, Exec(k, buf, steps).value);
  }

  // No cell the producer may still write holds a byte the consumer may still read.
  lemma NoOverwrite(k: nat, buf: seq<byte>, steps: seq<Step>, i: nat, j: nat)
    requires k <= 32 && |buf| == Pow2(k) && Exec(k, buf, steps).Some?
    requires var s := Exec(k, buf, steps).value;
      s.producer.PCopy? && i < s.producer.n && j < Ring.Distance(s.head, s.tail)
    ensures var s := Exec(k, buf, steps).value;
      && i <= Pow2(k) && j <= Pow2(k)
      && CellIndex(s.producer.tail, i, k) != CellIndex(s.head, j, k)
  {
    ReachableInv(k, buf, steps);
    WriteAvoidsUnread(k, Exec(k, buf, steps).value, i, j);
  }

  // Two positions of one lap lie in different cells, whatever the counters have wrapped to.
  lemma CellsApart(p: nat, j: nat, q: nat, i: nat, k: nat)
    requires k <= 32 && i <= Pow2(k) && j <= Pow2(k) && p + j < q + i < p + j + Pow2(k)
    ensures CellIndex(q % TWO64, i, k) != CellIndex(p % TWO64, j, k)
  {
    CellIsSlot(q, i, k);
    CellIsSlot(p, j, k);
    SlotsApart(p + j, q + i, Pow2(k));
  }

  lemma WriteAvoidsUnread(k: nat, s: State, i: nat, j: nat)
    requires k <= 32 && Inv(k, s) && s.producer.PCopy?
    requires i < s.producer.n && j < Ring.Distance(s.head, s.tail)
    ensures i <= Pow2(k) && j <= Pow2(k)
    ensures CellIndex(s.producer.tail, i, k) != CellIndex(s.head, j, k)
  {
    CapacityBound(k);
    DistanceIsGap(|s.taken|, |s.published|);
    CellsApart(|s.taken|, j, |s.published|, i, k);
  }

  // A finishing consume, peek or drop yields exactly the oldest bytes not yet taken, however the
  // producer moved while they were being copied.
  lemma Delivers(k: nat, buf: seq<byte>, steps: seq<Step>)
    requires k <= 32 && |buf| == Pow2(k) && Exec(k, buf, steps).Some?
    requires Enabled(k, Exec(k, buf, steps).value, Finish)
    ensures var s := Exec(k, buf, steps).value;
      && |s.taken| + s.consumer.n <= |s.published|
      && Outcome(k, s) == s.published[|s.taken|..][..s.consumer.n]
  {
    ReachableInv(k, buf, steps);
    OutcomeIsNext(k, Exec(k, buf, steps).value);
  }

  // ---- whole calls ----

  predicate OfProducer(step: Step) {
    step.LoadTail? || step.LoadHead? || step.Write? || step.Publish?
  }

  // Steps during which a consumer call stays where it is, up to the bytes it has copied.
  predicate AroundConsumer(step: Step) { OfProducer(step) || step.Read? }

  predicate AroundProducer(step: Step) { !OfProducer(step) || step.Write? }

  function ConsumerShape(c: Consumer): Consumer {
    match c
    case CCopy(op, head, n, _) => CCopy(op, head, n, map[])
    case _ => c
  }

  function ProducerShape(p: Producer): Producer {
    match p
    case PCopy(data, tail, n, _) => PCopy(data, tail, n, {})
    case _ => p
  }

  lemma ExecOne(k: nat, buf: seq<byte>, run: seq<Step>, step: Step)
    requires k <= 32 && |buf| == Pow2(k) && Exec(k, buf, run + [step]).Some?
    ensures Exec(k, buf, run).Some?
    ensures var s := Exec(k, buf, run).value;
      Enabled(k, s, step) && Exec(k, buf, run + [step]).value == Apply(k, s, step) && Inv(k, s)
  {
    var longer := run + [step];
    assert longer[..|longer| - 1] == run && longer[|longer| - 1] == step;
    ReachableInv(k, buf, run);
  }

  // What the other side does meanwhile leaves a call and the bytes taken alone.
  ghost predicate ConsumerWaits(s: State, t: State) {
    && ConsumerShape(t.consumer) == ConsumerShape(s.consumer)
    && t.head == s.head && t.taken == s.taken && |s.published| <= |t.published|
  }

  ghost predicate ProducerWaits(s: State, t: State) {
    && ProducerShape(t.producer) == ProducerShape(s.producer)
    && t.tail == s.tail && t.published == s.published && |s.taken| <= |t.taken|
  }

  lemma ConsumerWaitsOne(k: nat, s: State, step: Step)
    requires k <= 32 && |s.buf| == Pow2(k) && Enabled(k, s, step) && AroundConsumer(step)
    ensures ConsumerWaits(s, Apply(k, s, step))
  {
  }

  lemma ProducerWaitsOne(k: nat, s: State, step: Step)
    requires k <= 32 && |s.buf| == Pow2(k) && Enabled(k, s, step) && AroundProducer(step)
    ensures ProducerWaits(s, Apply(k, s, step))
  {
  }

  lemma {:induction false} ConsumerWaiting(k: nat, buf: seq<byte>, run: seq<Step>, mid: seq<Step>)
    requires k <= 32 && |buf| == Pow2(k) && Exec(k, buf, run + mid).Some?
    requires forall step <- mid :: AroundConsumer(step)
    ensures Exec(k, buf, run).Some?
    ensures ConsumerWaits(Exec(k, buf, run).value, Exec(k, buf, run + mid).value)
    decreases |mid|
  {
    if mid == [] {
      assert run + mid == run;
    } else {
      var front, last := mid[..|mid| - 1], mid[|mid| - 1];
      assert run + mid == run + front + [last];
      ExecOne(k, buf, run + front, last);
      ConsumerWaiting(k, buf, run, front);
      ConsumerWaitsOne(k, Exec(k, buf, run + front).value, last);
    }
  }

  lemma {:induction false} ProducerWaiting(k: nat, buf: seq<byte>, run: seq<Step>, mid: seq<Step>)
    requires k <= 32 && |buf| == Pow2(k) && Exec(k, buf, run + mid).Some?
    requires forall step <- mid :: AroundProducer(step)
    ensures Exec(k, buf, run).Some?
    ensures ProducerWaits(Exec(k, buf, run).value, Exec(k, buf, run + mid).value)
    decreases |mid|
  {
    if mid == [] {
      assert run + mid == run;
    } else {
      var front, last := mid[..|mid| - 1], mid[|mid| - 1];
      assert run + mid == run + front + [last];
      ExecOne(k, buf, run + front, last);
      ProducerWaiting(k, buf, run, front);
      ProducerWaitsOne(k, Exec(k, buf, run + front).value, last);
    }
  }

  // A consumer call up to its second load: its first load after some run, then whatever the
  // producer does, then the second.
  function Loaded(pre: seq<Step>, op: Op, len: nat, mid: seq<Step>): seq<Step> {
    pre + [LoadFirst(op, len)] + mid
  }

  // The state a consumer call loads tail in.
  function Seen(k: nat, buf: seq<byte>, pre: seq<Step>, op: Op, len: nat, mid: seq<Step>): Option<State>
    requires k <= 32 && |buf| == Pow2(k)
  {
    Exec(k, buf, if op == Consume then pre else Loaded(pre, op, len, mid))
  }

  lemma LoadsKeep(k: nat, buf: seq<byte>, pre: seq<Step>, op: Op, len: nat, mid: seq<Step>)
    requires k <= 32 && |buf| == Pow2(k) && Exec(k, buf, Loaded(pre, op, len, mid)).Some?
    requires forall step <- mid :: OfProducer(step)
    ensures Exec(k, buf, pre).Some?
    ensures var was, s := Exec(k, buf, pre).value, Exec(k, buf, Loaded(pre, op, len, mid)).value;
      && Inv(k, was) && Inv(k, s) && s.taken == was.taken && |was.published| <= |s.published|
      && s.consumer == CFirst(op, len, if op == Consume then was.tail else s.head)
  {
    ConsumerWaiting(k, buf, pre + [LoadFirst(op, len)], mid);
    ExecOne(k, buf, pre, LoadFirst(op, len));
    ReachableInv(k, buf, Loaded(pre, op, len, mid));
  }

  // The number of bytes published and not yet taken.
  function Unread(s: State): int { |s.published| - |s.taken| }

  // However the producer moves during a call, it takes as many bytes as it asks for and as were
  // stored when it loaded tail, and is over at once when there are none, except for a drop.
  lemma ConsumerTakes(k: nat, buf: seq<byte>, pre: seq<Step>, op: Op, len: nat, mid: seq<Step>)
    requires k <= 32 && |buf| == Pow2(k)
    requires Exec(k, buf, Loaded(pre, op, len, mid) + [LoadSecond]).Some?
    requires forall step <- mid :: OfProducer(step)
    ensures Seen(k, buf, pre, op, len, mid).Some?
    ensures Unread(Seen(k, buf, pre, op, len, mid).value) >= 0
    ensures var seen := Seen(k, buf, pre, op, len, mid).value;
      var s := Exec(k, buf, Loaded(pre, op, len, mid) + [LoadSecond]).value;
      var n := Min(len, Unread(seen));
      && s.taken == seen.taken
      && s.consumer == if n == 0 && op != Drop then CIdle else CCopy(op, s.head, n, map[])
  {
    ExecOne(k, buf, Loaded(pre, op, len, mid), LoadSecond);
    LoadsKeep(k, buf, pre, op, len, mid);
    var seen := Seen(k, buf, pre, op, len, mid).value;
    CapacityBound(k);
    DistanceIsGap(|seen.taken|, |seen.published|);
  }

  // A call that finishes has taken, or passed over, exactly those bytes.
  lemma CallDelivers(k: nat, buf: seq<byte>, pre: seq<Step>, op: Op, len: nat, mid: seq<Step>, rest: seq<Step>)
    requires k <= 32 && |buf| == Pow2(k)
    requires var run := Loaded(pre, op, len, mid) + [LoadSecond] + rest;
      Exec(k, buf, run).Some? && Enabled(k, Exec(k, buf, run).value, Finish)
    requires forall step <- mid :: OfProducer(step)
    requires forall step <- rest :: AroundConsumer(step)
    ensures Seen(k, buf, pre, op, len, mid).Some?
    ensures var seen := Seen(k, buf, pre, op, len, mid).value;
      var s := Exec(k, buf, Loaded(pre, op, len, mid) + [LoadSecond] + rest).value;
      && s.taken == seen.taken && 0 <= Unread(seen) <= Unread(s)
      && Outcome(k, s) == s.published[|s.taken|..][..Min(len, Unread(seen))]
      && (op != Peek ==> Apply(k, s, Finish).taken == s.taken + Outcome(k, s))
      && (op == Peek ==> Apply(k, s, Finish).taken == s.taken)
  {
    var loaded := Loaded(pre, op, len, mid);
    ConsumerWaiting(k, buf, loaded + [LoadSecond], rest);
    ConsumerTakes(k, buf, pre, op, len, mid);
    ExecOne(k, buf, loaded, LoadSecond);
    LoadsKeep(k, buf, pre, op, len, mid);
    Delivers(k, buf, loaded + [LoadSecond] + rest);
  }

  // With a produce's data, what it claims of the ring it sees: as many bytes as it has and as are
  // free, none being the end of the call.
  ghost predicate Claims(k: nat, seen: State, data: seq<byte>, s: State) {
    && Unread(seen) <= Pow2(k) && s.published == seen.published && s.taken == seen.taken
    && var n := Min(|data|, Pow2(k) - Unread(seen));
       s.producer == if n == 0 then PIdle else PCopy(data, s.tail, n, {})
  }

  // However the consumer moves during a produce, it writes as many bytes as it has and as were
  // free when it loaded head, and is over at once when there are none.
  lemma ProducerTakes(k: nat, buf: seq<byte>, pre: seq<Step>, data: seq<byte>, mid: seq<Step>)
    requires k <= 32 && |buf| == Pow2(k)
    requires Exec(k, buf, pre + [LoadTail(data)] + mid + [LoadHead]).Some?
    requires forall step <- mid :: !OfProducer(step)
    ensures Exec(k, buf, pre + [LoadTail(data)] + mid).Some?
    ensures Claims(k, Exec(k, buf, pre + [LoadTail(data)] + mid).value, data,
                   Exec(k, buf, pre + [LoadTail(data)] + mid + [LoadHead]).value)
  {
    ExecOne(k, buf, pre + [LoadTail(data)] + mid, LoadHead);
    TailLoaded(k, buf, pre, data, mid);
    HeadLoaded(k, buf, pre + [LoadTail(data)] + mid, data);
  }

  lemma HeadLoaded(k: nat, buf: seq<byte>, run: seq<Step>, data: seq<byte>)
    requires k <= 32 && |buf| == Pow2(k) && Exec(k, buf, run).Some?
    requires Exec(k, buf, run).value.producer == PTail(data, Exec(k, buf, run).value.tail)
    ensures Exec(k, buf, run + [LoadHead]).Some?
    ensures Claims(k, Exec(k, buf, run).value, data, Exec(k, buf, run + [LoadHead]).value)
  {
    ReachableInv(k, buf, run);
    ExecMore(k, buf, run, LoadHead);
    FreeIsTaken(k, Exec(k, buf, run).value, data);
  }

  lemma TailLoaded(k: nat, buf: seq<byte>, pre: seq<Step>, data: seq<byte>, mid: seq<Step>)
    requires k <= 32 && |buf| == Pow2(k) && Exec(k, buf, pre + [LoadTail(data)] + mid).Some?
    requires forall step <- mid :: !OfProducer(step)
    ensures var s := Exec(k, buf, pre + [LoadTail(data)] + mid).value;
      Inv(k, s) && s.producer == PTail(data, s.tail)
  {
    ProducerWaiting(k, buf, pre + [LoadTail(data)], mid);
    ExecOne(k, buf, pre, LoadTail(data));
    ReachableInv(k, buf, pre + [LoadTail(data)] + mid);
  }

  lemma FreeIsTaken(k: nat, s: State, data: seq<byte>)
    requires k <= 32 && Inv(k, s) && s.producer == PTail(data, s.tail)
    ensures Unread(s) <= Pow2(k)
    ensures var n := Min(|data|, Pow2(k) - Unread(s));
      var t := Apply(k, s, LoadHead);
      && t.published == s.published && t.taken == s.taken
      && t.producer == if n == 0 then PIdle else PCopy(data, t.tail, n, {})
  {
    UsedIsUnread(k, s);
    HeadDecides(k, s, data);
  }

  lemma UsedIsUnread(k: nat, s: State)
    requires k <= 32 && Inv(k, s)
    ensures Ring.Distance(s.head, s.tail) == Unread(s) && 0 <= Unread(s) <= Pow2(k) <= TWO32
  {
    CapacityBound(k);
    DistanceIsGap(|s.taken|, |s.published|);
  }

  lemma HeadDecides(k: nat, s: State, data: seq<byte>)
    requires k <= 32 && |s.buf| == Pow2(k) && s.producer == PTail(data, s.tail)
    requires Ring.Distance(s.head, s.tail) == Unread(s) && 0 <= Unread(s) <= Pow2(k) <= TWO32
    ensures var n := Min(|data|, Pow2(k) - Unread(s));
      var t := Apply(k, s, LoadHead);
      && t.published == s.published && t.taken == s.taken
      && t.producer == if n == 0 then PIdle else PCopy(data, t.tail, n, {})
  {
    assert (Pow2(k) - Unread(s)) % TWO64 == Pow2(k) - Unread(s);
  }

  // A produce that publishes has appended exactly those bytes.
  lemma CallPublishes(k: nat, buf: seq<byte>, pre: seq<Step>, data: seq<byte>, mid: seq<Step>, rest: seq<Step>)
    requires k <= 32 && |buf| == Pow2(k)
    requires var run := pre + [LoadTail(data)] + mid + [LoadHead] + rest;
      Exec(k, buf, run).Some? && Enabled(k, Exec(k, buf, run).value, Publish)
    requires forall step <- mid :: !OfProducer(step)
    requires forall step <- rest :: AroundProducer(step)
    ensures Exec(k, buf, pre + [LoadTail(data)] + mid).Some?
    ensures var seen := Exec(k, buf, pre + [LoadTail(data)] + mid).value;
      var s := Exec(k, buf, pre + [LoadTail(data)] + mid + [LoadHead] + rest).value;
      && s.published == seen.published && Unread(seen) <= Pow2(k)
      && Apply(k, s, Publish).published == s.published + data[..Min(|data|, Pow2(k) - Unread(seen))]
  {
    var loaded := pre + [LoadTail(data)] + mid;
    ProducerWaiting(k, buf, loaded + [LoadHead], rest);
    ProducerTakes(k, buf, pre, data, mid);
    PublishesClaim(k, Exec(k, buf, loaded).value, data, Exec(k, buf, loaded + [LoadHead]).value,
                   Exec(k, buf, loaded + [LoadHead] + rest).value);
  }

  lemma PublishesClaim(k: nat, seen: State, data: seq<byte>, claimed: State, s: State)
    requires k <= 32 && |s.buf| == Pow2(k) && Enabled(k, s, Publish)
    requires Claims(k, seen, data, claimed) && ProducerWaits(claimed, s)
    ensures s.published == seen.published && Unread(seen) <= Pow2(k)
    ensures Apply(k, s, Publish).published == s.published + data[..Min(|data|, Pow2(k) - Unread(seen))]
  {
  }

  // ---- no call is stuck ----

  // The next byte to copy, when some of the first n are missing.
  lemma LeastMissing(done: set<nat>, n: nat) returns (i: nat)
    requires exists j: nat :: j < n && j !in done
    ensures i < n && i !in done && forall j: nat | j < i :: j in done
  {
    i := 0;
    while i in done
      invariant i < n && forall j: nat | j < i :: j in done
      decreases n - i
    {
      i := i + 1;
    }
  }

  // In every interleaving a call under way can go on, whatever the other side does.
  lemma NeverStuck(k: nat, buf: seq<byte>, steps: seq<Step>)
    requires k <= 32 && |buf| == Pow2(k) && Exec(k, buf, steps).Some?
    ensures var s := Exec(k, buf, steps).value;
      && (exists step: Step :: OfProducer(step) && Enabled(k, s, step))
      && (exists step: Step :: !OfProducer(step) && Enabled(k, s, step))
  {
    var s := Exec(k, buf, steps).value;
    ReachableInv(k, buf, steps);
    ProducerGoesOn(k, s);
    ConsumerGoesOn(k, s);
  }

  lemma ProducerGoesOn(k: nat, s: State)
    requires k <= 32 && Inv(k, s)
    ensures exists step: Step :: OfProducer(step) && Enabled(k, s, step)
  {
    var step := match s.producer
      case PIdle => LoadTail([])
      case PTail(_, _) => LoadHead
      case PCopy(_, _, _, _) => Publish;
    if !Enabled(k, s, step) {
      var i := LeastMissing(s.producer.done, s.producer.n);
      step := Write(i);
    }
    assert OfProducer(step) && Enabled(k, s, step);
  }

  lemma ConsumerGoesOn(k: nat, s: State)
    requires k <= 32 && Inv(k, s)
    ensures exists step: Step :: !OfProducer(step) && Enabled(k, s, step)
  {
    var step := match s.consumer
      case CIdle => LoadFirst(Consume, 0)
      case CFirst(_, _, _) => LoadSecond
      case CCopy(_, _, _, _) => Finish;
    if !Enabled(k, s, step) {
      var i := LeastMissing(s.consumer.got.Keys, s.consumer.n);
      step := Read(i);
    }
    assert !OfProducer(step) && Enabled(k, s, step);
  }

  // ---- whole calls on their own ----

  lemma ExecMore(k: nat, buf: seq<byte>, run: seq<Step>, step: Step)
    requires k <= 32 && |buf| == Pow2(k) && Exec(k, buf, run).Some?
    requires Enabled(k, Exec(k, buf, run).value, step)
    ensures Exec(k, buf, run + [step]) == Some(Apply(k, Exec(k, buf, run).value, step))
    ensures Inv(k, Apply(k, Exec(k, buf, run).value, step))
  {
    var longer := run + [step];
    assert longer[..|longer| - 1] == run && longer[|longer| - 1] == step;
    ReachableInv(k, buf, run);
    StepKeepsInv(k, Exec(k, buf, run).value, step);
  }

  lemma {:induction false} WritesAlone(k: nat, buf: seq<byte>, run: seq<Step>) returns (longer: seq<Step>)
    requires k <= 32 && |buf| == Pow2(k) && Exec(k, buf, run).Some?
    requires Exec(k, buf, run).value.producer.PCopy?
    ensures Exec(k, buf, longer).Some?
    ensures ProducerWaits(Exec(k, buf, run).value, Exec(k, buf, longer).value)
    ensures Exec(k, buf, longer).value.taken == Exec(k, buf, run).value.taken
    ensures Enabled(k, Exec(k, buf, longer).value, Publish)
    decreases Exec(k, buf, run).value.producer.n - |Exec(k, buf, run).value.producer.done|
  {
    var s := Exec(k, buf, run).value;
    var p := s.producer;
    ReachableInv(k, buf, run);
    FewerThan(p.done, p.n);
    if Enabled(k, s, Publish) {
      return run;
    }
    var i := LeastMissing(p.done, p.n);
    assert Enabled(k, s, Write(i));
    ExecMore(k, buf, run, Write(i));
    FewerThan(p.done + {i}, p.n);
    longer := WritesAlone(k, buf, run + [Write(i)]);
  }

  lemma {:induction false} FewerThan(done: set<nat>, n: nat)
    requires forall i <- done :: i < n
    ensures |done| <= n
    decreases n
  {
    if n == 0 {
      assert done == {};
    } else {
      FewerThan(done - {n - 1}, n - 1);
      assert done <= done - {n - 1} + {n - 1};
    }
  }

  lemma ProduceLoads(k: nat, buf: seq<byte>, run: seq<Step>, data: seq<byte>)
    requires k <= 32 && |buf| == Pow2(k) && Exec(k, buf, run).Some? && Exec(k, buf, run).value.producer.PIdle?
    ensures Exec(k, buf, run + [LoadTail(data)] + [LoadHead]).Some?
    ensures Claims(k, Exec(k, buf, run).value, data, Exec(k, buf, run + [LoadTail(data)] + [LoadHead]).value)
  {
    var s, loading := Exec(k, buf, run).value, run + [LoadTail(data)];
    ExecMore(k, buf, run, LoadTail(data));
    TailIs(k, s, data);
    assert Exec(k, buf, loading).value == s.(producer := PTail(data, s.tail));
    HeadLoaded(k, buf, loading, data);
    SameClaims(k, s, s.(producer := PTail(data, s.tail)), data, Exec(k, buf, loading + [LoadHead]).value);
  }

  lemma SameClaims(k: nat, a: State, b: State, data: seq<byte>, s: State)
    requires Claims(k, b, data, s) && a.published == b.published && a.taken == b.taken
    ensures Claims(k, a, data, s)
  {
  }

  lemma TailIs(k: nat, s: State, data: seq<byte>)
    requires k <= 32 && |s.buf| == Pow2(k) && s.producer.PIdle?
    ensures Apply(k, s, LoadTail(data)) == s.(producer := PTail(data, s.tail))
  {
  }

  lemma Publishes(k: nat, s: State, data: seq<byte>, n: nat)
    requires k <= 32 && |s.buf| == Pow2(k) && Enabled(k, s, Publish) && n <= |data|
    requires s.producer.data == data && s.producer.n == n
    ensures var t := Apply(k, s, Publish);
      t.producer.PIdle? && t.taken == s.taken && t.published == s.published + data[..n]
  {
  }

  // From every reachable state an idle producer can append as many of its bytes as fit, whatever
  // the consumer is in the middle of.
  lemma ProduceAlone(k: nat, buf: seq<byte>, run: seq<Step>, data: seq<byte>) returns (longer: seq<Step>)
    requires k <= 32 && |buf| == Pow2(k) && Exec(k, buf, run).Some? && Exec(k, buf, run).value.producer.PIdle?
    ensures Exec(k, buf, longer).Some? && Exec(k, buf, longer).value.producer.PIdle?
    ensures Unread(Exec(k, buf, run).value) <= Pow2(k)
    ensures var s, t := Exec(k, buf, run).value, Exec(k, buf, longer).value;
      t.taken == s.taken && t.published == s.published + data[..Min(|data|, Pow2(k) - Unread(s))]
  {
    ProduceLoads(k, buf, run, data);
    longer := run + [LoadTail(data)] + [LoadHead];
    var n := Min(|data|, Pow2(k) - Unread(Exec(k, buf, run).value));
    if n > 0 {
      longer := PublishAlone(k, buf, longer, data, n);
    } else {
      assert data[..0] == [];
    }
  }

  lemma PublishAlone(k: nat, buf: seq<byte>, run: seq<Step>, data: seq<byte>, n: nat) returns (longer: seq<Step>)
    requires k <= 32 && |buf| == Pow2(k) && Exec(k, buf, run).Some? && n <= |data|
    requires ProducerShape(Exec(k, buf, run).value.producer) == PCopy(data, Exec(k, buf, run).value.tail, n, {})
    ensures Exec(k, buf, longer).Some? && Exec(k, buf, longer).value.producer.PIdle?
    ensures var s, t := Exec(k, buf, run).value, Exec(k, buf, longer).value;
      t.taken == s.taken && t.published == s.published + data[..n]
  {
    longer := WritesAlone(k, buf, run);
    Publishes(k, Exec(k, buf, longer).value, data, n);
    ExecMore(k, buf, longer, Publish);
    longer := longer + [Publish];
  }

  lemma {:induction false} ReadsAlone(k: nat, buf: seq<byte>, run: seq<Step>) returns (longer: seq<Step>)
    requires k <= 32 && |buf| == Pow2(k) && Exec(k, buf, run).Some?
    requires Exec(k, buf, run).value.consumer.CCopy?
    ensures Exec(k, buf, longer).Some?
    ensures ConsumerWaits(Exec(k, buf, run).value, Exec(k, buf, longer).value)
    ensures Exec(k, buf, longer).value.published == Exec(k, buf, run).value.published
    ensures Enabled(k, Exec(k, buf, longer).value, Finish)
    decreases Exec(k, buf, run).value.consumer.n - |Exec(k, buf, run).value.consumer.got.Keys|
  {
    var s := Exec(k, buf, run).value;
    var c := s.consumer;
    ReachableInv(k, buf, run);
    FewerThan(c.got.Keys, c.n);
    if Enabled(k, s, Finish) {
      return run;
    }
    var i := LeastMissing(c.got.Keys, c.n);
    assert Enabled(k, s, Read(i));
    ExecMore(k, buf, run, Read(i));
    var t := Apply(k, s, Read(i));
    assert t.consumer.got.Keys == c.got.Keys + {i};
    FewerThan(t.consumer.got.Keys, c.n);
    longer := ReadsAlone(k, buf, run + [Read(i)]);
  }

  lemma ConsumeLoads(k: nat, buf: seq<byte>, run: seq<Step>, op: Op, len: nat)
    requires k <= 32 && |buf| == Pow2(k) && Exec(k, buf, run).Some? && Exec(k, buf, run).value.consumer.CIdle?
    ensures Exec(k, buf, run + [LoadFirst(op, len)] + [LoadSecond]).Some?
    ensures Unread(Exec(k, buf, run).value) >= 0
    ensures var s, t := Exec(k, buf, run).value, Exec(k, buf, run + [LoadFirst(op, len)] + [LoadSecond]).value;
      var n := Min(len, Unread(s));
      && t.taken == s.taken && t.published == s.published
      && t.consumer == if n == 0 && op != Drop then CIdle else CCopy(op, t.head, n, map[])
  {
    ExecMore(k, buf, run, LoadFirst(op, len));
    ReachableInv(k, buf, run);
    var loading := run + [LoadFirst(op, len)];
    ExecMore(k, buf, loading, LoadSecond);
    SecondLoads(k, Exec(k, buf, loading).value, op, len);
  }

  lemma SecondLoads(k: nat, s: State, op: Op, len: nat)
    requires k <= 32 && Inv(k, s) && s.consumer == CFirst(op, len, if op == Consume then s.tail else s.head)
    ensures Unread(s) >= 0
    ensures var n := Min(len, Unread(s));
      var t := Apply(k, s, LoadSecond);
      && t.taken == s.taken && t.published == s.published
      && t.consumer == if n == 0 && op != Drop then CIdle else CCopy(op, t.head, n, map[])
  {
    UsedIsUnread(k, s);
  }

  lemma Finishes(k: nat, s: State, op: Op, n: nat)
    requires k <= 32 && Inv(k, s) && Enabled(k, s, Finish) && s.consumer.op == op && s.consumer.n == n
    ensures |s.taken| + n <= |s.published|
    ensures var t := Apply(k, s, Finish);
      && t.consumer.CIdle? && t.published == s.published
      && t.taken == if op == Peek then s.taken else s.published[..|s.taken| + n]
  {
    OutcomeIsNext(k, s);
    TakenIsPrefix(s.published, |s.taken|, n);
  }

  // From every reachable state an idle consumer can take as many of the stored bytes as it asks
  // for, whatever the producer is in the middle of.
  lemma ConsumeAlone(k: nat, buf: seq<byte>, run: seq<Step>, op: Op, len: nat) returns (longer: seq<Step>)
    requires k <= 32 && |buf| == Pow2(k) && Exec(k, buf, run).Some? && Exec(k, buf, run).value.consumer.CIdle?
    ensures Exec(k, buf, longer).Some? && Exec(k, buf, longer).value.consumer.CIdle?
    ensures Unread(Exec(k, buf, run).value) >= 0
    ensures var s, t := Exec(k, buf, run).value, Exec(k, buf, longer).value;
      && t.published == s.published
      && t.taken == if op == Peek then s.taken else s.published[..|s.taken| + Min(len, Unread(s))]
  {
    ConsumeLoads(k, buf, run, op, len);
    longer := run + [LoadFirst(op, len)] + [LoadSecond];
    var n := Min(len, Unread(Exec(k, buf, run).value));
    if n == 0 && op != Drop {
      TakenAll(k, buf, run);
    } else {
      longer := ReadsAlone(k, buf, longer);
      ReachableInv(k, buf, longer);
      Finishes(k, Exec(k, buf, longer).value, op, n);
      ExecMore(k, buf, longer, Finish);
      longer := longer + [Finish];
    }
  }

  lemma TakenAll(k: nat, buf: seq<byte>, run: seq<Step>)
    requires k <= 32 && |buf| == Pow2(k) && Exec(k, buf, run).Some?
    ensures var s := Exec(k, buf, run).value;
      |s.taken| <= |s.published| && s.taken == s.published[..|s.taken|]
  {
    ReachableInv(k, buf, run);
  }

  lemma TakenIsPrefix(published: seq<byte>, taken: nat, n: nat)
    requires taken + n <= |published|
    ensures published[..taken] + published[taken..taken + n] == published[..taken + n]
  {
  }
}
