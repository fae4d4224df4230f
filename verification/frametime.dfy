// Frame-time statistics over a sliding window of 240 durations, in nanoseconds.
module FrameTime {
  import opened Words

  const HISTORY: nat := 240

  // The members of the report, in nanoseconds and before the conversion to milliseconds:
  // the window length, the sum the averages come from, the 1% low and the maximum.
  datatype Stats = Stats(n: nat, sum: nat, low1: nat, max: nat)

  function Sum(s: seq<nat>): nat {
    if s == [] then 0 else Sum(s[..|s| - 1]) + s[|s| - 1]
  }

  // It adds up, whatever the order.
  lemma {:induction false} SumIs(a: seq<nat>, b: seq<nat>)
    ensures Sum(a + b) == Sum(a) + Sum(b)
    ensures forall x: nat :: Sum([x]) == x
    decreases |b|
  {
    forall x: nat
      ensures Sum([x]) == x
    {
      assert [x][..0] == [];
    }
    if b == [] {
      assert a + b == a;
    } else {
      SumIs(a, b[..|b| - 1]);
      assert (a + b)[..|a + b| - 1] == a + b[..|b| - 1];
    }
  }

  ghost predicate Sorted(s: seq<nat>) {
    forall i, j | 0 <= i < j < |s| :: s[i] <= s[j]
  }

  // (size_t)(0.99 * n) - 1, which wraps for n == 1, then clamped to the last index.
  function LowIndex(n: nat): (i: nat)
    requires 0 < n <= HISTORY
    ensures i < n
  {
    var i := (99 * n / 100 - 1) % TWO64;
    if i >= n then n - 1 else i
  }

  // How many of the values are at most v.
  function CountUpTo(s: seq<nat>, v: nat): (c: nat)
    ensures c <= |s|
  {
    if s == [] then 0
    else CountUpTo(s[..|s| - 1], v) + if s[|s| - 1] <= v then 1 else 0
  }

  lemma {:induction false} FirstAreUpTo(s: seq<nat>, k: nat)
    requires Sorted(s) && k < |s|
    ensures CountUpTo(s, s[k]) > k
  {
    var front := s[..|s| - 1];
    if k < |s| - 1 {
      FirstAreUpTo(front, k);
    } else {
      AllUpTo(front, s[k]);
    }
  }

  lemma {:induction false} AllUpTo(s: seq<nat>, v: nat)
    requires forall i | 0 <= i < |s| :: s[i] <= v
    ensures CountUpTo(s, v) == |s|
  {
    if s != [] {
      AllUpTo(s[..|s| - 1], v);
    }
  }

  // Counting does not depend on the order.
  lemma {:induction false} CountOfPermutation(s: seq<nat>, t: seq<nat>, v: nat)
    requires multiset(s) == multiset(t)
    ensures CountUpTo(s, v) == CountUpTo(t, v)
    decreases |s|
  {
    assert |s| == |multiset(s)| == |multiset(t)| == |t|;
    if s != [] {
      var x, front := s[|s| - 1], s[..|s| - 1];
      WithoutOne(s, |s| - 1);
      assert front + s[|s|..] == front;
      assert x in multiset(t);
      var k :| 0 <= k < |t| && t[k] == x;
      WithoutOne(t, k);
      CountOfPermutation(front, t[..k] + t[k + 1..], v);
      CountWithout(t, k, v);
    }
  }

  lemma WithoutOne(t: seq<nat>, k: nat)
    requires k < |t|
    ensures multiset(t[..k] + t[k + 1..]) == multiset(t) - multiset{t[k]}
  {
    assert t == t[..k] + [t[k]] + t[k + 1..];
  }

  lemma {:induction false} CountWithout(t: seq<nat>, k: nat, v: nat)
    requires k < |t|
    ensures CountUpTo(t, v) == CountUpTo(t[..k] + t[k + 1..], v) + if t[k] <= v then 1 else 0
    decreases |t|
  {
    var last := |t| - 1;
    if k == last {
      assert t[..k] + t[k + 1..] == t[..last];
    } else {
      CountWithout(t[..last], k, v);
      var rest := t[..k] + t[k + 1..];
      assert rest[..|rest| - 1] == t[..last][..k] + t[..last][k + 1..];
      assert rest[|rest| - 1] == t[last];
    }
  }

  // The rank the 1% low has in a sorted window.
  lemma LowIndexRank(n: nat)
    requires 0 < n <= HISTORY
    ensures n >= 2 ==> LowIndex(n) == 99 * n / 100 - 1
    ensures n == 1 ==> LowIndex(n) == 0
  {
    if n >= 2 {
      assert 1 <= 99 * n / 100 <= n;
    }
  }

  ghost predicate IsMaximum(v: nat, s: seq<nat>) {
    v in s && forall x <- s :: x <= v
  }

  // The place of entry i of the new window is that of entry i + drop of the old one, and the one
  // just written exactly for the newest.
  lemma CellsShift(at: nat, was: nat, count: nat, i: nat)
    requires at < HISTORY && was <= HISTORY && i < count
    requires count == if was < HISTORY then was + 1 else was
    ensures var k := i + (was + 1 - count);
      && ((at + 1) % HISTORY + HISTORY - count + i) % HISTORY == (at + HISTORY - was + k) % HISTORY
      && ((at + HISTORY - was + k) % HISTORY == at <==> k == was)
  {
    Around(at + 1);
    Around((at + 1) % HISTORY + HISTORY - count + i);
    Around(at + HISTORY - was + i + (was + 1 - count));
  }

  // The last min(|frames|, 240) of the recorded frames.
  function Latest(frames: seq<nat>): (w: seq<nat>)
    ensures |w| == Min(|frames|, HISTORY)
  {
    frames[|frames| - Min(|frames|, HISTORY)..]
  }

  // They lie before pos around the buffer, oldest first.
  ghost predicate Circular(cells: seq<nat>, frames: seq<nat>, pos: nat, count: nat) {
    && |cells| == HISTORY && pos < HISTORY && count == Min(|frames|, HISTORY)
    && forall i | 0 <= i < count :: cells[(pos + HISTORY - count + i) % HISTORY] == Latest(frames)[i]
  }

  lemma WindowMoves(cells: seq<nat>, frames: seq<nat>, pos: nat, count: nat, frame: nat)
    requires Circular(cells, frames, pos, count)
    ensures Circular(cells[pos := frame], frames + [frame], (pos + 1) % HISTORY,
                     if count < HISTORY then count + 1 else count)
  {
    var now := if count < HISTORY then count + 1 else count;
    var before, after := Latest(frames), Latest(frames + [frame]);
    assert after == before[count + 1 - now..] + [frame];
    forall i | 0 <= i < now
      ensures cells[pos := frame][((pos + 1) % HISTORY + HISTORY - now + i) % HISTORY] == after[i]
    {
      CellsShift(pos, count, now, i);
      var k := i + (count + 1 - now);
      if k < count {
        assert cells[(pos + HISTORY - count + k) % HISTORY] == before[k];
      }
    }
  }

  lemma Around(x: nat)
    requires x < 2 * HISTORY
    ensures x % HISTORY == if x < HISTORY then x else x - HISTORY
  {
  }

  class FrameTimes {
    var history: array<nat>
    var count: nat
    var pos: nat
    ghost var frames: seq<nat>  // every duration ever recorded

    // The frames in the window: the last min(|frames|, 240).
    ghost function Window(): (w: seq<nat>)
      reads this
      ensures |w| == Min(|frames|, HISTORY)
    {
      Latest(frames)
    }

    ghost predicate Valid()
      reads this, history
    {
      history.Length == HISTORY && Circular(history[..], frames, pos, count)
    }

    constructor ()
      ensures Valid() && frames == [] && fresh(history)
    {
      history, count, pos, frames := new nat[HISTORY], 0, 0, [];
    }

    method Add(frame: nat)
      requires Valid()
      modifies this, history
      ensures Valid() && frames == old(frames) + [frame] && history == old(history)
    {
      WindowMoves(history[..], frames, pos, count, frame);
      history[pos] := frame;
      pos := (pos + 1) % HISTORY;
      if count < HISTORY {
        count := count + 1;
      }
      frames := frames + [frame];
    }

    // cellar_frametime_report: None for an empty history.
    method Report() returns (stats: Stats, sorted: seq<nat>)
      requires Valid()
      ensures frames == [] ==> stats == Stats(0, 0, 0, 0) && sorted == []
      ensures frames != [] ==>
        && Sorted(sorted) && multiset(sorted) == multiset(Window())
        && stats.n == |sorted| == |Window()| && stats.sum == Sum(Window())
        && IsMaximum(stats.max, Window())
        && stats.low1 == sorted[LowIndex(stats.n)]
    {
      var n := count;
      if n == 0 {
        return Stats(0, 0, 0, 0), [];
      }
      ghost var w := Window();
      var window, sum := CopyWindow();
      InsertionSort(window);
      sorted := window[..];
      LastIsMaximum(sorted, w);
      assert sum == Sum(w) && Window() == w;
      return Stats(n, sum, window[LowIndex(n)], window[n - 1]), sorted;
    }

    // The first loop: the window, oldest first, and its sum.
    method CopyWindow() returns (window: array<nat>, sum: nat)
      requires Valid()
      ensures fresh(window) && window[..] == Window() && sum == Sum(Window())
    {
      var n := count;
      ghost var w := Window();
      window := new nat[n];
      sum := 0;
      for i := 0 to n
        invariant window[..i] == w[..i] && sum == Sum(w[..i])
      {
        assert history[..][(pos + HISTORY - n + i) % HISTORY] == w[i];
        window[i] := history[(pos + HISTORY - n + i) % HISTORY];
        assert w[..i + 1] == w[..i] + [w[i]];
        sum := sum + window[i];
      }
      assert w[..n] == w;
    }
  }

  lemma SameElements(s: seq<nat>, t: seq<nat>)
    requires multiset(s) == multiset(t)
    ensures forall x :: x in s <==> x in t
  {
    forall x
      ensures x in s <==> x in t
    {
      assert x in s <==> x in multiset(s);
      assert x in t <==> x in multiset(t);
    }
  }

  lemma LastIsMaximum(sorted: seq<nat>, window: seq<nat>)
    requires window != [] && Sorted(sorted) && multiset(sorted) == multiset(window)
    ensures |sorted| == |window| && IsMaximum(sorted[|sorted| - 1], window)
  {
    assert |sorted| == |multiset(sorted)| == |multiset(window)|;
    SameElements(sorted, window);
  }

  // The in-place insertion sort of the report.
  method InsertionSort(a: array<nat>)
    modifies a
    ensures Sorted(a[..]) && multiset(a[..]) == multiset(old(a[..]))
  {
    if a.Length == 0 {
      return;
    }
    var i := 1;
    while i < a.Length
      invariant 1 <= i <= a.Length
      invariant Sorted(a[..i]) && multiset(a[..]) == multiset(old(a[..]))
    {
      Insert(a, i);
      i := i + 1;
    }
    assert a[..i] == a[..];
  }

  // Moves a[i] down into the sorted prefix.
  method Insert(a: array<nat>, i: nat)
    requires i < a.Length && Sorted(a[..i])
    modifies a
    ensures Sorted(a[..i + 1]) && multiset(a[..]) == multiset(old(a[..]))
  {
    var key := a[i];
    var j := i;
    ghost var virtual := a[..];  // the array with the key back in the hole
    while j > 0 && a[j - 1] > key
      invariant j <= i && |virtual| == a.Length && virtual[j] == key
      invariant forall k | 0 <= k < a.Length && k != j :: a[k] == virtual[k]
      invariant multiset(virtual) == multiset(old(a[..]))
      invariant SortedAround(virtual, i, j)
    {
      a[j] := a[j - 1];
      ShiftKeepsSorted(virtual, i, j);
      virtual := virtual[j := virtual[j - 1]][j - 1 := key];
      j := j - 1;
    }
    a[j] := key;
    assert a[..] == virtual;
    KeyIsPlaced(virtual, i, j);
  }

  // s[..i + 1] is sorted apart from s[j], which is less than everything after it.
  ghost predicate SortedAround(s: seq<nat>, i: nat, j: nat)
    requires j <= i < |s|
  {
    && (forall p, q | 0 <= p < q <= i && p != j && q != j :: s[p] <= s[q])
    && (forall q | j < q <= i :: s[j] < s[q])
  }

  lemma KeyIsPlaced(s: seq<nat>, i: nat, j: nat)
    requires j <= i < |s| && SortedAround(s, i, j) && (j == 0 || s[j - 1] <= s[j])
    ensures Sorted(s[..i + 1])
  {
  }

  lemma ShiftKeepsSorted(s: seq<nat>, i: nat, j: nat)
    requires 0 < j <= i < |s| && SortedAround(s, i, j) && s[j] < s[j - 1]
    ensures SortedAround(s[j := s[j - 1]][j - 1 := s[j]], i, j - 1)
    ensures multiset(s[j := s[j - 1]][j - 1 := s[j]]) == multiset(s)
  {
  }

  // For any history the reported 1% low is a recorded duration of the window with at least
  // floor(99 n / 100) of the window's n frames at or below it.
  lemma LowIsRecorded(window: seq<nat>, sorted: seq<nat>)
    requires 2 <= |window| <= HISTORY && Sorted(sorted) && multiset(sorted) == multiset(window)
    ensures |sorted| == |window|
    ensures var low := sorted[LowIndex(|window|)];
      low in window && CountUpTo(window, low) >= 99 * |window| / 100
  {
    assert |sorted| == |multiset(sorted)| == |multiset(window)|;
    var k := LowIndex(|window|);
    LowIndexRank(|window|);
    SameElements(sorted, window);
    FirstAreUpTo(sorted, k);
    CountOfPermutation(sorted, window, sorted[k]);
  }
}
