// The futex counting semaphore as a step system over any number of threads. The
// count is a C int: atomic_fetch_add wraps at 32 bits.
module Semaphore {
  import opened Status
  import opened Words

  const INT_MAX: int := 0x7FFF_FFFF
  const INT_MIN: int := -0x8000_0000

  function Wrap32(x: int): (r: i32) {
    (x - INT_MIN) % 0x1_0000_0000 + INT_MIN
  }

  // c is the value the waiting thread last saw.
  datatype Pc = Idle | Load | Cas(c: i32) | WaitCall(c: i32) | Sleeping | WakeCall

  // initial, posts and waits are histories: the start count, the completed increments
  // and the completed decrements.
  datatype State = State(count: i32, pcs: map<Tid, Pc>, initial: i32, posts: nat, waits: nat) {
    function Goto(t: Tid, pc: Pc): State {
      this.(pcs := pcs[t := pc])
    }

    function Balance(): int {
      initial + posts - waits
    }
  }

  datatype Step =
    | CallWait(t: Tid)
    | LoadCount(t: Tid)
    | TakeOne(t: Tid, spurious: bool)
    | FutexWait(t: Tid)
    | WakeUp(t: Tid)
    | Post(t: Tid)
    | FutexWake(t: Tid, sleeper: Option<Tid>)

  predicate Enabled(s: State, step: Step) {
    && step.t in s.pcs
    && var pc := s.pcs[step.t];
       match step
       case CallWait(_) => pc == Idle
       case LoadCount(_) => pc == Load
       case TakeOne(_, _) => pc.Cas?
       case FutexWait(_) => pc.WaitCall?
       case WakeUp(_) => pc == Sleeping
       case Post(_) => pc == Idle
       case FutexWake(_, None) => pc == WakeCall && forall u <- s.pcs :: s.pcs[u] != Sleeping
       case FutexWake(_, Some(u)) => pc == WakeCall && u in s.pcs && s.pcs[u] == Sleeping
  }

  function Apply(s: State, step: Step): State
    requires Enabled(s, step)
  {
    match step
    case CallWait(t) => s.Goto(t, Load)
    case LoadCount(t) => s.Goto(t, if s.count > 0 then Cas(s.count) else WaitCall(s.count))
    case TakeOne(t, spurious) =>
      if s.count == s.pcs[t].c && !spurious
      then s.(count := Wrap32(s.pcs[t].c - 1), waits := s.waits + 1).Goto(t, Idle)
      else s.Goto(t, WaitCall(s.count))
    case FutexWait(t) => s.Goto(t, if s.count == s.pcs[t].c then Sleeping else Load)
    case WakeUp(t) => s.Goto(t, Load)
    case Post(t) => s.(count := Wrap32(s.count + 1), posts := s.posts + 1).Goto(t, WakeCall)
    case FutexWake(t, u) =>
      var woken := if u.Some? then s.Goto(u.value, Load) else s;
      woken.Goto(t, Idle)
  }

  function Init(threads: set<Tid>, initial: i32): State {
    State(initial, map t | t in threads :: Idle, initial, 0, 0)
  }

  function Exec(s: State, steps: seq<Step>): (r: Option<State>)
    decreases |steps|
  {
    if steps == [] then Some(s)
    else if !Enabled(s, steps[0]) then None
    else Exec(Apply(s, steps[0]), steps[1..])
  }

  // A compare-and-swap is only ever tried for a positive count.
  ghost predicate Inv(s: State) {
    && s.count == Wrap32(s.Balance())
    && (forall t <- s.pcs :: s.pcs[t].Cas? ==> s.pcs[t].c > 0)
  }

  lemma StepKeepsInv(s: State, step: Step)
    requires Inv(s) && Enabled(s, step)
    ensures Inv(Apply(s, step))
  {
    WrapAdd(s.Balance(), 1);
    WrapAdd(s.Balance(), -1);
  }

  lemma WrapAdd(x: int, d: int)
    ensures Wrap32(Wrap32(x) + d) == Wrap32(x + d)
  {
  }

  lemma {:induction false} RunKeepsInv(s: State, steps: seq<Step>)
    requires Inv(s) && Exec(s, steps).Some?
    ensures Inv(Exec(s, steps).value)
    decreases |steps|
  {
    if steps != [] {
      StepKeepsInv(s, steps[0]);
      RunKeepsInv(Apply(s, steps[0]), steps[1..]);
    }
  }

  // In every run the count is the start count plus posts minus waits, modulo 2^32.
  lemma Conservation(threads: set<Tid>, initial: i32, steps: seq<Step>)
    requires Exec(Init(threads, initial), steps).Some?
    ensures Exec(Init(threads, initial), steps).value.count
         == Wrap32(Exec(Init(threads, initial), steps).value.Balance())
  {
    RunKeepsInv(Init(threads, initial), steps);
  }

  // No post of the run finds the count at INT_MAX.
  ghost predicate NoOverflow(s: State, steps: seq<Step>)
    requires Exec(s, steps).Some?
    decreases |steps|
  {
    steps == [] ||
    ((steps[0].Post? ==> s.count < INT_MAX) && NoOverflow(Apply(s, steps[0]), steps[1..]))
  }

  // The count is the exact balance in this state and in every later one of the run.
  ghost predicate AlwaysExact(s: State, steps: seq<Step>)
    requires Exec(s, steps).Some?
    decreases |steps|
  {
    s.count == s.Balance() && (steps == [] || AlwaysExact(Apply(s, steps[0]), steps[1..]))
  }

  lemma {:induction false} ExactIff(s: State, steps: seq<Step>)
    requires Exec(s, steps).Some? && Inv(s) && s.count == s.Balance()
    ensures AlwaysExact(s, steps) <==> NoOverflow(s, steps)
    decreases |steps|
  {
    if steps != [] {
      var s' := Apply(s, steps[0]);
      if steps[0].Post? && s.count == INT_MAX {
        assert s'.count == INT_MIN && s'.Balance() == INT_MAX + 1;
        assert !AlwaysExact(s', steps[1..]);
      } else {
        assert s'.count == s'.Balance();
        ExactIff(s', steps[1..]);
      }
    }
  }

  // Conservation without the modulus holds throughout a run exactly when no post overflows.
  lemma ExactConservationIff(threads: set<Tid>, initial: i32, steps: seq<Step>)
    requires Exec(Init(threads, initial), steps).Some?
    ensures AlwaysExact(Init(threads, initial), steps) <==> NoOverflow(Init(threads, initial), steps)
  {
    ExactIff(Init(threads, initial), steps);
  }

  // A wait completes on a positive count only, which a balance of 0 never shows.
  lemma StepStaysBacked(s: State, step: Step)
    requires Inv(s) && Enabled(s, step) && s.Balance() >= 0
    ensures Apply(s, step).Balance() >= 0 && Apply(s, step).initial == s.initial
  {
    if s.Balance() == 0 {
      assert s.count == 0;
    }
  }

  lemma {:induction false} StaysBacked(s: State, steps: seq<Step>)
    requires Exec(s, steps).Some? && Inv(s) && s.Balance() >= 0
    ensures Exec(s, steps).value.Balance() >= 0 && Exec(s, steps).value.initial == s.initial
    decreases |steps|
  {
    if steps != [] {
      StepKeepsInv(s, steps[0]);
      StepStaysBacked(s, steps[0]);
      StaysBacked(Apply(s, steps[0]), steps[1..]);
    }
  }

  // From a non-negative start completed waits never exceed the start count plus the
  // completed posts, also in runs whose count wraps.
  lemma WaitsAreBacked(threads: set<Tid>, initial: i32, steps: seq<Step>)
    requires initial >= 0 && Exec(Init(threads, initial), steps).Some?
    ensures var s := Exec(Init(threads, initial), steps).value;
      s.waits <= initial + s.posts
  {
    StaysBacked(Init(threads, initial), steps);
  }

  // The count is non-negative in this state and in every later one of the run.
  ghost predicate NeverNegative(s: State, steps: seq<Step>)
    requires Exec(s, steps).Some?
    decreases |steps|
  {
    s.count >= 0 && (steps == [] || NeverNegative(Apply(s, steps[0]), steps[1..]))
  }

  lemma StepStaysExact(s: State, step: Step)
    requires Inv(s) && Enabled(s, step) && s.count == s.Balance() && s.count >= 0
    requires step.Post? ==> s.count < INT_MAX
    ensures var t := Apply(s, step); t.count == t.Balance() && t.count >= 0
  {
  }

  lemma {:induction false} NonNegativeIff(s: State, steps: seq<Step>)
    requires Exec(s, steps).Some? && Inv(s) && s.count == s.Balance() && s.count >= 0
    ensures NeverNegative(s, steps) <==> NoOverflow(s, steps)
    decreases |steps|
  {
    if steps != [] {
      StepKeepsInv(s, steps[0]);
      if steps[0].Post? && s.count == INT_MAX {
        assert Apply(s, steps[0]).count == INT_MIN;
      } else {
        StepStaysExact(s, steps[0]);
        NonNegativeIff(Apply(s, steps[0]), steps[1..]);
      }
    }
  }

  // From a non-negative start the count never goes negative exactly when no post overflows.
  lemma CountNeverNegativeIff(threads: set<Tid>, initial: i32, steps: seq<Step>)
    requires initial >= 0 && Exec(Init(threads, initial), steps).Some?
    ensures NeverNegative(Init(threads, initial), steps) <==> NoOverflow(Init(threads, initial), steps)
  {
    NonNegativeIff(Init(threads, initial), steps);
  }

  // Without that condition a single post turns a full semaphore negative.
  lemma PostOverflows(t: Tid)
    ensures Exec(Init({t}, INT_MAX), [Post(t)]).Some?
    ensures Exec(Init({t}, INT_MAX), [Post(t)]).value.count == INT_MIN
  {
    var s := Apply(Init({t}, INT_MAX), Post(t));
    assert Exec(s, []) == Some(s);
  }

  // ---- the calls' answers ----

  function PostsOf(steps: seq<Step>): nat {
    if steps == [] then 0 else (if steps[0].Post? then 1 else 0) + PostsOf(steps[1..])
  }

  // The number of swaps that took one off the count.
  function TakenOf(s: State, steps: seq<Step>): nat
    requires Exec(s, steps).Some?
    decreases |steps|
  {
    if steps == [] then 0
    else (if Takes(s, steps[0]) then 1 else 0) + TakenOf(Apply(s, steps[0]), steps[1..])
  }

  // A swap takes one if it does not fail spuriously and finds the count its thread last loaded.
  predicate Takes(s: State, step: Step) {
    step.TakeOne? && !step.spurious && step.t in s.pcs && s.pcs[step.t] == Cas(s.count)
  }

  lemma {:induction false} HistoriesAre(s: State, steps: seq<Step>)
    requires Exec(s, steps).Some?
    ensures var t := Exec(s, steps).value;
      t.posts == s.posts + PostsOf(steps) && t.waits == s.waits + TakenOf(s, steps) && t.initial == s.initial
    decreases |steps|
  {
    if steps != [] {
      HistoriesAre(Apply(s, steps[0]), steps[1..]);
    }
  }

  // The count of a run in terms of its steps.
  lemma CountOfRun(threads: set<Tid>, initial: i32, steps: seq<Step>)
    requires Exec(Init(threads, initial), steps).Some?
    ensures Exec(Init(threads, initial), steps).value.count
         == Wrap32(initial + PostsOf(steps) - TakenOf(Init(threads, initial), steps))
  {
    Conservation(threads, initial, steps);
    HistoriesAre(Init(threads, initial), steps);
  }

  lemma ExecOne(s: State, step: Step, rest: seq<Step>)
    requires Enabled(s, step)
    ensures Exec(s, [step] + rest) == Exec(Apply(s, step), rest)
  {
    assert ([step] + rest)[1..] == rest;
  }

  // An idle thread that waits without being disturbed takes one when the count is positive.
  lemma WaitTakes(s: State, t: Tid)
    requires t in s.pcs && s.pcs[t] == Idle && s.count > 0
    ensures Exec(s, [CallWait(t), LoadCount(t), TakeOne(t, false)])
      == Some(s.(count := s.count - 1, waits := s.waits + 1))
  {
    var called := Apply(s, CallWait(t));
    var loaded := Apply(called, LoadCount(t));
    ThreeSteps(s, called, loaded, CallWait(t), LoadCount(t), TakeOne(t, false));
    assert Apply(loaded, TakeOne(t, false)).pcs == s.pcs;
  }

  // Otherwise it sleeps.
  lemma WaitSleeps(s: State, t: Tid)
    requires t in s.pcs && s.pcs[t] == Idle && s.count <= 0
    ensures Exec(s, [CallWait(t), LoadCount(t), FutexWait(t)]) == Some(s.Goto(t, Sleeping))
  {
    var called := Apply(s, CallWait(t));
    var loaded := Apply(called, LoadCount(t));
    ThreeSteps(s, called, loaded, CallWait(t), LoadCount(t), FutexWait(t));
    assert Apply(loaded, FutexWait(t)).pcs == s.pcs[t := Sleeping];
  }

  lemma ThreeSteps(s: State, s1: State, s2: State, a: Step, b: Step, c: Step)
    requires Enabled(s, a) && s1 == Apply(s, a) && Enabled(s1, b) && s2 == Apply(s1, b) && Enabled(s2, c)
    ensures Exec(s, [a, b, c]) == Some(Apply(s2, c))
  {
    ExecOne(s, a, [b, c]);
    ExecOne(s1, b, [c]);
    ExecOne(s2, c, []);
    assert [a] + [b, c] == [a, b, c] && [b] + [c] == [b, c] && [c] + [] == [c];
  }

  // A waiter that is woken, or finds another count than it loaded before it sleeps, looks again.
  predicate Looks(s: State, t: Tid, step: Step) {
    t in s.pcs && if step == WakeUp(t) then s.pcs[t] == Sleeping
                  else step == FutexWait(t) && s.pcs[t].WaitCall? && s.pcs[t].c != s.count
  }

  lemma WokenTakes(s: State, t: Tid, step: Step)
    requires Looks(s, t, step) && s.count > 0
    ensures Exec(s, [step, LoadCount(t), TakeOne(t, false)])
      == Some(s.(count := s.count - 1, waits := s.waits + 1).Goto(t, Idle))
  {
    var looking, loaded := s.Goto(t, Load), s.Goto(t, Cas(s.count));
    SameThread(s, t, Load, Cas(s.count));
    SameThread(s, t, Cas(s.count), Idle);
    ThreeSteps(s, looking, loaded, step, LoadCount(t), TakeOne(t, false));
  }

  lemma SameThread(s: State, t: Tid, a: Pc, b: Pc)
    ensures s.Goto(t, a).Goto(t, b) == s.Goto(t, b)
    ensures s.Goto(t, a).pcs[t := b] == s.pcs[t := b]
  {
  }

  lemma WokenSleeps(s: State, t: Tid, step: Step)
    requires Looks(s, t, step) && s.count <= 0
    ensures Exec(s, [step, LoadCount(t), FutexWait(t)]) == Some(s.Goto(t, Sleeping))
  {
    var looking, loaded := s.Goto(t, Load), s.Goto(t, WaitCall(s.count));
    SameThread(s, t, Load, WaitCall(s.count));
    SameThread(s, t, WaitCall(s.count), Sleeping);
    ThreeSteps(s, looking, loaded, step, LoadCount(t), FutexWait(t));
  }

  // A swap that fails spuriously sends its thread to sleep on a positive count.
  lemma SleepsOnPositive(s: State, t: Tid)
    requires t in s.pcs && s.pcs[t] == Cas(s.count)
    ensures Exec(s, [TakeOne(t, true), FutexWait(t)]) == Some(s.Goto(t, Sleeping))
  {
    var waiting := Apply(s, TakeOne(t, true));
    ExecOne(s, TakeOne(t, true), [FutexWait(t)]);
    ExecOne(waiting, FutexWait(t), []);
    assert [TakeOne(t, true)] + [FutexWait(t)] == [TakeOne(t, true), FutexWait(t)];
    assert [FutexWait(t)] + [] == [FutexWait(t)];
    assert Apply(waiting, FutexWait(t)).pcs == s.pcs[t := Sleeping];
  }

  ghost predicate Sleeps(s: State) {
    exists u <- s.pcs :: s.pcs[u] == Sleeping
  }

  // A post adds one and then wakes a sleeper, unless nobody sleeps; the sleeper looks again.
  lemma PostWakes(s: State, t: Tid)
    requires t in s.pcs && s.pcs[t] == Idle
    ensures Enabled(s, Post(t))
    ensures var p := Apply(s, Post(t));
      && p.count == Wrap32(s.count + 1)
      && (Enabled(p, FutexWake(t, None)) <==> !Sleeps(s))
      && (!Sleeps(s) ==> Apply(p, FutexWake(t, None)).pcs == s.pcs)
      && (forall u <- s.pcs | s.pcs[u] == Sleeping ::
            Enabled(p, FutexWake(t, Some(u))) && Apply(p, FutexWake(t, Some(u))).pcs == s.pcs[u := Load])
  {
    var p := Apply(s, Post(t));
    if u :| u in s.pcs && s.pcs[u] == Sleeping {
      assert p.pcs[u] == Sleeping;
    }
  }
}
