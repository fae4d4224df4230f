// The futex mutex as a step system: any number of threads mix lock, trylock and
// unlock; the weak compare-and-swap may fail spuriously and a sleeper may wake at any time.
module Mutex {
  import opened Status

  // Where a thread is. Mark is about to store 2 unconditionally (lines 103 and
  // 109), WaitCall about to enter futex_wait, WakeCall about to call futex_wake.
  datatype Pc = Idle | FastCas | Mark | WaitCall | Sleeping | SlowCas | Holding | WakeCall

  datatype State = State(word: int, pcs: map<Tid, Pc>) {
    predicate At(t: Tid, pc: Pc) {
      t in pcs && pcs[t] == pc
    }

    function Goto(t: Tid, pc: Pc): State {
      this.(pcs := pcs[t := pc])
    }
  }

  datatype Step =
    | CallLock(t: Tid)
    | Cas(t: Tid, spurious: bool)
    | Exchange2(t: Tid)
    | FutexWait(t: Tid)
    | WakeUp(t: Tid)
    | TryLock(t: Tid)
    | Unlock(t: Tid)
    | FutexWake(t: Tid, sleeper: Option<Tid>)

  predicate Enabled(s: State, step: Step) {
    match step
    case CallLock(t) => s.At(t, Idle)
    case Cas(t, _) => s.At(t, FastCas) || s.At(t, SlowCas)
    case Exchange2(t) => s.At(t, Mark)
    case FutexWait(t) => s.At(t, WaitCall)
    case WakeUp(t) => s.At(t, Sleeping)
    case TryLock(t) => s.At(t, Idle)
    case Unlock(t) => s.At(t, Holding)
    case FutexWake(t, None) => s.At(t, WakeCall) && forall v <- s.pcs :: s.pcs[v] != Sleeping
    case FutexWake(t, Some(u)) => s.At(t, WakeCall) && s.At(u, Sleeping)
  }

  function Apply(s: State, step: Step): State
    requires Enabled(s, step)
  {
    match step
    case CallLock(t) => s.Goto(t, FastCas)
    case Cas(t, spurious) =>
      var fast := s.pcs[t] == FastCas;
      if s.word == 0 && !spurious then s.(word := if fast then 1 else 2).Goto(t, Holding)
      else if fast && s.word == 2 then s.Goto(t, WaitCall)
      else s.Goto(t, Mark)
    case Exchange2(t) => s.(word := 2).Goto(t, WaitCall)
    case FutexWait(t) => if s.word == 2 then s.Goto(t, Sleeping) else s.Goto(t, SlowCas)
    case WakeUp(t) => s.Goto(t, SlowCas)
    case TryLock(t) => s.(word := 1).Goto(t, if s.word == 0 then Holding else Idle)
    case Unlock(t) => s.(word := 0).Goto(t, if s.word == 2 then WakeCall else Idle)
    case FutexWake(t, u) =>
      var woken := if u.Some? then s.Goto(u.value, SlowCas) else s;
      woken.Goto(t, Idle)
  }

  function Init(threads: set<Tid>): State {
    State(0, map t | t in threads :: Idle)
  }

  // The state some enabled steps lead to from s.
  function Exec(s: State, steps: seq<Step>): (r: Option<State>)
    decreases |steps|
  {
    if steps == [] then Some(s)
    else if !Enabled(s, steps[0]) then None
    else Exec(Apply(s, steps[0]), steps[1..])
  }

  ghost predicate Held(s: State) {
    exists t :: s.At(t, Holding)
  }

  ghost predicate Inv(s: State) {
    && (forall t, u :: s.At(t, Holding) && s.At(u, Holding) ==> t == u)
    && (Held(s) ==> s.word != 0)
  }

  lemma StepKeepsInv(s: State, step: Step)
    requires Inv(s) && Enabled(s, step)
    ensures Inv(Apply(s, step))
  {
    var s' := Apply(s, step);
    if s.word == 0 {
      assert forall t :: !s.At(t, Holding);
    }
    forall t, u | s'.At(t, Holding) && s'.At(u, Holding)
      ensures t == u && s'.word != 0
    {
      assert (s.At(t, Holding) || t == step.t) && (s.At(u, Holding) || u == step.t);
    }
  }

  lemma {:induction false} RunKeepsInv(s: State, steps: seq<Step>)
    requires Inv(s) && Exec(s, steps).Some?
    ensures Inv(Exec(s, steps).value)
    decreases |steps|
  {
    if steps != [] {
      StepKeepsInv(s, steps[0]);
      RunKeepsInv(Apply(s, steps[0]), steps[1..]);
    }
  }

  // In every run of any set of threads at most one thread is past a successful
  // acquire, and while one is, the word is non-zero.
  lemma MutualExclusion(threads: set<Tid>, steps: seq<Step>, t: Tid, u: Tid)
    requires Exec(Init(threads), steps).Some?
    requires var s := Exec(Init(threads), steps).value;
      s.At(t, Holding) && s.At(u, Holding)
    ensures t == u && Exec(Init(threads), steps).value.word != 0
  {
    ReachableInv(threads, steps);
    assert Held(Exec(Init(threads), steps).value);
  }

  // ---- the calls' answers ----

  ghost predicate Sleeps(s: State) {
    exists t :: s.At(t, Sleeping)
  }

  lemma ReachableInv(threads: set<Tid>, steps: seq<Step>)
    requires Exec(Init(threads), steps).Some?
    ensures Inv(Exec(Init(threads), steps).value)
  {
    var init := Init(threads);
    assert forall v :: !init.At(v, Holding);
    RunKeepsInv(init, steps);
  }

  // In every run a trylock, or a compare-and-swap that does not fail spuriously, acquires the
  // mutex exactly when nobody holds it and it is not dead.
  lemma AcquiresIff(threads: set<Tid>, steps: seq<Step>, step: Step)
    requires Exec(Init(threads), steps).Some?
    requires Enabled(Exec(Init(threads), steps).value, step)
    requires step.TryLock? || (step.Cas? && !step.spurious)
    ensures var s := Exec(Init(threads), steps).value;
      && (Apply(s, step).At(step.t, Holding) <==> !Held(s) && !Dead(s))
      && (Apply(s, step).At(step.t, Holding) <==> s.word == 0)
  {
    ReachableInv(threads, steps);
  }

  // In every run an idle thread that locks without being disturbed has the mutex exactly when
  // it was free.
  lemma LockAloneIff(threads: set<Tid>, steps: seq<Step>, t: Tid)
    requires Exec(Init(threads), steps).Some? && Exec(Init(threads), steps).value.At(t, Idle)
    ensures var s := Exec(Init(threads), steps).value;
      var alone := Exec(s, [CallLock(t), Cas(t, false)]);
      alone.Some? && (alone.value.At(t, Holding) <==> !Held(s) && !Dead(s))
  {
    var s := Exec(Init(threads), steps).value;
    ReachableInv(threads, steps);
    var called := Apply(s, CallLock(t));
    ExecOne(called, Cas(t, false), []);
    ExecOne(s, CallLock(t), [Cas(t, false)]);
    assert called.word == s.word;
  }

  // A lock on a held mutex that is not disturbed marks it as contended, unless it is, and sleeps.
  lemma HeldSleeps(s: State, t: Tid)
    requires s.At(t, Idle) && s.word != 0
    ensures s.word == 2 ==>
      Exec(s, [CallLock(t), Cas(t, false), FutexWait(t)]) == Some(s.Goto(t, Sleeping))
    ensures s.word != 2 ==>
      Exec(s, [CallLock(t), Cas(t, false), Exchange2(t), FutexWait(t)])
      == Some(s.(word := 2).Goto(t, Sleeping))
  {
    var called := s.Goto(t, FastCas);
    if s.word == 2 {
      var waiting := s.Goto(t, WaitCall);
      assert called.Goto(t, WaitCall) == waiting && waiting.Goto(t, Sleeping) == s.Goto(t, Sleeping);
      TwoSteps(s, CallLock(t), Cas(t, false), waiting, [FutexWait(t)]);
      ExecOne(waiting, FutexWait(t), []);
      assert [FutexWait(t)] + [] == [FutexWait(t)];
      assert [CallLock(t), Cas(t, false)] + [FutexWait(t)] == [CallLock(t), Cas(t, false), FutexWait(t)];
    } else {
      MarksAndSleeps(s, t, called);
    }
  }

  lemma MarksAndSleeps(s: State, t: Tid, called: State)
    requires s.At(t, Idle) && s.word != 0 && s.word != 2 && called == s.Goto(t, FastCas)
    ensures Exec(s, [CallLock(t), Cas(t, false), Exchange2(t), FutexWait(t)])
         == Some(s.(word := 2).Goto(t, Sleeping))
  {
    var marking, last := s.Goto(t, Mark), s.(word := 2).Goto(t, Sleeping);
    assert called.Goto(t, Mark) == marking;
    assert marking.(word := 2).Goto(t, WaitCall).Goto(t, Sleeping) == last;
    TwoSteps(s, CallLock(t), Cas(t, false), marking, [Exchange2(t), FutexWait(t)]);
    TwoSteps(marking, Exchange2(t), FutexWait(t), last, []);
    assert [Exchange2(t), FutexWait(t)] + [] == [Exchange2(t), FutexWait(t)];
    assert [CallLock(t), Cas(t, false)] + [Exchange2(t), FutexWait(t)]
        == [CallLock(t), Cas(t, false), Exchange2(t), FutexWait(t)];
  }

  // A sleeper that wakes to a free mutex takes it and marks it, since others may sleep; so does a
  // thread that finds it free before it sleeps.
  lemma WokenTakes(s: State, t: Tid)
    requires s.word == 0 && (s.At(t, Sleeping) || s.At(t, WaitCall))
    ensures Exec(s, [if s.At(t, Sleeping) then WakeUp(t) else FutexWait(t), Cas(t, false)])
         == Some(s.(word := 2).Goto(t, Holding))
  {
    var step, retry := if s.At(t, Sleeping) then WakeUp(t) else FutexWait(t), s.Goto(t, SlowCas);
    var last := s.(word := 2).Goto(t, Holding);
    assert retry.(word := 2).Goto(t, Holding) == last;
    TwoSteps(s, step, Cas(t, false), last, []);
    assert [step, Cas(t, false)] + [] == [step, Cas(t, false)];
  }

  // A sleeper that wakes to a held mutex marks it again and goes back to sleep.
  lemma WokenSleepsAgain(s: State, t: Tid)
    requires s.word != 0 && s.At(t, Sleeping)
    ensures Exec(s, [WakeUp(t), Cas(t, false), Exchange2(t), FutexWait(t)]) == Some(s.(word := 2))
  {
    var marking := s.Goto(t, Mark);
    assert s.Goto(t, SlowCas).Goto(t, Mark) == marking;
    assert marking.(word := 2).Goto(t, WaitCall).Goto(t, Sleeping) == s.(word := 2);
    TwoSteps(s, WakeUp(t), Cas(t, false), marking, [Exchange2(t), FutexWait(t)]);
    TwoSteps(marking, Exchange2(t), FutexWait(t), s.(word := 2), []);
    assert [Exchange2(t), FutexWait(t)] + [] == [Exchange2(t), FutexWait(t)];
    assert [WakeUp(t), Cas(t, false)] + [Exchange2(t), FutexWait(t)]
        == [WakeUp(t), Cas(t, false), Exchange2(t), FutexWait(t)];
  }

  // Unlocking frees the mutex; the thread goes on to wake a sleeper exactly when the word said
  // that there may be one.
  lemma UnlockFrees(threads: set<Tid>, steps: seq<Step>, t: Tid)
    requires Exec(Init(threads), steps).Some? && Exec(Init(threads), steps).value.At(t, Holding)
    ensures var s := Exec(Init(threads), steps).value;
      && Enabled(s, Unlock(t))
      && var s' := Apply(s, Unlock(t));
         !Held(s') && !Dead(s') && s'.At(t, if s.word == 2 then WakeCall else Idle)
  {
    var s := Exec(Init(threads), steps).value;
    ReachableInv(threads, steps);
    var s' := Apply(s, Unlock(t));
    assert !Held(s') by {
      if u :| s'.At(u, Holding) {
        assert s.At(u, Holding);
      }
    }
  }

  // A wake call ends by making a sleeper try again, unless nobody sleeps.
  lemma WakesOne(s: State, t: Tid)
    requires s.At(t, WakeCall)
    ensures Enabled(s, FutexWake(t, None)) <==> !Sleeps(s)
    ensures forall u :: Enabled(s, FutexWake(t, Some(u))) <==> s.At(u, Sleeping)
    ensures forall u :: s.At(u, Sleeping) ==>
      Apply(s, FutexWake(t, Some(u))) == s.Goto(u, SlowCas).Goto(t, Idle)
    ensures !Sleeps(s) ==> Apply(s, FutexWake(t, None)) == s.Goto(t, Idle)
  {
    if u :| u in s.pcs && s.pcs[u] == Sleeping {
      assert s.At(u, Sleeping);
    }
  }

  // Every thread can go on at any time, sleepers by a spurious wake.
  lemma NeverStuck(s: State, t: Tid)
    requires t in s.pcs
    ensures exists step: Step :: step.t == t && Enabled(s, step)
  {
    var step := match s.pcs[t]
      case Idle => TryLock(t)
      case FastCas => Cas(t, true)
      case Mark => Exchange2(t)
      case WaitCall => FutexWait(t)
      case Sleeping => WakeUp(t)
      case SlowCas => Cas(t, true)
      case Holding => Unlock(t)
      case WakeCall => FutexWake(t, None);
    if !Enabled(s, step) {
      var u :| u in s.pcs && s.pcs[u] == Sleeping;
      step := FutexWake(t, Some(u));
    }
    assert step.t == t && Enabled(s, step);
  }

  // ---- when a sleeper is forgotten ----

  // Some thread is about to sleep, to try again or to wake.
  predicate Stirs(pc: Pc) {
    pc.Mark? || pc.WaitCall? || pc.SlowCas? || pc.WakeCall?
  }

  ghost predicate Stirring(s: State) {
    exists t :: t in s.pcs && Stirs(s.pcs[t])
  }

  // While a thread sleeps, the next unlock wakes one, or another thread is on its way to
  // look after the word.
  ghost predicate Remembered(s: State) {
    Sleeps(s) ==> s.word == 2 || Stirring(s)
  }

  ghost predicate Forgets(s: State, step: Step) {
    step.TryLock? && s.word == 2 && Sleeps(s) && !Stirring(s)
  }

  // The only step that makes the mutex forget its sleepers is a trylock that overwrites the
  // mark of contention.
  lemma ForgetsIff(s: State, step: Step)
    requires Remembered(s) && Enabled(s, step)
    ensures Remembered(Apply(s, step)) <==> !Forgets(s, step)
  {
    var s' := Apply(s, step);
    if Forgets(s, step) {
      var t :| s.At(t, Sleeping);
      assert s'.At(t, Sleeping);
    } else if Sleeps(s') {
      StaysRemembered(s, step);
    }
  }

  lemma StaysRemembered(s: State, step: Step)
    requires Remembered(s) && Enabled(s, step) && !Forgets(s, step) && Sleeps(Apply(s, step))
    ensures Apply(s, step).word == 2 || Stirring(Apply(s, step))
  {
    var s' := Apply(s, step);
    if Stirs(s'.pcs[step.t]) {
      assert step.t in s'.pcs;
    } else if step.FutexWake? && step.sleeper.Some? {
      assert Stirs(s'.pcs[step.sleeper.value]);
    } else if u :| u in s.pcs && u != step.t && Stirs(s.pcs[u]) {
      assert Stirs(s'.pcs[u]);
    } else {
      var t :| s'.At(t, Sleeping);
      assert s.At(t, Sleeping) || step.FutexWait?;
    }
  }

  ghost predicate AlwaysRemembered(s: State, steps: seq<Step>)
    requires Exec(s, steps).Some?
    decreases |steps|
  {
    Remembered(s) && (steps == [] || AlwaysRemembered(Apply(s, steps[0]), steps[1..]))
  }

  ghost predicate NeverForgets(s: State, steps: seq<Step>)
    requires Exec(s, steps).Some?
    decreases |steps|
  {
    steps == [] || (!Forgets(s, steps[0]) && NeverForgets(Apply(s, steps[0]), steps[1..]))
  }

  lemma {:induction false} RememberedIff(s: State, steps: seq<Step>)
    requires Remembered(s) && Exec(s, steps).Some?
    ensures AlwaysRemembered(s, steps) <==> NeverForgets(s, steps)
    decreases |steps|
  {
    if steps != [] {
      ForgetsIff(s, steps[0]);
      if !Forgets(s, steps[0]) {
        RememberedIff(Apply(s, steps[0]), steps[1..]);
      } else {
        assert !AlwaysRemembered(Apply(s, steps[0]), steps[1..]);
      }
    }
  }

  // Throughout a run no sleeper is forgotten exactly when no trylock overwrites the mark while
  // somebody sleeps and nobody is on the way.
  lemma RunRemembersIff(threads: set<Tid>, steps: seq<Step>)
    requires Exec(Init(threads), steps).Some?
    ensures AlwaysRemembered(Init(threads), steps) <==> NeverForgets(Init(threads), steps)
  {
    var init := Init(threads);
    assert forall t :: !init.At(t, Sleeping);
    RememberedIff(init, steps);
  }

  // The holder's unlock then sees no mark: the second thread sleeps on a free mutex.
  lemma TryLockForgets()
    ensures var s := State(2, map[1 := Holding, 2 := Sleeping, 3 := Idle]);
      Exec(Init({1, 2, 3}), [CallLock(1), Cas(1, false), CallLock(2), Cas(2, false), Exchange2(2), FutexWait(2)])
        == Some(s)
    ensures var s := State(2, map[1 := Holding, 2 := Sleeping, 3 := Idle]);
      Exec(s, [TryLock(3), Unlock(1)]) == Some(State(0, map[1 := Idle, 2 := Sleeping, 3 := Idle]))
  {
    var held := State(1, map[1 := Holding, 2 := Idle, 3 := Idle]);
    var marked := State(1, map[1 := Holding, 2 := Mark, 3 := Idle]);
    FirstTakes();
    SecondFails(held, marked);
    SecondSleeps(marked);
    ThirdOverwrites();
    TwoSteps(Init({1, 2, 3}), CallLock(1), Cas(1, false), held,
             [CallLock(2), Cas(2, false), Exchange2(2), FutexWait(2)]);
    TwoSteps(held, CallLock(2), Cas(2, false), marked, [Exchange2(2), FutexWait(2)]);
  }

  lemma FirstTakes()
    ensures var s := Init({1, 2, 3});
      && Enabled(s, CallLock(1)) && Enabled(Apply(s, CallLock(1)), Cas(1, false))
      && Apply(Apply(s, CallLock(1)), Cas(1, false)) == State(1, map[1 := Holding, 2 := Idle, 3 := Idle])
  {
  }

  lemma SecondFails(held: State, marked: State)
    requires held == State(1, map[1 := Holding, 2 := Idle, 3 := Idle])
    requires marked == State(1, map[1 := Holding, 2 := Mark, 3 := Idle])
    ensures Enabled(Apply(held, CallLock(2)), Cas(2, false))
    ensures Apply(Apply(held, CallLock(2)), Cas(2, false)) == marked
  {
  }

  lemma SecondSleeps(marked: State)
    requires marked == State(1, map[1 := Holding, 2 := Mark, 3 := Idle])
    ensures Exec(marked, [Exchange2(2), FutexWait(2)])
         == Some(State(2, map[1 := Holding, 2 := Sleeping, 3 := Idle]))
  {
    var next := Apply(marked, Exchange2(2));
    assert next == State(2, map[1 := Holding, 2 := WaitCall, 3 := Idle]);
    TwoSteps(marked, Exchange2(2), FutexWait(2), State(2, map[1 := Holding, 2 := Sleeping, 3 := Idle]), []);
  }

  lemma ThirdOverwrites()
    ensures var s := State(2, map[1 := Holding, 2 := Sleeping, 3 := Idle]);
      Exec(s, [TryLock(3), Unlock(1)]) == Some(State(0, map[1 := Idle, 2 := Sleeping, 3 := Idle]))
  {
    var s := State(2, map[1 := Holding, 2 := Sleeping, 3 := Idle]);
    assert Apply(s, TryLock(3)) == State(1, map[1 := Holding, 2 := Sleeping, 3 := Idle]);
    TwoSteps(s, TryLock(3), Unlock(1), State(0, map[1 := Idle, 2 := Sleeping, 3 := Idle]), []);
  }

  lemma TwoSteps(s: State, a: Step, b: Step, t: State, rest: seq<Step>)
    requires Enabled(s, a) && Enabled(Apply(s, a), b) && Apply(Apply(s, a), b) == t
    ensures Exec(s, [a, b] + rest) == Exec(t, rest)
  {
    ExecOne(s, a, [b] + rest);
    ExecOne(Apply(s, a), b, rest);
    assert [a] + ([b] + rest) == [a, b] + rest;
  }

  // ---- when the word stays set without a holder ----

  // Nobody holds the mutex, yet no compare-and-swap or trylock can succeed.
  ghost predicate Dead(s: State) {
    s.word != 0 && !Held(s)
  }

  // A run never leaves a dead state: nobody ever acquires the mutex again.
  lemma {:induction false} DeadForever(s: State, steps: seq<Step>)
    requires Dead(s) && Exec(s, steps).Some?
    ensures Dead(Exec(s, steps).value)
    decreases |steps|
  {
    if steps != [] {
      var s' := Apply(s, steps[0]);
      assert Dead(s') by {
        if Held(s') {
          var t :| s'.At(t, Holding);
          assert s.At(t, Holding);
        }
      }
      DeadForever(s', steps[1..]);
    }
  }

  // The only step that kills a live mutex is the blind exchange with 2 while the
  // word is 0: its old value is discarded instead of being taken as an acquire.
  lemma DiesIff(s: State, step: Step)
    requires Inv(s) && Enabled(s, step) && !Dead(s)
    ensures Dead(Apply(s, step)) <==> step.Exchange2? && s.word == 0
  {
    var s' := Apply(s, step);
    if s.word == 0 {
      assert forall t :: !s.At(t, Holding);
      if step.Exchange2? {
        assert !Held(s') by {
          if Held(s') {
            var t :| s'.At(t, Holding);
            assert s.At(t, Holding);
          }
        }
      } else if s'.word != 0 {
        assert s'.At(step.t, Holding);
      }
    } else if s'.word != 0 {
      var t :| s.At(t, Holding);
      assert s'.At(t, Holding);
    }
  }

  // The step with this number is such an exchange.
  predicate KillsAt(s: State, steps: seq<Step>, k: nat) {
    k < |steps| && steps[k].Exchange2?
    && var before := Exec(s, steps[..k]); before.Some? && before.value.word == 0
  }

  lemma KillsLater(s: State, steps: seq<Step>, k: nat)
    requires steps != [] && Enabled(s, steps[0])
    ensures KillsAt(s, steps, k + 1) <==> KillsAt(Apply(s, steps[0]), steps[1..], k)
  {
    if k + 1 < |steps| {
      assert steps[..k + 1][1..] == steps[1..][..k];
    }
  }

  lemma {:induction false} LiveRunDiesIff(s: State, steps: seq<Step>)
    requires Inv(s) && !Dead(s) && Exec(s, steps).Some?
    ensures Dead(Exec(s, steps).value) <==> exists k: nat :: KillsAt(s, steps, k)
    decreases |steps|
  {
    if steps != [] {
      var s', rest := Apply(s, steps[0]), steps[1..];
      DiesIff(s, steps[0]);
      assert steps[..0] == [] && (KillsAt(s, steps, 0) <==> Dead(s'));
      if Dead(s') {
        DeadForever(s', rest);
      } else {
        StepKeepsInv(s, steps[0]);
        LiveRunDiesIff(s', rest);
        if k: nat :| KillsAt(s, steps, k) {
          KillsLater(s, steps, k - 1);
        }
        if k: nat :| KillsAt(s', rest, k) {
          KillsLater(s, steps, k);
        }
      }
    }
  }

  // A run from the start ends dead exactly when one of its steps is the exchange with 2 on a
  // free mutex.
  lemma RunDiesIff(threads: set<Tid>, steps: seq<Step>)
    requires Exec(Init(threads), steps).Some?
    ensures Dead(Exec(Init(threads), steps).value) <==> exists k: nat :: KillsAt(Init(threads), steps, k)
  {
    var init := Init(threads);
    assert forall t :: !init.At(t, Holding);
    LiveRunDiesIff(init, steps);
  }

  // Two threads suffice: the second fails its fast path, the first unlocks, the
  // second then marks the free mutex as contended and goes to sleep on it.
  lemma DeadIsReachable()
    ensures var run := [CallLock(1), Cas(1, false), CallLock(2), Cas(2, false), Unlock(1),
                        Exchange2(2), FutexWait(2)];
      && Exec(Init({1, 2}), run).Some?
      && Dead(Exec(Init({1, 2}), run).value)
      && Exec(Init({1, 2}), run).value.At(2, Sleeping)
      && Exec(Init({1, 2}), run).value.At(1, Idle)
  {
    var rest := [Cas(2, false), Unlock(1), Exchange2(2), FutexWait(2)];
    WholeRun(rest);
    MissedWake(State(1, map[1 := Holding, 2 := FastCas]));
    NobodyHolds();
  }

  lemma NobodyHolds()
    ensures Dead(State(2, map[1 := Idle, 2 := Sleeping]))
  {
  }

  lemma WholeRun(rest: seq<Step>)
    requires rest == [Cas(2, false), Unlock(1), Exchange2(2), FutexWait(2)]
    ensures Exec(Init({1, 2}), [CallLock(1), Cas(1, false), CallLock(2), Cas(2, false), Unlock(1),
                                Exchange2(2), FutexWait(2)])
         == Exec(State(1, map[1 := Holding, 2 := FastCas]), rest)
  {
    FirstLocks(rest);
    assert [CallLock(1), Cas(1, false), CallLock(2)] + rest
        == [CallLock(1), Cas(1, false), CallLock(2), Cas(2, false), Unlock(1), Exchange2(2), FutexWait(2)];
  }

  lemma FirstLocks(rest: seq<Step>)
    ensures Exec(Init({1, 2}), [CallLock(1), Cas(1, false), CallLock(2)] + rest)
         == Exec(State(1, map[1 := Holding, 2 := FastCas]), rest)
  {
    var s0 := Init({1, 2});
    var s1 := Apply(s0, CallLock(1));
    var s2 := Apply(s1, Cas(1, false));
    assert Apply(s2, CallLock(2)) == State(1, map[1 := Holding, 2 := FastCas]);
    ExecOne(s2, CallLock(2), rest);
    ExecOne(s1, Cas(1, false), [CallLock(2)] + rest);
    ExecOne(s0, CallLock(1), [Cas(1, false), CallLock(2)] + rest);
    assert [CallLock(1)] + ([Cas(1, false), CallLock(2)] + rest)
        == [CallLock(1), Cas(1, false), CallLock(2)] + rest;
    assert [Cas(1, false)] + ([CallLock(2)] + rest) == [Cas(1, false), CallLock(2)] + rest;
  }

  lemma MissedWake(s: State)
    requires s == State(1, map[1 := Holding, 2 := FastCas])
    ensures Exec(s, [Cas(2, false), Unlock(1), Exchange2(2), FutexWait(2)])
         == Some(State(2, map[1 := Idle, 2 := Sleeping]))
  {
    var s1 := Apply(s, Cas(2, false));
    var s2 := Apply(s1, Unlock(1));
    assert s2 == State(0, map[1 := Idle, 2 := Mark]);
    var s3 := Apply(s2, Exchange2(2));
    var s4 := Apply(s3, FutexWait(2));
    assert s4 == State(2, map[1 := Idle, 2 := Sleeping]);
    ExecOne(s3, FutexWait(2), []);
    ExecOne(s2, Exchange2(2), [FutexWait(2)]);
    ExecOne(s1, Unlock(1), [Exchange2(2), FutexWait(2)]);
    ExecOne(s, Cas(2, false), [Unlock(1), Exchange2(2), FutexWait(2)]);
  }

  lemma ExecOne(s: State, step: Step, rest: seq<Step>)
    requires Enabled(s, step)
    ensures Exec(s, [step] + rest) == Exec(Apply(s, step), rest)
  {
    assert ([step] + rest)[1..] == rest;
  }
}
