// The spinlock as a step system over any number of threads.
module SpinLock {
  import opened Status

  // Xchg is about to exchange the word with 1; Spin polls it until it reads 0.
  datatype Pc = Idle | Xchg | Spin | Holding

  datatype State = State(word: int, pcs: map<Tid, Pc>) {
    predicate At(t: Tid, pc: Pc) {
      t in pcs && pcs[t] == pc
    }

    function Goto(t: Tid, pc: Pc): State {
      this.(pcs := pcs[t := pc])
    }
  }

  datatype Step =
    | CallLock(t: Tid)
    | Exchange(t: Tid)
    | Poll(t: Tid)
    | TryLock(t: Tid)
    | Unlock(t: Tid)

  predicate Enabled(s: State, step: Step) {
    match step
    case CallLock(t) => s.At(t, Idle)
    case Exchange(t) => s.At(t, Xchg)
    case Poll(t) => s.At(t, Spin)
    case TryLock(t) => s.At(t, Idle)
    case Unlock(t) => s.At(t, Holding)
  }

  function Apply(s: State, step: Step): State
    requires Enabled(s, step)
  {
    match step
    case CallLock(t) => s.Goto(t, Xchg)
    case Exchange(t) => s.(word := 1).Goto(t, if s.word == 0 then Holding else Spin)
    case Poll(t) => if s.word != 0 then s else s.Goto(t, Xchg)
    case TryLock(t) => s.(word := 1).Goto(t, if s.word == 0 then Holding else Idle)
    case Unlock(t) => s.(word := 0).Goto(t, Idle)
  }

  function Init(threads: set<Tid>): State {
    State(0, map t | t in threads :: Idle)
  }

  function Exec(s: State, steps: seq<Step>): (r: Option<State>)
    decreases |steps|
  {
    if steps == [] then Some(s)
    else if !Enabled(s, steps[0]) then None
    else Exec(Apply(s, steps[0]), steps[1..])
  }

  ghost predicate Held(s: State) {
    exists t :: s.At(t, Holding)
  }

  ghost predicate Inv(s: State) {
    && (forall t, u :: s.At(t, Holding) && s.At(u, Holding) ==> t == u)
    && s.word == if Held(s) then 1 else 0
  }

  lemma StepKeepsInv(s: State, step: Step)
    requires Inv(s) && Enabled(s, step)
    ensures Inv(Apply(s, step))
  {
    var s' := Apply(s, step);
    if s.word == 0 {
      assert forall t :: !s.At(t, Holding);
      if s'.word == 1 {
        assert s'.At(step.t, Holding);
      }
    } else if !step.Unlock? {
      var t :| s.At(t, Holding);
      assert s'.At(t, Holding);
    }
    forall t, u | s'.At(t, Holding) && s'.At(u, Holding)
      ensures t == u && s'.word != 0
    {
      assert (s.At(t, Holding) || t == step.t) && (s.At(u, Holding) || u == step.t);
    }
  }

  lemma {:induction false} RunKeepsInv(s: State, steps: seq<Step>)
    requires Inv(s) && Exec(s, steps).Some?
    ensures Inv(Exec(s, steps).value)
    decreases |steps|
  {
    if steps != [] {
      StepKeepsInv(s, steps[0]);
      RunKeepsInv(Apply(s, steps[0]), steps[1..]);
    }
  }

  // In every run the word is 1 exactly while some thread holds the lock, and only one does.
  lemma WordIsHeld(threads: set<Tid>, steps: seq<Step>)
    requires Exec(Init(threads), steps).Some?
    ensures var s := Exec(Init(threads), steps).value;
      && (s.word == 1 <==> Held(s)) && (s.word == 0 <==> !Held(s))
      && (forall t, u :: s.At(t, Holding) && s.At(u, Holding) ==> t == u)
  {
    var init := Init(threads);
    assert forall v :: !init.At(v, Holding);
    RunKeepsInv(init, steps);
  }

  // A free spinlock is taken by the very next exchange or trylock of any thread, and a held
  // one is taken by none.
  lemma ExchangeTakesIffFree(threads: set<Tid>, steps: seq<Step>, step: Step)
    requires Exec(Init(threads), steps).Some?
    requires Enabled(Exec(Init(threads), steps).value, step) && (step.Exchange? || step.TryLock?)
    ensures var s := Exec(Init(threads), steps).value;
      Apply(s, step).At(step.t, Holding) <==> !Held(s)
  {
    WordIsHeld(threads, steps);
  }

  lemma ExecTwo(s: State, a: Step, b: Step)
    requires Enabled(s, a)
    ensures Exec(s, [a, b]) ==
      if Enabled(Apply(s, a), b) then Some(Apply(Apply(s, a), b)) else None
  {
    assert [a, b][1..] == [b] && [b][1..] == [];
    var next := Apply(s, a);
    assert Exec(s, [a, b]) == Exec(next, [b]);
    if Enabled(next, b) {
      assert Exec(next, [b]) == Exec(Apply(next, b), []);
    }
  }

  // In every run an idle thread that locks without being disturbed has the lock exactly when it
  // was free, and spins otherwise.
  lemma LockAloneIff(threads: set<Tid>, steps: seq<Step>, t: Tid)
    requires Exec(Init(threads), steps).Some? && Exec(Init(threads), steps).value.At(t, Idle)
    ensures var s := Exec(Init(threads), steps).value;
      var alone := Exec(s, [CallLock(t), Exchange(t)]);
      alone.Some? && alone.value.At(t, if Held(s) then Spin else Holding)
  {
    var s := Exec(Init(threads), steps).value;
    WordIsHeld(threads, steps);
    ExecTwo(s, CallLock(t), Exchange(t));
  }

  // A spinning thread is let through exactly when the lock is free, and a poll changes nothing
  // else; unlocking frees it.
  lemma SpinsWhileHeld(threads: set<Tid>, steps: seq<Step>, t: Tid)
    requires Exec(Init(threads), steps).Some?
    ensures var s := Exec(Init(threads), steps).value;
      && (s.At(t, Spin) ==>
            Enabled(s, Poll(t)) && Apply(s, Poll(t)) == if Held(s) then s else s.Goto(t, Xchg))
      && (s.At(t, Holding) ==>
            Enabled(s, Unlock(t)) && !Held(Apply(s, Unlock(t))) && Apply(s, Unlock(t)).At(t, Idle))
      && (s.At(t, Xchg) ==> Enabled(s, Exchange(t)))
      && (s.At(t, Idle) ==> Enabled(s, TryLock(t)) && !Apply(s, TryLock(t)).At(t, Spin))
  {
    WordIsHeld(threads, steps);
    var s := Exec(Init(threads), steps).value;
    if s.At(t, Holding) {
      if u :| Apply(s, Unlock(t)).At(u, Holding) {
        assert s.At(u, Holding);
      }
    }
  }
}
