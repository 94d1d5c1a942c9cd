/** The hand-shake between a thread that finds no free trust thread and the background filler:
    `acquire_thread`, `fill_tcs_mini_pool_fn`, both `fill_tcs_mini_pool` and the event between them.

    All acquirers hold `m_thread_mutex` for the whole call, so there is at most one. Thread creation
    succeeds, futex waits are not interrupted, the enclave is live and has a utility thread. */
module Filler {
  /** - `NotStarted`: the filler thread does not exist yet
      - `Work`: about to ask `need_to_new_thread`
      - `Check`: about to take the condition lock and look at the flag; `stop` ends the fill
      - `Wait`: about to decrement the event counter
      - `Doze`: took the counter from 0 to -1, about to call `FUTEX_WAIT`
      - `Asleep`: in the futex queue */
  datatype Filler = NotStarted | Work | Check(stop: bool) | Wait | Doze | Asleep

  /** - `Out`: nobody in the pool
      - `Waking`: about to start the filler or to raise the event counter
      - `Poking`: about to call `FUTEX_WAKE`
      - `Setting`: about to set the flag
      - `Blocked`: waits on the condition variable until the flag is cleared
      A starved acquirer wakes the filler with the condition lock `held`; the wake-up that only
      announces a low pool does not take it. */
  datatype Acquirer = Out | Waking(held: bool) | Poking(held: bool) | Setting | Blocked

  datatype State = State(filler: Filler, acquirer: Acquirer, value: int, flag: bool, free: nat, unallocated: nat,
    minPool: nat)

  predicate Initial(s: State) {
    s.filler == NotStarted && s.acquirer == Out && s.value == 0 && !s.flag
  }

  /** - `Acquire`: a thread without a slot asks for one; if none is free, `collected` slots are
        reclaimed by the garbage collector
      - `Reacquire`: a thread that is bound already
      - `Advance`: the acquirer's next step
      - `Resume`: the acquirer finds the flag cleared and tries again
      - `Fill`: the filler's next step */
  datatype Action = Acquire(collected: nat) | Reacquire | Advance | Resume(collected: nat) | Fill

  /** `need_to_new_thread`. */
  predicate NeedNew(s: State) {
    s.unallocated > 0 && if s.minPool == 0 then s.free == 0 else s.free < s.minPool
  }

  predicate HasCondLock(a: Acquirer) {
    match a
    case Waking(held) => held
    case Poking(held) => held
    case Setting => true
    case _ => false
  }

  predicate Enabled(s: State, a: Action) {
    match a
    case Acquire(_) => s.acquirer == Out
    case Reacquire => s.acquirer == Out
    case Advance => s.acquirer.Waking? || s.acquirer.Poking? || s.acquirer == Setting
    case Resume(_) => s.acquirer == Blocked && !s.flag
    case Fill => s.filler != NotStarted && s.filler != Asleep && (s.filler.Check? ==> !HasCondLock(s.acquirer))
  }

  /** The free slots seen by `_acquire_thread`. */
  function Usable(s: State, collected: nat): nat {
    if s.free == 0 then collected else s.free
  }

  /** The end of an acquisition: announce a low pool, or leave. */
  function Finish(s: State): State {
    s.(acquirer := if NeedNew(s) then Waking(false) else Out)
  }

  /** What the acquirer does after `fill_tcs_mini_pool_fn`. */
  function AfterFn(held: bool): Acquirer {
    if held then Setting else Out
  }

  function Next(s: State, a: Action): State
    requires Enabled(s, a)
  {
    match a
    case Acquire(collected) =>
      if Usable(s, collected) > 0 then Finish(s.(free := Usable(s, collected) - 1)) else s.(acquirer := Waking(true))
    case Reacquire => Finish(s)
    case Advance =>
      (match s.acquirer
       case Waking(held) =>
         if s.filler == NotStarted then s.(filler := Work, acquirer := AfterFn(held))
         else s.(value := s.value + 1, acquirer := if s.value != 0 then Poking(held) else AfterFn(held))
       case Poking(held) => s.(filler := if s.filler == Asleep then Work else s.filler, acquirer := AfterFn(held))
       case _ => s.(flag := true, acquirer := Blocked))
    case Resume(collected) =>
      if Usable(s, collected) > 0 then Finish(s.(free := Usable(s, collected) - 1)) else Finish(s)
    case Fill =>
      match s.filler
      case Check(stop) => s.(flag := false, filler := if stop then Wait else Work)
      case Wait => s.(value := s.value - 1, filler := if s.value == 0 then Doze else Work)
      case Doze => s.(filler := if s.value == -1 then Asleep else Work)
      case _ =>
        if NeedNew(s) then s.(filler := Check(false), free := s.free + 1, unallocated := s.unallocated - 1)
        else s.(filler := Check(true))
  }

  predicate Legal(s: State, actions: seq<Action>)
    decreases |actions|
  {
    actions == [] || (Enabled(s, actions[0]) && Legal(Next(s, actions[0]), actions[1..]))
  }

  function Run(s: State, actions: seq<Action>): State
    requires Legal(s, actions)
    decreases |actions|
  {
    if actions == [] then s else Run(Next(s, actions[0]), actions[1..])
  }

  /** The filler looks at the flag before it can sleep on an empty event. */
  predicate CheckAhead(s: State) {
    match s.filler
    case Work => true
    case Check(_) => true
    case Wait => s.value != 0
    case Doze => s.value != -1
    case _ => false
  }

  /** A starved acquirer that nobody will ever wake: no step is left to anyone. */
  ghost predicate Stranded(s: State) {
    s.flag && s.acquirer == Blocked && forall a :: !Enabled(s, a)
  }

  /** A poke from an earlier wake reaches the filler although the counter is still -1. */
  predicate IsStale(s: State, a: Action) {
    a == Advance && s.acquirer.Poking? && s.filler == Asleep && s.value == -1
  }

  predicate NeverStale(s: State, actions: seq<Action>)
    requires Legal(s, actions)
    decreases |actions|
  {
    actions == [] || (!IsStale(s, actions[0]) && NeverStale(Next(s, actions[0]), actions[1..]))
  }

  // ----- without stale pokes -----

  ghost predicate Inv(s: State) {
    && s.value >= (if s.filler == Doze || s.filler == Asleep then -1 else 0)
    && (s.filler == NotStarted ==> s.value == 0)
    && (s.filler == Asleep && s.value != -1 ==> s.acquirer.Poking?)
    && (s.flag ==> s.acquirer == Blocked)
    && (s.flag || s.acquirer == Setting ==> CheckAhead(s))
    && (s.acquirer == Poking(true) ==> CheckAhead(s) || (s.filler == Asleep && s.value != -1))
  }

  lemma {:induction false} StepKeepsInv(s: State, a: Action)
    requires Inv(s) && Enabled(s, a) && !IsStale(s, a)
    ensures Inv(Next(s, a))
  {
  }

  lemma {:induction false} RunKeepsInv(s: State, actions: seq<Action>)
    requires Inv(s) && Legal(s, actions) && NeverStale(s, actions)
    ensures Inv(Run(s, actions))
    decreases |actions|
  {
    if actions != [] {
      StepKeepsInv(s, actions[0]);
      RunKeepsInv(Next(s, actions[0]), actions[1..]);
    }
  }

  /** While the flag is set a flag check lies ahead of the filler, and nobody is stranded. */
  lemma {:induction false} NoAcquirerStranded(s: State, actions: seq<Action>)
    requires Initial(s) && Legal(s, actions) && NeverStale(s, actions)
    ensures var s' := Run(s, actions); (s'.flag ==> CheckAhead(s')) && !Stranded(s')
  {
    RunKeepsInv(s, actions);
    var s' := Run(s, actions);
    if s'.flag { assert Enabled(s', Fill); }
  }

  /** How many of its own steps the filler still takes to clear the flag. */
  function StepsToCheck(s: State): nat {
    match s.filler
    case Check(_) => 1
    case Work => 2
    case _ => 3
  }

  /** The flag is cleared after at most three steps of the filler, whatever the acquirers do. */
  lemma {:induction false} FlagIsCleared(s: State, a: Action)
    requires Inv(s) && s.flag && Enabled(s, a) && !IsStale(s, a)
    ensures Enabled(s, Fill)
    ensures a.Fill? ==> !Next(s, a).flag || StepsToCheck(Next(s, a)) < StepsToCheck(s)
    ensures !a.Fill? ==> Next(s, a).flag && StepsToCheck(Next(s, a)) == StepsToCheck(s)
  {
  }

  // ----- with a stale poke -----

  /** The state a stale poke leaves: the filler runs, and the counter owes a token. */
  predicate InDebt(s: State) {
    s.filler == Work && s.value == -1 && s.acquirer == Out && !s.flag
  }

  /** The first stale poke of a run belongs to a wake-up without the condition lock, and leaves a
      debt. */
  lemma {:induction false} StaleLeavesDebt(s: State, a: Action)
    requires Inv(s) && Enabled(s, a) && IsStale(s, a)
    ensures s.acquirer == Poking(false) && InDebt(Next(s, a))
  {
  }

  lemma {:induction false} RunAppend(s: State, xs: seq<Action>, ys: seq<Action>)
    requires Legal(s, xs) && Legal(Run(s, xs), ys)
    ensures Legal(s, xs + ys) && Run(s, xs + ys) == Run(Run(s, xs), ys)
    ensures NeverStale(s, xs + ys) <==> NeverStale(s, xs) && NeverStale(Run(s, xs), ys)
    decreases |xs|
  {
    if xs == [] {
      assert xs + ys == ys;
    } else {
      assert (xs + ys)[1..] == xs[1..] + ys;
      RunAppend(Next(s, xs[0]), xs[1..], ys);
    }
  }

  lemma {:induction false} RunCons(s: State, a: Action, rest: seq<Action>)
    requires Enabled(s, a) && Legal(Next(s, a), rest)
    ensures Legal(s, [a] + rest) && Run(s, [a] + rest) == Run(Next(s, a), rest)
    ensures NeverStale(s, [a] + rest) <==> !IsStale(s, a) && NeverStale(Next(s, a), rest)
  {
    assert ([a] + rest)[1..] == rest;
  }

  lemma {:induction false} RunTwo(s: State, a: Action, b: Action)
    requires Enabled(s, a) && Enabled(Next(s, a), b)
    ensures Legal(s, [a, b]) && Run(s, [a, b]) == Next(Next(s, a), b)
    ensures NeverStale(s, [a, b]) <==> !IsStale(s, a) && !IsStale(Next(s, a), b)
  {
    RunCons(Next(s, a), b, []);
    RunCons(s, a, [b] + []);
    assert [a] + ([b] + []) == [a, b];
  }

  lemma {:induction false} RunThree(s: State, a: Action, b: Action, c: Action)
    requires Enabled(s, a) && Enabled(Next(s, a), b) && Enabled(Next(Next(s, a), b), c)
    ensures Legal(s, [a, b, c]) && Run(s, [a, b, c]) == Next(Next(Next(s, a), b), c)
    ensures NeverStale(s, [a, b, c]) <==> !IsStale(s, a) && !IsStale(Next(s, a), b) && !IsStale(Next(Next(s, a), b), c)
  {
    RunTwo(Next(s, a), b, c);
    RunCons(s, a, [b, c]);
    assert [a] + [b, c] == [a, b, c];
  }

  /** In debt, with every slot handed out: the filler passes its check, the starved acquirer's wake
      only pays the debt, and the filler goes to sleep with the flag set. */
  lemma {:induction false} EmptyDebtStrands(s: State) returns (actions: seq<Action>)
    requires InDebt(s) && s.free == 0 && s.unallocated == 0
    ensures Legal(s, actions) && Stranded(Run(s, actions))
  {
    RunThree(s, Fill, Fill, Acquire(0));
    var s1 := Next(Next(Next(s, Fill), Fill), Acquire(0));
    RunThree(s1, Advance, Advance, Advance);
    var s2 := Next(Next(Next(s1, Advance), Advance), Advance);
    RunTwo(s2, Fill, Fill);
    RunAppend(s1, [Advance, Advance, Advance], [Fill, Fill]);
    RunAppend(s, [Fill, Fill, Acquire(0)], [Advance, Advance, Advance] + [Fill, Fill]);
    actions := [Fill, Fill, Acquire(0)] + ([Advance, Advance, Advance] + [Fill, Fill]);
  }

  /** In debt, with slots left: one more is minted or handed out, and the debt remains. */
  lemma {:induction false} DebtPersists(s: State) returns (actions: seq<Action>)
    requires InDebt(s) && (s.free > 0 || s.unallocated > 0)
    ensures Legal(s, actions) && InDebt(Run(s, actions))
    ensures 2 * Run(s, actions).unallocated + Run(s, actions).free < 2 * s.unallocated + s.free
  {
    if NeedNew(s) {
      RunTwo(s, Fill, Fill);
      actions := [Fill, Fill];
    } else if NeedNew(s.(free := s.free - 1)) {
      RunThree(s, Fill, Fill, Fill);
      var s1 := Next(Next(Next(s, Fill), Fill), Fill);
      RunThree(s1, Acquire(0), Advance, Advance);
      RunAppend(s, [Fill, Fill, Fill], [Acquire(0), Advance, Advance]);
      actions := [Fill, Fill, Fill] + [Acquire(0), Advance, Advance];
    } else {
      actions := [Acquire(0)];
      assert actions[1..] == [];
    }
  }

  /** A debt can always strand a later acquirer. */
  lemma {:induction false} DebtStrands(s: State) returns (actions: seq<Action>)
    requires InDebt(s)
    ensures Legal(s, actions) && Stranded(Run(s, actions))
    decreases 2 * s.unallocated + s.free
  {
    if s.free == 0 && s.unallocated == 0 {
      actions := EmptyDebtStrands(s);
    } else {
      var first := DebtPersists(s);
      var rest := DebtStrands(Run(s, first));
      RunAppend(s, first, rest);
      actions := first + rest;
    }
  }

  /** So a stale poke, once it happens, may strand somebody: the condition is exact. */
  lemma {:induction false} StaleMayStrand(s: State, before: seq<Action>)
    requires Initial(s) && Legal(s, before) && NeverStale(s, before) && Enabled(Run(s, before), Advance)
    requires IsStale(Run(s, before), Advance)
    ensures exists actions :: Legal(s, before + actions) && Stranded(Run(s, before + actions))
  {
    var s1 := Run(s, before);
    RunKeepsInv(s, before);
    StaleLeavesDebt(s1, Advance);
    var rest := DebtStrands(Next(s1, Advance));
    assert ([Advance] + rest)[1..] == rest;
    RunAppend(s, before, [Advance] + rest);
  }

  ghost predicate Clean(s: State, actions: seq<Action>, s': State) {
    Legal(s, actions) && NeverStale(s, actions) && Run(s, actions) == s'
  }

  lemma {:induction false} CleanTrans(s: State, xs: seq<Action>, s1: State, ys: seq<Action>, s2: State)
    requires Clean(s, xs, s1) && Clean(s1, ys, s2)
    ensures Clean(s, xs + ys, s2)
  {
    RunAppend(s, xs, ys);
  }

  // ----- when it can happen -----

  /** Nobody in the pool, and the filler has not got to work yet. */
  predicate Quiet(s: State) {
    && (s.filler == NotStarted || s.filler == Work)
    && s.acquirer == Out && !s.flag && s.value >= 0
  }

  predicate SameSlots(s: State, s': State) {
    s.free == s'.free && s.unallocated == s'.unallocated && s.minPool == s'.minPool
  }

  /** An announcement of a low pool runs to its end, while the filler does not. */
  lemma {:induction false} Settle(s: State) returns (actions: seq<Action>, s': State)
    requires s.acquirer == Waking(false) && Quiet(s.(acquirer := Out))
    ensures Clean(s, actions, s') && Quiet(s') && s'.filler == Work && SameSlots(s, s')
    ensures s'.value == if s.filler == NotStarted then s.value else s.value + 1
  {
    var s1 := Next(s, Advance);
    if s1.acquirer == Out {
      RunCons(s, Advance, []);
      actions, s' := [Advance] + [], s1;
    } else {
      RunTwo(s, Advance, Advance);
      actions, s' := [Advance, Advance], Next(s1, Advance);
    }
  }

  /** Threads take all free slots before the filler gets to work. */
  lemma {:induction false} Drain(s: State) returns (actions: seq<Action>, s': State)
    requires Quiet(s)
    ensures Clean(s, actions, s') && Quiet(s') && SameSlots(s.(free := 0), s')
    decreases s.free
  {
    if s.free == 0 { return [], s; }
    var s1 := Next(s, Acquire(0));
    RunCons(s, Acquire(0), []);
    var first := [Acquire(0)] + [];
    if s1.acquirer != Out {
      var settle, s2 := Settle(s1);
      CleanTrans(s, first, s1, settle, s2);
      first, s1 := first + settle, s2;
    }
    var rest;
    rest, s' := Drain(s1);
    CleanTrans(s, first, s1, rest, s');
    actions := first + rest;
  }

  /** One announcement while the pool is low. */
  lemma {:induction false} Announce(s: State) returns (actions: seq<Action>, s': State)
    requires Quiet(s) && NeedNew(s)
    ensures Clean(s, actions, s') && Quiet(s') && s'.filler == Work && SameSlots(s, s')
    ensures s'.value == if s.filler == NotStarted then s.value else s.value + 1
  {
    var s1 := Next(s, Reacquire);
    RunCons(s, Reacquire, []);
    var settle;
    settle, s' := Settle(s1);
    CleanTrans(s, [Reacquire] + [], s1, settle, s');
    actions := [Reacquire] + [] + settle;
  }

  /** On a raised counter the next announcement is about to issue a wake-up that nobody waits for. */
  lemma {:induction false} LeavePoke(s: State) returns (actions: seq<Action>, s': State)
    requires Quiet(s) && s.filler == Work && NeedNew(s)
    ensures Clean(s, actions, s') && s'.filler == Work && s'.acquirer == Poking(false) && !s'.flag && s'.value > 0
  {
    var first, s1 := Announce(s);
    RunTwo(s1, Reacquire, Advance);
    s' := Next(Next(s1, Reacquire), Advance);
    CleanTrans(s, first, s1, [Reacquire, Advance], s');
    actions := first + [Reacquire, Advance];
  }

  /** The filler creates what is needed. */
  lemma {:induction false} MintAll(s: State) returns (actions: seq<Action>, s': State)
    requires s.filler == Work && s.acquirer == Poking(false)
    ensures Clean(s, actions, s') && s'.filler == Check(true) && s'.acquirer == Poking(false)
    ensures s'.value == s.value && !NeedNew(s')
    decreases s.unallocated
  {
    if NeedNew(s) {
      RunTwo(s, Fill, Fill);
      var s1 := Next(Next(s, Fill), Fill);
      var rest;
      rest, s' := MintAll(s1);
      CleanTrans(s, [Fill, Fill], s1, rest, s');
      actions := [Fill, Fill] + rest;
    } else {
      RunCons(s, Fill, []);
      actions, s' := [Fill] + [], Next(s, Fill);
    }
  }

  /** Each lap of the filler takes one off the counter, until it sleeps. */
  lemma {:induction false} SpinDown(s: State) returns (actions: seq<Action>, s': State)
    requires s.filler == Check(true) && s.acquirer == Poking(false) && s.value >= 0 && !NeedNew(s)
    ensures Clean(s, actions, s') && s'.filler == Asleep && s'.value == -1 && s'.acquirer == Poking(false)
    decreases s.value
  {
    RunThree(s, Fill, Fill, Fill);
    var s1 := Next(Next(Next(s, Fill), Fill), Fill);
    actions, s' := [Fill, Fill, Fill], s1;
    if s.value > 0 {
      var rest;
      rest, s' := SpinDown(s1);
      CleanTrans(s, actions, s1, rest, s');
      actions := actions + rest;
    }
  }

  /** Stale pokes occur whenever there are slots to create: announcements made before the filler gets to
      run leave a poke that meets it asleep. */
  lemma {:induction false} StaleOccurs(s: State) returns (actions: seq<Action>)
    requires Initial(s) && s.unallocated > 0
    ensures Legal(s, actions) && NeverStale(s, actions)
    ensures Enabled(Run(s, actions), Advance) && IsStale(Run(s, actions), Advance)
  {
    var drain, s1 := Drain(s);
    var announce, s2 := Announce(s1);
    var poke, s3 := LeavePoke(s2);
    var mint, s4 := MintAll(s3);
    var spin, s5 := SpinDown(s4);
    hide Clean, NeedNew, Quiet;
    CleanTrans(s3, mint, s4, spin, s5);
    CleanTrans(s2, poke, s3, mint + spin, s5);
    CleanTrans(s1, announce, s2, poke + (mint + spin), s5);
    CleanTrans(s, drain, s1, announce + (poke + (mint + spin)), s5);
    actions := drain + (announce + (poke + (mint + spin)));
    CleanMeans(s, actions, s5);
  }

  lemma {:induction false} CleanMeans(s: State, actions: seq<Action>, s': State)
    requires Clean(s, actions, s')
    ensures Legal(s, actions) && NeverStale(s, actions) && Run(s, actions) == s'
  {
  }

  /** With nothing to create, nobody announces a low pool. */
  ghost predicate Complete(s: State) {
    Inv(s) && s.unallocated == 0 && s.acquirer != Waking(false) && s.acquirer != Poking(false)
  }

  lemma {:induction false} CompleteStep(s: State, a: Action)
    requires Complete(s) && Enabled(s, a)
    ensures !IsStale(s, a) && Complete(Next(s, a))
  {
  }

  lemma {:induction false} CompleteNeverStale(s: State, actions: seq<Action>)
    requires Complete(s) && Legal(s, actions)
    ensures NeverStale(s, actions)
    decreases |actions|
  {
    if actions != [] {
      CompleteStep(s, actions[0]);
      CompleteNeverStale(Next(s, actions[0]), actions[1..]);
    }
  }

  /** An acquirer can be stranded if and only if there are slots yet to be created at the start. */
  lemma {:induction false} CanStrandIff(s: State)
    requires Initial(s)
    ensures (exists actions :: Legal(s, actions) && Stranded(Run(s, actions))) <==> s.unallocated > 0
  {
    hide Stranded;
    if s.unallocated > 0 {
      var before := StaleOccurs(s);
      StaleMayStrand(s, before);
      var rest :| Legal(s, before + rest) && Stranded(Run(s, before + rest));
    } else {
      forall actions | Legal(s, actions) ensures !Stranded(Run(s, actions)) {
        CompleteNeverStale(s, actions);
        NoAcquirerStranded(s, actions);
      }
    }
  }
}
