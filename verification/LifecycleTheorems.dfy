/** What the life-cycle protocol guarantees, stated over whole runs from the initial state. */
module LifecycleTheorems {
  import opened Common
  import opened Lifecycle

  /** The states that some interleaving of some threads reaches. */
  ghost predicate Reachable(s: State) {
    exists actions :: Run(INITIAL, actions) == Some(s)
  }

  lemma {:induction false} ReachableInv(s: State)
    requires Reachable(s)
    ensures Inv(s)
  {
    var actions :| Run(INITIAL, actions) == Some(s);
    RunKeepsInv(INITIAL, actions);
  }

  // ----- the read lock -----

  /** The threads whose innermost activation holds the read lock of `e`. */
  ghost function Readers(stacks: seq<seq<Frame>>, e: nat): set<nat> {
    set t: nat | t < |stacks| && stacks[t] != [] && Owns(Top(stacks[t]), e, ReadLock) == 1
  }

  lemma {:induction false} ParkedOwnsNoLock(stack: seq<Frame>, e: nat)
    requires forall i :: 0 <= i < |stack| ==> Parked(stack[i])
    ensures StackOwns(stack, e, ReadLock) == 0
  {
    if stack != [] { ParkedOwnsNoLock(stack[..|stack| - 1], e); }
  }

  lemma {:induction false} TotalIsReaders(stacks: seq<seq<Frame>>, e: nat)
    requires forall t, i :: 0 <= t < |stacks| && 0 <= i < |stacks[t]| - 1 ==> Parked(stacks[t][i])
    ensures Total(stacks, e, ReadLock) == |Readers(stacks, e)|
  {
    if stacks != [] {
      var n := |stacks| - 1;
      var last := stacks[n];
      TotalIsReaders(stacks[..n], e);
      ReadersSnoc(stacks, e);
      if last != [] { ParkedOwnsNoLock(last[..|last| - 1], e); }
    }
  }

  lemma {:induction false} ReadersSnoc(stacks: seq<seq<Frame>>, e: nat)
    requires stacks != []
    ensures var n := |stacks| - 1;
      |Readers(stacks, e)| == |Readers(stacks[..n],
        e)| + (if stacks[n] != [] then Owns(Top(stacks[n]), e, ReadLock) else 0)
  {
    hide Owns, Top;
    var n := |stacks| - 1;
    var init := stacks[..n];
    assert forall t :: 0 <= t < n ==> init[t] == stacks[t];
    var holds := stacks[n] != [] && Owns(Top(stacks[n]), e, ReadLock) == 1;
    assert Readers(stacks, e) == Readers(init, e) + if holds then {n} else {};
  }

  /** The lock's reader count is the number of threads whose innermost activation holds it; with a
      writer there is none. */
  lemma {:induction false} ReadHoldsAreInnermost(s: State, e: nat)
    requires Reachable(s) && e < |s.enclaves|
    ensures s.enclaves[e].readers == |Readers(s.stacks, e)|
    ensures s.enclaves[e].writer ==> Readers(s.stacks, e) == {}
  {
    ReachableInv(s);
    TotalIsReaders(s.stacks, e);
    assert ObjectOk(s, e);
  }

  // ----- the hardware enclave -----

  ghost predicate NobodyInside(s: State, e: nat) {
    forall t, i :: 0 <= t < |s.stacks| && 0 <= i < |s.stacks[t]| ==> s.stacks[t][i] != Ecall(e, Inside)
  }

  lemma {:induction false} StackOwnsEach(stack: seq<Frame>, i: nat, e: nat, k: Kind)
    requires i < |stack|
    ensures Owns(stack[i], e, k) <= StackOwns(stack, e, k)
  {
    if i < |stack| - 1 { StackOwnsEach(stack[..|stack| - 1], i, e, k); }
  }

  lemma {:induction false} OwnsEach(stacks: seq<seq<Frame>>, t: nat, i: nat, e: nat, k: Kind)
    requires t < |stacks| && i < |stacks[t]|
    ensures Owns(stacks[t][i], e, k) <= Total(stacks, e, k)
  {
    StackOwnsEach(stacks[t], i, e, k);
    TotalSet(stacks, t, [], e, k);
  }

  lemma {:induction false} WreckedIsEmpty(s: State, e: nat)
    requires Inv(s) && e < |s.enclaves| && s.enclaves[e].wrecks > 0
    ensures s.enclaves[e].wrecks == 1 && NobodyInside(s, e)
  {
    assert ObjectOk(s, e);
    forall t, i | 0 <= t < |s.stacks| && 0 <= i < |s.stacks[t]| ensures s.stacks[t][i] != Ecall(e, Inside) {
      OwnsEach(s.stacks, t, i, e, Presence);
    }
  }

  lemma {:induction false} WreckStays(s: State, a: Action, e: nat)
    requires Enabled(s, a) && e < |s.enclaves|
    ensures e < |Next(s, a).enclaves| && s.enclaves[e].wrecks <= Next(s, a).enclaves[e].wrecks
    ensures s.enclaves[e].destroyed ==> Next(s, a).enclaves[e].destroyed
  {
    if a.Move? {
      MoveMonotone(s, a.t, a.choice);
      hide MoveEffect;
    }
  }

  lemma {:induction false} MoveMonotone(s: State, t: nat, choice: Choice)
    requires Enabled(s, Move(t, choice))
    ensures var c, c' := s.enclaves[Top(s.stacks[t]).e], MoveEffect(s, t, choice).value.enclave;
      c.wrecks <= c'.wrecks && (c.destroyed ==> c'.destroyed)
  {
  }

  lemma {:induction false} WreckStaysInRun(s: State, actions: seq<Action>, e: nat)
    requires Run(s, actions).Some? && e < |s.enclaves|
    ensures var s' := Run(s, actions).value; e < |s'.enclaves| && s.enclaves[e].wrecks <= s'.enclaves[e].wrecks
    ensures s.enclaves[e].destroyed ==> Run(s, actions).value.enclaves[e].destroyed
    decreases |actions|
  {
    if actions != [] {
      WreckStays(s, actions[0], e);
      WreckStaysInRun(Next(s, actions[0]), actions[1..], e);
    }
  }

  /** The step that destroys the hardware enclave finds no reader and nobody inside. */
  lemma {:induction false} WreckedWhenUnread(s: State, a: Action, e: nat)
    requires Reachable(s) && Enabled(s, a) && e < |s.enclaves|
    requires Next(s, a).enclaves[e].wrecks > s.enclaves[e].wrecks
    ensures s.enclaves[e].writer && s.enclaves[e].wrecks == 0
    ensures Readers(s.stacks, e) == {} && NobodyInside(s, e)
  {
    ReachableInv(s);
    assert ObjectOk(s, e);
    WreckStep(s, a, e);
    ReadHoldsAreInnermost(s, e);
    TotalOrdered(s.stacks, e);
    forall t, i | 0 <= t < |s.stacks| && 0 <= i < |s.stacks[t]| ensures s.stacks[t][i] != Ecall(e, Inside) {
      OwnsEach(s.stacks, t, i, e, Presence);
    }
  }

  lemma {:induction false} WreckStep(s: State, a: Action, e: nat)
    requires Inv(s) && Enabled(s, a) && e < |s.enclaves|
    requires Next(s, a).enclaves[e].wrecks > s.enclaves[e].wrecks
    ensures RemovalOf(s, e) == Some(Writing)
  {
    assert a.Move?;
    var f := Top(s.stacks[a.t]);
    MoveWrecks(s, a.t, a.choice);
    hide MoveEffect;
    assert f == s.stacks[a.t][|s.stacks[a.t]| - 1];
    assert Removing(f);
  }

  lemma {:induction false} MoveWrecks(s: State, t: nat, choice: Choice)
    requires Enabled(s, Move(t, choice))
    ensures var f := Top(s.stacks[t]);
      MoveEffect(s, t, choice).value.enclave.wrecks > s.enclaves[f.e].wrecks ==> f == Destroy(f.e, Writing)
  {
  }

  /** Once destroyed, an enclave is never entered again, whatever the threads do. */
  lemma {:induction false} NeverReentered(s: State, actions: seq<Action>, e: nat)
    requires Reachable(s) && e < |s.enclaves| && s.enclaves[e].wrecks > 0
    requires Run(s, actions).Some?
    ensures var s' := Run(s, actions).value; e < |s'.enclaves| && s'.enclaves[e].wrecks == 1 && NobodyInside(s', e)
  {
    ReachableInv(s);
    RunKeepsInv(s, actions);
    WreckStaysInRun(s, actions, e);
    WreckedIsEmpty(Run(s, actions).value, e);
  }

  // ----- the reference count and deletion -----

  /** The outstanding `_sgx_ecall` activations on `e`: thread and position in its stack. */
  ghost function Activations(stacks: seq<seq<Frame>>, e: nat): set<(nat, nat)> {
    set t: nat, i: nat | t < |stacks| && i < |stacks[t]| && stacks[t][i].Ecall? && stacks[t][i].e == e :: (t, i)
  }

  ghost function StackActivations(stack: seq<Frame>, t: nat, e: nat): set<(nat, nat)> {
    set i: nat | i < |stack| && stack[i].Ecall? && stack[i].e == e :: (t, i)
  }

  lemma {:induction false} StackActivationsCount(stack: seq<Frame>, t: nat, e: nat)
    ensures |StackActivations(stack, t, e)| == StackOwns(stack, e, Reference)
  {
    if stack != [] {
      StackActivationsCount(stack[..|stack| - 1], t, e);
      StackActivationsSnoc(stack, t, e);
    }
  }

  lemma {:induction false} StackActivationsSnoc(stack: seq<Frame>, t: nat, e: nat)
    requires stack != []
    ensures |StackActivations(stack, t, e)| ==
      |StackActivations(stack[..|stack| - 1], t, e)| + Owns(Top(stack), e, Reference)
  {
    var n := |stack| - 1;
    var a, b, mine := StackActivations(stack, t, e), StackActivations(stack[..n], t, e),
      stack[n].Ecall? && stack[n].e == e;
    forall i | 0 <= i <= n ensures (t, i) in a <==> (i < n && (t, i) in b) || (i == n && mine) {
      assert i < n ==> stack[..n][i] == stack[i];
    }
    assert a == b + if mine then {(t, n)} else {};
  }

  lemma {:induction false} TotalIsActivations(stacks: seq<seq<Frame>>, e: nat)
    ensures |Activations(stacks, e)| == Total(stacks, e, Reference)
  {
    if stacks != [] {
      var n := |stacks| - 1;
      TotalIsActivations(stacks[..n], e);
      StackActivationsCount(stacks[n], n, e);
      var init, last := Activations(stacks[..n], e), StackActivations(stacks[n], n, e);
      assert Activations(stacks, e) == init + last && init !! last;
    }
  }

  /** `m_ref` is the number of outstanding activations. */
  lemma {:induction false} RefIsActivations(s: State, e: nat)
    requires Reachable(s) && e < |s.enclaves|
    ensures s.enclaves[e].ref == |Activations(s.stacks, e)|
  {
    ReachableInv(s);
    TotalIsActivations(s.stacks, e);
    assert ObjectOk(s, e);
  }

  /** No activation can still touch the object of `e`. */
  ghost predicate Unused(s: State, e: nat) {
    forall t, i :: 0 <= t < |s.stacks| && 0 <= i < |s.stacks[t]| && s.stacks[t][i].e == e ==>
      s.stacks[t][i].Destroy? && (s.stacks[t][i].stage == Looking || s.stacks[t][i].stage == Wanting)
  }

  /** The object is deleted at most once, only after the hardware enclave is destroyed and it left
      the pool, and nothing but a lookup that will fail still names it. */
  lemma {:induction false} DeletedAtMostOnce(s: State, e: nat)
    requires Reachable(s) && e < |s.enclaves|
    ensures s.enclaves[e].deletes <= 1
    ensures s.enclaves[e].deletes == 1 ==>
      && s.enclaves[e].wrecks == 1
      && s.enclaves[e].destroyed
      && !s.enclaves[e].listed
      && s.enclaves[e].ref == 0
      && Unused(s, e)
  {
    ReachableInv(s);
    assert ObjectOk(s, e);
    if s.enclaves[e].deletes == 1 {
      forall t, i | 0 <= t < |s.stacks| && 0 <= i < |s.stacks[t]| && s.stacks[t][i].e == e
        ensures s.stacks[t][i].Destroy? && (s.stacks[t][i].stage == Looking || s.stacks[t][i].stage == Wanting)
      {
        OwnsEach(s.stacks, t, i, e, Reference);
        OwnsEach(s.stacks, t, i, e, Duty);
        RemovingIsOnTop(s, t, i);
      }
    }
  }

  lemma {:induction false} RemovingIsOnTop(s: State, t: nat, i: nat)
    requires StacksOk(s) && t < |s.stacks| && i < |s.stacks[t]|
    ensures Removing(s.stacks[t][i]) ==> RemovalOf(s, s.stacks[t][i].e) == Some(s.stacks[t][i].stage)
  {
    if Removing(s.stacks[t][i]) { assert i == |s.stacks[t]| - 1; }
  }

  /** It is deleted by the caller of `remove_enclave` or by the last `unref_enclave` of a zombie. */
  lemma {:induction false} DeletedBy(s: State, a: Action, e: nat)
    requires Reachable(s) && Enabled(s, a) && e < |s.enclaves|
    requires Next(s, a).enclaves[e].deletes != s.enclaves[e].deletes
    ensures a.Move? && s.enclaves[e].deletes == 0 && s.enclaves[e].wrecks == 1
    ensures var f := Top(s.stacks[a.t]);
      f == Destroy(e, Deleting) || (f == Ecall(e, Returning) && s.enclaves[e].zombie && |Activations(s.stacks, e)| == 1)
  {
    ReachableInv(s);
    RefIsActivations(s, e);
    assert ObjectOk(s, e);
    var f := Top(s.stacks[a.t]);
    MoveDeletes(s, a.t, a.choice);
    hide Total, MoveEffect;
    if f.Destroy? {
      OwnsEach(s.stacks, a.t, |s.stacks[a.t]| - 1, e, Duty);
    }
  }

  lemma {:induction false} MoveDeletes(s: State, t: nat, choice: Choice)
    requires Enabled(s, Move(t, choice))
    ensures var f := Top(s.stacks[t]);
      MoveEffect(s, t, choice).value.enclave.deletes != s.enclaves[f.e].deletes ==>
        f == Destroy(f.e,
          Deleting) || (f == Ecall(f.e, Returning) && s.enclaves[f.e].zombie && s.enclaves[f.e].ref == 1)
  {
  }

  // ----- unwinding -----

  /** How many moves an activation still needs if it makes no further ocall. */
  function Rank(f: Frame): nat {
    match f
    case Ecall(_, phase) =>
      (match phase
       case Referenced => 5 case InOcall => 5 case Locked => 4 case Relocked => 4
       case Inside => 3 case Leaving => 2 case Returning => 1)
    case Destroy(_, stage) =>
      (match stage
       case Looking => 13 case Wanting => 7 case Waiting => 6 case Writing => 5 case Wrecked => 4
       case Flagged => 3 case Unlocked => 2 case Deleting => 1)
  }

  function StackRank(stack: seq<Frame>): nat {
    if stack == [] then 0 else StackRank(stack[..|stack| - 1]) + Rank(Top(stack))
  }

  function TotalRank(stacks: seq<seq<Frame>>): nat {
    if stacks == [] then 0 else TotalRank(stacks[..|stacks| - 1]) + StackRank(stacks[|stacks| - 1])
  }

  lemma {:induction false} StackRankAppend(base: seq<Frame>, frames: seq<Frame>)
    ensures StackRank(base + frames) == StackRank(base) + StackRank(frames)
  {
    if frames == [] {
      assert base + frames == base;
    } else {
      assert (base + frames)[..|base + frames| - 1] == base + frames[..|frames| - 1];
      StackRankAppend(base, frames[..|frames| - 1]);
    }
  }

  lemma {:induction false} TotalRankSet(stacks: seq<seq<Frame>>, t: nat, stack: seq<Frame>)
    requires t < |stacks|
    ensures TotalRank(stacks[t := stack]) == TotalRank(stacks) - StackRank(stacks[t]) + StackRank(stack)
  {
    var n := |stacks| - 1;
    if t < n {
      assert stacks[t := stack][..n] == stacks[..n][t := stack];
      TotalRankSet(stacks[..n], t, stack);
    } else {
      assert stacks[t := stack][..n] == stacks[..n];
    }
  }

  predicate MakesOcall(s: State, a: Action) {
    && a.Move?
    && a.t < |s.stacks|
    && s.stacks[a.t] != []
    && Top(s.stacks[a.t]).Ecall?
    && Top(s.stacks[a.t]).phase == Inside
    && a.choice == Yes
  }

  lemma {:induction false} EffectRank(s: State, t: nat, choice: Choice)
    requires Enabled(s, Move(t, choice)) && !MakesOcall(s, Move(t, choice))
    ensures StackRank(MoveEffect(s, t, choice).value.frames) < Rank(Top(s.stacks[t]))
  {
    var x := MoveEffect(s, t, choice).value;
    if |x.frames| == 1 {
      assert x.frames == [x.frames[0]] && x.frames[..0] == [];
    } else if |x.frames| == 2 {
      assert x.frames[..1] == [x.frames[0]] && x.frames[..1][..0] == [];
    }
  }

  /** Every move but a new ocall brings the system closer to rest: a run of such moves ends. */
  lemma {:induction false} MoveUnwinds(s: State, a: Action)
    requires a.Move? && Enabled(s, a) && !MakesOcall(s, a)
    ensures TotalRank(Next(s, a).stacks) < TotalRank(s.stacks)
  {
    var stack, x := s.stacks[a.t], MoveEffect(s, a.t, a.choice).value;
    var base := stack[..|stack| - 1];
    EffectRank(s, a.t, a.choice);
    StackRankAppend(base, x.frames);
    TotalRankSet(s.stacks, a.t, base + x.frames);
  }

  lemma {:induction false} SomeReader(stacks: seq<seq<Frame>>, e: nat) returns (t: nat)
    requires |Readers(stacks, e)| > 0
    ensures t in Readers(stacks, e)
  {
    t :| t in Readers(stacks, e);
  }

  /** Some thread can always move on without a new ocall: nobody waits for the pool mutex or the
      write lock in a circle. */
  lemma {:induction false} NoDeadlock(s: State) returns (a: Action)
    requires Inv(s) && exists t :: 0 <= t < |s.stacks| && s.stacks[t] != []
    ensures a.Move? && Enabled(s, a) && !MakesOcall(s, a)
  {
    if s.mutex.Some? {
      var h := s.mutex.value;
      var f := Top(s.stacks[h]);
      assert f == s.stacks[h][|s.stacks[h]| - 1];
      assert ObjectOk(s, f.e);
      if f.stage == Waiting && s.enclaves[f.e].readers > 0 {
        TotalIsReaders(s.stacks, f.e);
        var t := SomeReader(s.stacks, f.e);
        a := Move(t, No);
        assert Top(s.stacks[t]) == s.stacks[t][|s.stacks[t]| - 1];
      } else {
        a := Move(h, Yes);
      }
    } else {
      var t :| 0 <= t < |s.stacks| && s.stacks[t] != [];
      var f := Top(s.stacks[t]);
      assert f == s.stacks[t][|s.stacks[t]| - 1];
      assert ObjectOk(s, f.e);
      OwnsEach(s.stacks, t, |s.stacks[t]| - 1, f.e, ReadLock);
      OwnsEach(s.stacks, t, |s.stacks[t]| - 1, f.e, Reference);
      hide Total;
      a := Move(t, if f.Ecall? && f.phase == Inside then No else Yes);
    }
  }

  ghost predicate AtRest(s: State) {
    forall t :: 0 <= t < |s.stacks| ==> s.stacks[t] == []
  }

  lemma {:induction false} CanFinishFrom(s: State) returns (actions: seq<Action>)
    requires Inv(s)
    ensures Run(s, actions).Some? && AtRest(Run(s, actions).value)
    decreases TotalRank(s.stacks)
  {
    if AtRest(s) {
      actions := [];
    } else {
      var a := NoDeadlock(s);
      MoveUnwinds(s, a);
      StepKeepsInv(s, a);
      var rest := CanFinishFrom(Next(s, a));
      actions := [a] + rest;
      assert actions[1..] == rest;
    }
  }

  /** From every reachable state all threads can return, even with every enclave destroyed. */
  lemma {:induction false} EveryRunCanFinish(s: State)
    requires Reachable(s)
    ensures exists actions :: Run(s, actions).Some? && AtRest(Run(s, actions).value)
  {
    ReachableInv(s);
    var actions := CanFinishFrom(s);
  }

  /** The phases an ecall can be in on a destroyed enclave, with what is left to do. */
  function UnwindRank(phase: Phase): nat {
    match phase
    case Referenced => 3 case InOcall => 3 case Locked => 2 case Relocked => 2 case Returning => 1
    case Inside => 4 case Leaving => 4
  }

  /** After the destroy flag is set, an ecall's every move takes it strictly closer to its return,
      and at the end of three moves at most the frame is gone. */
  lemma {:induction false} DestroyedUnwinds(s: State, t: nat, choice: Choice)
    requires Reachable(s) && Enabled(s, Move(t, choice))
    requires Top(s.stacks[t]).Ecall? && s.enclaves[Top(s.stacks[t]).e].destroyed
    ensures UnwindRank(Top(s.stacks[t]).phase) <= 3
    ensures var stack, stack' := s.stacks[t], Next(s, Move(t, choice)).stacks[t];
      && stack[..|stack| - 1] <= stack'
      && (stack' == stack[..|stack| - 1]
          || (|stack'| == |stack| && Top(stack').Ecall? && Top(stack').e == Top(stack).e
              && UnwindRank(Top(stack').phase) < UnwindRank(Top(stack).phase)))
  {
    ReachableInv(s);
    var f := Top(s.stacks[t]);
    assert f == s.stacks[t][|s.stacks[t]| - 1];
    assert ObjectOk(s, f.e);
    OwnsEach(s.stacks, t, |s.stacks[t]| - 1, f.e, Presence);
    hide Total;
  }

  /** At rest everything is balanced: no lock is held, no reference is out, and every enclave that
      left the pool has been deleted. */
  lemma {:induction false} RestIsBalanced(s: State, e: nat)
    requires Reachable(s) && AtRest(s) && e < |s.enclaves|
    ensures s.mutex == None
    ensures var c := s.enclaves[e];
      c.readers == 0 && !c.writer && c.ref == 0 && c.deletes == c.wrecks == (if c.listed then 0 else 1)
  {
    ReachableInv(s);
    assert ObjectOk(s, e);
    NobodyOwns(s.stacks, e, ReadLock);
    NobodyOwns(s.stacks, e, Reference);
    NobodyOwns(s.stacks, e, Duty);
  }
}
