/** The life cycle of enclaves in the untrusted runtime: `_sgx_ecall`, `CEnclave::ecall`/`ocall`/
    `destroy`, `CEnclavePool` and `sgx_destroy_enclave`, as interleaved steps of any number of
    threads over any number of enclaves. A thread is a stack of activations; user code runs on an
    empty stack or above an ecall that is out in an ocall. */
module Lifecycle {
  import opened Common

  /** One `_sgx_ecall` activation.
      - `Referenced`: the pool handed out the object, `m_ref` is raised
      - `Locked`: the read lock is held, `m_destroyed` not yet looked at
      - `Inside`: the thread runs in the enclave
      - `InOcall`: the read lock is dropped, untrusted code runs
      - `Relocked`: the read lock is held again, `m_destroyed` not yet looked at
      - `Leaving`: back from the enclave, read lock still held
      - `Returning`: read lock released (or lost), about to drop the reference */
  datatype Phase = Referenced | Locked | Inside | InOcall | Relocked | Leaving | Returning

  /** One `sgx_destroy_enclave` activation.
      - `Looking`: about to reference the object for the un-init bracket
      - `Wanting`: about to call `remove_enclave`
      - `Waiting`: holds the pool mutex, waits for the write lock
      - `Writing`: holds the write lock
      - `Wrecked`: the hardware enclave is gone
      - `Flagged`: `m_destroyed` is set
      - `Unlocked`: the write lock is released
      - `Deleting`: `remove_enclave` returned the object for deletion */
  datatype Stage = Looking | Wanting | Waiting | Writing | Wrecked | Flagged | Unlocked | Deleting

  datatype Frame = Ecall(e: nat, phase: Phase) | Destroy(e: nat, stage: Stage)

  datatype Enclave = Enclave(
    readers: nat, writer: bool, destroyed: bool, ref: nat, zombie: bool, listed: bool,
    wrecks: nat, deletes: nat)

  const FRESH: Enclave := Enclave(0, false, false, 0, false, true, 0, 0)

  /** `mutex` is the thread that keeps the pool mutex across steps; only `remove_enclave` does. */
  datatype State = State(stacks: seq<seq<Frame>>, enclaves: seq<Enclave>, mutex: Option<nat>)

  const INITIAL: State := State([], [], None)

  /** The outcomes a step leaves open: whether a lock attempt succeeds, a thread slot is found, or
      the enclave makes an ocall; `Skip` is the un-init bracket without its ecall. */
  datatype Choice = Yes | No | Skip

  datatype Action =
    | Spawn
    | Create
    | CallEcall(t: nat, e: nat)
    | CallDestroy(t: nat, e: nat)
    | Move(t: nat, choice: Choice)

  // ----- one activation -----

  datatype MutexUse = Keep | Take | Drop

  /** What replaces the top frame, the enclave object afterwards, and what happens to the mutex. */
  datatype Effect = Effect(frames: seq<Frame>, enclave: Enclave, mutex: MutexUse)

  function EcallMove(e: nat, phase: Phase, c: Enclave, free: bool, contended: bool, bracket: bool,
      choice: Choice): Option<Effect>
  {
    match phase
    case Referenced =>
      if choice == Yes && !c.writer then Some(Effect([Ecall(e, Locked)], c.(readers := c.readers + 1), Keep))
      else if choice == No && (c.writer || contended) then Some(Effect([Ecall(e, Returning)], c, Keep))
      else if choice == Skip && bracket then Some(Effect([Ecall(e, Returning)], c, Keep))
      else None
    case Locked =>
      if c.destroyed then DropLock(e, Returning, c)
      else Some(Effect([Ecall(e, if choice == Yes then Inside else Leaving)], c, Keep))
    case Inside =>
      if choice == Yes then DropLock(e, InOcall, c)
      else Some(Effect([Ecall(e, Leaving)], c, Keep))
    case InOcall =>
      if choice == Yes && !c.writer then Some(Effect([Ecall(e, Relocked)], c.(readers := c.readers + 1), Keep))
      else if choice == No && (c.writer || contended) then Some(Effect([Ecall(e, Returning)], c, Keep))
      else None
    case Relocked =>
      if c.destroyed then DropLock(e, Returning, c)
      else Some(Effect([Ecall(e, Inside)], c, Keep))
    case Leaving => DropLock(e, Returning, c)
    case Returning =>
      if free && c.ref > 0 then
        var last := c.zombie && c.ref == 1;
        Some(Effect([], c.(ref := c.ref - 1, deletes := c.deletes + if last then 1 else 0), Keep))
      else None
  }

  function DropLock(e: nat, phase: Phase, c: Enclave): Option<Effect> {
    if c.readers > 0 then Some(Effect([Ecall(e, phase)], c.(readers := c.readers - 1), Keep)) else None
  }

  function DestroyMove(e: nat, stage: Stage, c: Enclave, free: bool): Option<Effect> {
    match stage
    case Looking =>
      if !free then None
      else if c.listed then Some(Effect([Destroy(e, Wanting), Ecall(e, Referenced)], c.(ref := c.ref + 1), Keep))
      else Some(Effect([Destroy(e, Wanting)], c, Keep))
    case Wanting =>
      if !free then None
      else if c.listed then Some(Effect([Destroy(e, Waiting)], c, Take))
      else Some(Effect([], c, Keep))
    case Waiting =>
      if c.readers == 0 && !c.writer then Some(Effect([Destroy(e, Writing)], c.(writer := true), Keep)) else None
    case Writing => Some(Effect([Destroy(e, Wrecked)], c.(wrecks := c.wrecks + 1), Keep))
    case Wrecked => Some(Effect([Destroy(e, Flagged)], c.(destroyed := true), Keep))
    case Flagged => Some(Effect([Destroy(e, Unlocked)], c.(writer := false), Keep))
    case Unlocked =>
      if c.ref > 0 then Some(Effect([], c.(zombie := true, listed := false), Drop))
      else Some(Effect([Destroy(e, Deleting)], c.(listed := false), Drop))
    case Deleting => Some(Effect([], c.(deletes := c.deletes + 1), Keep))
  }

  // ----- the whole system -----

  function Top(stack: seq<Frame>): Frame
    requires stack != []
  {
    stack[|stack| - 1]
  }

  /** User code may call in: nothing on the stack, or an ecall out in an ocall. */
  predicate InUserCode(stack: seq<Frame>) {
    stack == [] || (Top(stack).Ecall? && Top(stack).phase == InOcall)
  }

  /** The removal in progress, if any: the frame that keeps the pool mutex. */
  function Remover(s: State): Option<Frame> {
    if s.mutex.Some? && s.mutex.value < |s.stacks| && s.stacks[s.mutex.value] != [] then
      Some(Top(s.stacks[s.mutex.value]))
    else None
  }

  /** Whether a writer waits for the lock of `e`; `tryrdlock` may then fail. */
  predicate Contended(s: State, e: nat) {
    Remover(s) == Some(Destroy(e, Waiting))
  }

  function MoveEffect(s: State, t: nat, choice: Choice): Option<Effect>
    requires t < |s.stacks| && s.stacks[t] != [] && Top(s.stacks[t]).e < |s.enclaves|
  {
    var f := Top(s.stacks[t]);
    var c := s.enclaves[f.e];
    match f
    case Ecall(e, phase) =>
      EcallMove(e, phase, c, s.mutex == None, Contended(s, e),
        |s.stacks[t]| > 1 && s.stacks[t][|s.stacks[t]| - 2].Destroy?, choice)
    case Destroy(e, stage) => DestroyMove(e, stage, c, s.mutex == None)
  }

  predicate Enabled(s: State, a: Action) {
    match a
    case Spawn => true
    case Create => true
    case CallEcall(t, e) =>
      t < |s.stacks| && InUserCode(s.stacks[t]) && e < |s.enclaves| && s.mutex == None && s.enclaves[e].listed
    case CallDestroy(t, e) => t < |s.stacks| && InUserCode(s.stacks[t]) && e < |s.enclaves|
    case Move(t, choice) =>
      t < |s.stacks| && s.stacks[t] != [] && Top(s.stacks[t]).e < |s.enclaves| && MoveEffect(s, t, choice).Some?
  }

  function Next(s: State, a: Action): State
    requires Enabled(s, a)
  {
    match a
    case Spawn => s.(stacks := s.stacks + [[]])
    case Create => s.(enclaves := s.enclaves + [FRESH])
    case CallEcall(t, e) =>
      State(s.stacks[t := s.stacks[t] + [Ecall(e, Referenced)]],
            s.enclaves[e := s.enclaves[e].(ref := s.enclaves[e].ref + 1)], s.mutex)
    case CallDestroy(t, e) => s.(stacks := s.stacks[t := s.stacks[t] + [Destroy(e, Looking)]])
    case Move(t, choice) =>
      var x := MoveEffect(s, t, choice).value;
      var stack := s.stacks[t];
      State(s.stacks[t := stack[..|stack| - 1] + x.frames],
            s.enclaves[Top(stack).e := x.enclave],
            match x.mutex case Keep => s.mutex case Take => Some(t) case Drop => None)
  }

  function Run(s: State, actions: seq<Action>): Option<State>
    decreases |actions|
  {
    if actions == [] then Some(s)
    else if !Enabled(s, actions[0]) then None
    else Run(Next(s, actions[0]), actions[1..])
  }

  // ----- counting activations -----

  /** What an activation may own of its enclave: the read lock, a reference, presence in the
      enclave, or the duty to delete the object. */
  datatype Kind = ReadLock | Reference | Presence | Duty

  function Owns(f: Frame, e: nat, k: Kind): (n: nat)
    ensures n <= 1
  {
    if f.e != e then 0
    else match f
      case Ecall(_, phase) =>
        (match k
         case ReadLock => if phase == Locked || phase == Inside || phase == Relocked || phase == Leaving then 1 else 0
         case Reference => 1
         case Presence => if phase == Inside || phase == Leaving then 1 else 0
         case Duty => 0)
      case Destroy(_, stage) => if k == Duty && stage == Deleting then 1 else 0
  }

  function StackOwns(stack: seq<Frame>, e: nat, k: Kind): nat {
    if stack == [] then 0 else StackOwns(stack[..|stack| - 1], e, k) + Owns(Top(stack), e, k)
  }

  function Total(stacks: seq<seq<Frame>>, e: nat, k: Kind): nat {
    if stacks == [] then 0 else Total(stacks[..|stacks| - 1], e, k) + StackOwns(stacks[|stacks| - 1], e, k)
  }

  lemma {:induction false} TotalSet(stacks: seq<seq<Frame>>, t: nat, stack: seq<Frame>, e: nat, k: Kind)
    requires t < |stacks|
    ensures Total(stacks[t := stack], e, k) == Total(stacks, e, k) - StackOwns(stacks[t], e, k) + StackOwns(stack, e, k)
  {
    var n := |stacks| - 1;
    if t < n {
      assert stacks[t := stack][..n] == stacks[..n][t := stack];
      TotalSet(stacks[..n], t, stack, e, k);
    } else {
      assert stacks[t := stack][..n] == stacks[..n];
    }
  }

  lemma {:induction false} StackAppend(base: seq<Frame>, frames: seq<Frame>, e: nat, k: Kind)
    ensures StackOwns(base + frames, e, k) == StackOwns(base, e, k) + StackOwns(frames, e, k)
  {
    if frames == [] {
      assert base + frames == base;
    } else {
      var n := |frames| - 1;
      assert (base + frames)[..|base + frames| - 1] == base + frames[..n];
      StackAppend(base, frames[..n], e, k);
    }
  }

  lemma {:induction false} StackSmall(f: Frame, g: Frame, e: nat, k: Kind)
    ensures StackOwns([f], e, k) == Owns(f, e, k)
    ensures StackOwns([f, g], e, k) == Owns(f, e, k) + Owns(g, e, k)
  {
    assert [f][..0] == [] && [f, g][..1] == [f];
  }

  // ----- the invariant -----

  /** The stages during which the pool mutex is kept. */
  predicate Removing(f: Frame) {
    f.Destroy? && f.stage != Looking && f.stage != Wanting && f.stage != Deleting
  }

  /** Below the top there are only ecalls out in an ocall, and destroys in their un-init bracket. */
  predicate Parked(f: Frame) {
    match f
    case Ecall(_, phase) => phase == InOcall
    case Destroy(_, stage) => stage == Wanting
  }

  ghost predicate StacksOk(s: State) {
    forall t, i :: 0 <= t < |s.stacks| && 0 <= i < |s.stacks[t]| ==>
      && s.stacks[t][i].e < |s.enclaves|
      && (i < |s.stacks[t]| - 1 ==> Parked(s.stacks[t][i]))
      && (Removing(s.stacks[t][i]) ==> s.mutex == Some(t))
  }

  ghost predicate MutexOk(s: State) {
    s.mutex.Some? ==>
      s.mutex.value < |s.stacks| && s.stacks[s.mutex.value] != [] && Removing(Top(s.stacks[s.mutex.value]))
  }

  /** An enclave object against what the activations own of it, and against the removal of it that
      is in progress, if any. */
  ghost predicate EnclaveOk(c: Enclave, locks: int, refs: int, present: int, duties: int, removal: Option<Stage>) {
    && c.readers == locks
    && c.ref == refs
    && c.writer == (removal == Some(Writing) || removal == Some(Wrecked) || removal == Some(Flagged))
    && (c.writer ==> locks == 0)
    && (removal.Some? ==> c.listed)
    && c.wrecks ==
       (if !c.listed || removal == Some(Wrecked) || removal == Some(Flagged) || removal == Some(Unlocked)
        then 1 else 0)
    && c.destroyed == (!c.listed || removal == Some(Flagged) || removal == Some(Unlocked))
    && (c.wrecks > 0 ==> present == 0)
    && (c.zombie ==> !c.listed)
    && c.deletes + duties + (if c.zombie && refs > 0 then 1 else 0) == (if c.listed then 0 else 1)
    && (c.deletes + duties > 0 ==> refs == 0)
  }

  function RemovalOf(s: State, e: nat): Option<Stage> {
    match Remover(s)
    case Some(Destroy(e', stage)) => if e' == e then Some(stage) else None
    case _ => None
  }

  ghost predicate ObjectOk(s: State, e: nat)
    requires e < |s.enclaves|
  {
    EnclaveOk(s.enclaves[e], Total(s.stacks, e, ReadLock), Total(s.stacks, e, Reference), Total(s.stacks, e, Presence),
              Total(s.stacks, e, Duty), RemovalOf(s, e))
  }

  ghost predicate Inv(s: State) {
    StacksOk(s) && MutexOk(s) && forall e :: 0 <= e < |s.enclaves| ==> ObjectOk(s, e)
  }

  // ----- one step keeps it -----

  function Added(frames: seq<Frame>, e: nat, k: Kind): nat
    requires |frames| <= 2
  {
    if |frames| == 0 then 0
    else if |frames| == 1 then Owns(frames[0], e, k)
    else Owns(frames[0], e, k) + Owns(frames[1], e, k)
  }

  /** The removal that is in progress after a move. */
  function RemovalAfter(f: Frame, x: Effect, removal: Option<Stage>): Option<Stage> {
    if x.mutex == Drop then None
    else if x.mutex == Take || Removing(f) then
      (if x.frames != [] && x.frames[0].Destroy? then Some(x.frames[0].stage) else None)
    else removal
  }

  /** The new frames of a move: they stay with the enclave, all but the last are parked, and the
      mutex is kept exactly by the frames that are removing. */
  ghost predicate EffectShape(f: Frame, x: Effect, free: bool) {
    && |x.frames| <= 2
    && (forall g :: g in x.frames ==> g.e == f.e)
    && (|x.frames| == 2 ==> Parked(x.frames[0]))
    && (x.mutex == Take ==> free && !Removing(f) && |x.frames| == 1 && Removing(x.frames[0]))
    && (x.mutex == Drop ==> Removing(f) && forall g :: g in x.frames ==> !Removing(g))
    && (x.mutex == Keep ==>
          if Removing(f) then |x.frames| == 1 && Removing(x.frames[0])
          else forall g :: g in x.frames ==> !Removing(g))
  }

  lemma {:induction false} EcallShape(e: nat, phase: Phase, c: Enclave, free: bool, contended: bool, bracket: bool,
      choice: Choice, x: Effect)
    requires EcallMove(e, phase, c, free, contended, bracket, choice) == Some(x)
    ensures EffectShape(Ecall(e, phase), x, free)
  {
  }

  lemma {:induction false} DestroyShape(e: nat, stage: Stage, c: Enclave, free: bool, x: Effect)
    requires DestroyMove(e, stage, c, free) == Some(x)
    ensures EffectShape(Destroy(e, stage), x, free)
  {
  }

  /** The arithmetic of an ecall's move, on its own enclave. */
  lemma {:induction false} EcallKeeps(e: nat, phase: Phase, c: Enclave, free: bool, contended: bool, bracket: bool,
      choice: Choice, x: Effect,
      locks: nat, refs: nat, present: nat, duties: nat, removal: Option<Stage>)
    requires EnclaveOk(c, locks, refs, present, duties, removal)
    requires EcallMove(e, phase, c, free, contended, bracket, choice) == Some(x)
    requires var f := Ecall(e, phase); Owns(f, e, ReadLock) <= locks && Owns(f, e, Presence) <= present && 0 < refs
    requires free ==> removal == None
    ensures |x.frames| <= 1
    ensures var f := Ecall(e, phase);
      EnclaveOk(x.enclave,
        locks - Owns(f, e, ReadLock) + Added(x.frames, e, ReadLock),
        refs - 1 + Added(x.frames, e, Reference),
        present - Owns(f, e, Presence) + Added(x.frames, e, Presence),
        duties + Added(x.frames, e, Duty),
        removal)
  {
  }

  /** The same for a destroy's move. */
  lemma {:induction false} DestroyKeeps(e: nat, stage: Stage, c: Enclave, free: bool, x: Effect,
      locks: nat, refs: nat, present: nat, duties: nat, removal: Option<Stage>)
    requires EnclaveOk(c, locks, refs, present, duties, removal) && present <= locks <= refs
    requires DestroyMove(e, stage, c, free) == Some(x)
    requires var f := Destroy(e, stage); Owns(f, e, Duty) <= duties && (Removing(f) ==> removal == Some(stage))
    requires free ==> removal == None
    ensures |x.frames| <= 2
    ensures var f := Destroy(e, stage);
      EnclaveOk(x.enclave,
        locks + Added(x.frames, e, ReadLock),
        refs + Added(x.frames, e, Reference),
        present + Added(x.frames, e, Presence),
        duties - Owns(f, e, Duty) + Added(x.frames, e, Duty),
        RemovalAfter(f, x, removal))
  {
  }

  // ----- ownership totals under a move -----

  lemma {:induction false} TotalMove(stacks: seq<seq<Frame>>, t: nat, frames: seq<Frame>, e: nat, k: Kind)
    requires t < |stacks| && stacks[t] != [] && |frames| <= 2
    ensures var stack := stacks[t];
      && Owns(Top(stack), e, k) <= Total(stacks, e, k)
      && Total(stacks[t := stack[..|stack| - 1] + frames], e, k) ==
         Total(stacks, e, k) - Owns(Top(stack), e, k) + Added(frames, e, k)
  {
    var stack := stacks[t];
    var base := stack[..|stack| - 1];
    TotalSet(stacks, t, base + frames, e, k);
    StackAppend(base, frames, e, k);
    TotalSet(stacks, t, [], e, k);
    if |frames| == 1 {
      assert frames == [frames[0]];
      StackSmall(frames[0], frames[0], e, k);
    } else if |frames| == 2 {
      assert frames == [frames[0], frames[1]];
      StackSmall(frames[0], frames[1], e, k);
    }
  }

  lemma {:induction false} TotalPush(stacks: seq<seq<Frame>>, t: nat, f: Frame, e: nat, k: Kind)
    requires t < |stacks|
    ensures Total(stacks[t := stacks[t] + [f]], e, k) == Total(stacks, e, k) + Owns(f, e, k)
  {
    TotalSet(stacks, t, stacks[t] + [f], e, k);
    StackAppend(stacks[t], [f], e, k);
    StackSmall(f, f, e, k);
  }

  lemma {:induction false} StackOrdered(stack: seq<Frame>, e: nat)
    ensures StackOwns(stack, e, Presence) <= StackOwns(stack, e, ReadLock) <= StackOwns(stack, e, Reference)
  {
    if stack != [] { StackOrdered(stack[..|stack| - 1], e); }
  }

  /** Whoever is in the enclave holds the read lock, and whoever holds it has a reference. */
  lemma {:induction false} TotalOrdered(stacks: seq<seq<Frame>>, e: nat)
    ensures Total(stacks, e, Presence) <= Total(stacks, e, ReadLock) <= Total(stacks, e, Reference)
  {
    if stacks != [] {
      TotalOrdered(stacks[..|stacks| - 1], e);
      StackOrdered(stacks[|stacks| - 1], e);
    }
  }

  // ----- a move of the whole system -----

  lemma {:induction false} MoveShape(s: State, t: nat, choice: Choice)
    requires Enabled(s, Move(t, choice))
    ensures EffectShape(Top(s.stacks[t]), MoveEffect(s, t, choice).value, s.mutex == None)
  {
    var f, c, x := Top(s.stacks[t]), s.enclaves[Top(s.stacks[t]).e], MoveEffect(s, t, choice).value;
    hide EcallMove, DestroyMove, EffectShape;
    match f
    case Ecall(e, phase) =>
      EcallShape(e, phase, c, s.mutex == None, Contended(s, e),
        |s.stacks[t]| > 1 && s.stacks[t][|s.stacks[t]| - 2].Destroy?, choice, x);
    case Destroy(e, stage) => DestroyShape(e, stage, c, s.mutex == None, x);
  }

  lemma {:induction false} MoveKeepsStacks(s: State, t: nat, choice: Choice)
    requires StacksOk(s) && MutexOk(s) && Enabled(s, Move(t, choice))
    ensures StacksOk(Next(s, Move(t, choice))) && MutexOk(Next(s, Move(t, choice)))
  {
    MoveShape(s, t, choice);
    hide EcallMove, DestroyMove, MoveEffect;
    var s', x, stack := Next(s, Move(t, choice)), MoveEffect(s, t, choice).value, s.stacks[t];
    var base := stack[..|stack| - 1];
    forall u, i | 0 <= u < |s'.stacks| && 0 <= i < |s'.stacks[u]|
      ensures s'.stacks[u][i].e < |s'.enclaves|
      ensures i < |s'.stacks[u]| - 1 ==> Parked(s'.stacks[u][i])
      ensures Removing(s'.stacks[u][i]) ==> s'.mutex == Some(u)
    {
      if u == t {
        var g := s'.stacks[t][i];
        if i < |base| {
          assert g == stack[i] && Parked(g);
        } else {
          assert g == x.frames[i - |base|] && g in x.frames;
        }
      } else {
        assert s'.stacks[u] == s.stacks[u];
      }
    }
  }

  lemma {:induction false} RemovalMoves(s: State, t: nat, choice: Choice, e: nat)
    requires StacksOk(s) && MutexOk(s) && Enabled(s, Move(t, choice))
    ensures var f, x := Top(s.stacks[t]), MoveEffect(s, t, choice).value;
      RemovalOf(Next(s, Move(t, choice)), e) ==
        if e == f.e then RemovalAfter(f, x, RemovalOf(s, e)) else RemovalOf(s, e)
  {
    MoveShape(s, t, choice);
    hide EcallMove, DestroyMove, MoveEffect;
    var s', x, stack := Next(s, Move(t, choice)), MoveEffect(s, t, choice).value, s.stacks[t];
    var f := Top(stack);
    assert Removing(f) ==> s.mutex == Some(t) by { assert f == s.stacks[t][|stack| - 1]; }
    assert s.mutex == Some(t) ==> Removing(f);
    if s'.mutex == Some(t) {
      assert |x.frames| == 1 && s'.stacks[t] == stack[..|stack| - 1] + x.frames && Top(s'.stacks[t]) == x.frames[0];
      assert x.frames[0] in x.frames;
    }
  }

  lemma {:induction false} OthersUntouched(f: Frame, frames: seq<Frame>, e: nat)
    requires e != f.e && |frames| <= 2 && forall g :: g in frames ==> g.e == f.e
    ensures forall k :: Owns(f, e, k) == 0 && Added(frames, e, k) == 0
  {
    assert |frames| > 0 ==> frames[0] in frames;
    assert |frames| > 1 ==> frames[1] in frames;
  }

  /** The enclave of the top frame, with the totals that a move leaves. */
  ghost predicate OwnOk(s: State, t: nat, x: Effect)
    requires t < |s.stacks| && s.stacks[t] != [] && |x.frames| <= 2
  {
    var f := Top(s.stacks[t]);
    EnclaveOk(x.enclave,
      Total(s.stacks, f.e, ReadLock) - Owns(f, f.e, ReadLock) + Added(x.frames, f.e, ReadLock),
      Total(s.stacks, f.e, Reference) - Owns(f, f.e, Reference) + Added(x.frames, f.e, Reference),
      Total(s.stacks, f.e, Presence) - Owns(f, f.e, Presence) + Added(x.frames, f.e, Presence),
      Total(s.stacks, f.e, Duty) - Owns(f, f.e, Duty) + Added(x.frames, f.e, Duty),
      RemovalAfter(f, x, RemovalOf(s, f.e)))
  }

  lemma {:induction false} OwnEcall(s: State, t: nat, choice: Choice)
    requires Inv(s) && Enabled(s, Move(t, choice)) && Top(s.stacks[t]).Ecall?
    ensures |MoveEffect(s, t, choice).value.frames| <= 2 && OwnOk(s, t, MoveEffect(s, t, choice).value)
  {
    var f, x := Top(s.stacks[t]), MoveEffect(s, t, choice).value;
    var e, c, bracket := f.e, s.enclaves[f.e], |s.stacks[t]| > 1 && s.stacks[t][|s.stacks[t]| - 2].Destroy?;
    assert ObjectOk(s, e);
    TopOwns(s.stacks, t, e);
    hide EcallMove, EnclaveOk, Total, StacksOk;
    EcallKeeps(e, f.phase, c, s.mutex == None, Contended(s, e), bracket, choice, x,
      Total(s.stacks, e, ReadLock), Total(s.stacks, e, Reference), Total(s.stacks, e, Presence),
      Total(s.stacks, e, Duty), RemovalOf(s, e));
    EcallMutex(e, f.phase, c, s.mutex == None, Contended(s, e), bracket, choice, x);
    assert Owns(f, e, Reference) == 1 && Owns(f, e, Duty) == 0;
  }

  lemma {:induction false} OwnDestroy(s: State, t: nat, choice: Choice)
    requires Inv(s) && Enabled(s, Move(t, choice)) && Top(s.stacks[t]).Destroy?
    ensures |MoveEffect(s, t, choice).value.frames| <= 2 && OwnOk(s, t, MoveEffect(s, t, choice).value)
  {
    var f, x := Top(s.stacks[t]), MoveEffect(s, t, choice).value;
    var e := f.e;
    assert ObjectOk(s, e) && f == s.stacks[t][|s.stacks[t]| - 1];
    TopOwns(s.stacks, t, e);
    TotalOrdered(s.stacks, e);
    hide DestroyMove, EnclaveOk, Total, EcallMove;
    DestroyKeeps(e, f.stage, s.enclaves[e], s.mutex == None, x,
      Total(s.stacks, e, ReadLock), Total(s.stacks, e, Reference), Total(s.stacks, e, Presence),
      Total(s.stacks, e, Duty), RemovalOf(s, e));
    assert Owns(f, e, ReadLock) == 0 && Owns(f, e, Reference) == 0 && Owns(f, e, Presence) == 0;
  }

  lemma {:induction false} EcallMutex(e: nat, phase: Phase, c: Enclave, free: bool, contended: bool, bracket: bool,
      choice: Choice, x: Effect)
    requires EcallMove(e, phase, c, free, contended, bracket, choice) == Some(x)
    ensures x.mutex == Keep
  {
  }

  lemma {:induction false} TopOwns(stacks: seq<seq<Frame>>, t: nat, e: nat)
    requires t < |stacks| && stacks[t] != []
    ensures forall k :: Owns(Top(stacks[t]), e, k) <= Total(stacks, e, k)
  {
    forall k ensures Owns(Top(stacks[t]), e, k) <= Total(stacks, e, k) {
      TotalMove(stacks, t, [], e, k);
    }
  }

  lemma {:induction false} MoveKeepsObject(s: State, t: nat, choice: Choice, e: nat)
    requires Inv(s) && Enabled(s, Move(t, choice)) && e < |s.enclaves|
    ensures ObjectOk(Next(s, Move(t, choice)), e)
  {
    hide EcallMove, DestroyMove, EnclaveOk, Total, Owns, Added, RemovalAfter, RemovalOf, StacksOk, Removing;
    var x, f := MoveEffect(s, t, choice).value, Top(s.stacks[t]);
    MoveShape(s, t, choice);
    RemovalMoves(s, t, choice, e);
    TotalMove(s.stacks, t, x.frames, e, ReadLock);
    TotalMove(s.stacks, t, x.frames, e, Reference);
    TotalMove(s.stacks, t, x.frames, e, Presence);
    TotalMove(s.stacks, t, x.frames, e, Duty);
    if e == f.e {
      if f.Ecall? { OwnEcall(s, t, choice); } else { OwnDestroy(s, t, choice); }
    } else {
      assert ObjectOk(s, e);
      OthersUntouched(f, x.frames, e);
    }
  }

  // ----- calls from user code -----

  /** A call pushes a frame that owns at most a reference, and leaves the removal alone. */
  lemma {:induction false} PushKeepsStacks(s: State, t: nat, f: Frame, s': State)
    requires StacksOk(s) && MutexOk(s) && t < |s.stacks| && InUserCode(s.stacks[t])
    requires f.e < |s.enclaves| && !Removing(f)
    requires s'.stacks == s.stacks[t := s.stacks[t] + [f]] && |s'.enclaves| == |s.enclaves| && s'.mutex == s.mutex
    ensures StacksOk(s') && MutexOk(s') && Remover(s') == Remover(s)
  {
    var stack := s.stacks[t];
    assert s.mutex != Some(t);
    forall u, i | 0 <= u < |s'.stacks| && 0 <= i < |s'.stacks[u]|
      ensures s'.stacks[u][i].e < |s'.enclaves|
      ensures i < |s'.stacks[u]| - 1 ==> Parked(s'.stacks[u][i])
      ensures Removing(s'.stacks[u][i]) ==> s'.mutex == Some(u)
    {
      if u == t && i < |stack| { assert s'.stacks[t][i] == stack[i]; }
    }
  }

  lemma {:induction false} CallKeeps(s: State, t: nat, f: Frame, s': State, e: nat)
    requires Inv(s) && t < |s.stacks| && InUserCode(s.stacks[t]) && e < |s.enclaves| && f.e < |s.enclaves|
    requires f == Destroy(f.e, Looking) || (f == Ecall(f.e, Referenced) && s.mutex == None && s.enclaves[f.e].listed)
    requires s' == State(s.stacks[t := s.stacks[t] + [f]],
                         if f.Ecall? then s.enclaves[f.e := s.enclaves[f.e].(ref := s.enclaves[f.e].ref + 1)]
                         else s.enclaves, s.mutex)
    ensures ObjectOk(s', e)
  {
    hide Total, StacksOk, MutexOk, InUserCode, EnclaveOk, Owns, Remover;
    assert ObjectOk(s, e);
    PushKeepsStacks(s, t, f, s');
    TotalPush(s.stacks, t, f, e, ReadLock);
    TotalPush(s.stacks, t, f, e, Reference);
    TotalPush(s.stacks, t, f, e, Presence);
    TotalPush(s.stacks, t, f, e, Duty);
    CallKeepsObject(s.enclaves[e], s'.enclaves[e], f, e, Total(s.stacks, e, ReadLock), Total(s.stacks, e, Reference),
      Total(s.stacks, e, Presence), Total(s.stacks, e, Duty), RemovalOf(s, e));
  }

  lemma {:induction false} CallKeepsObject(c: Enclave, c': Enclave, f: Frame, e: nat, locks: int, refs: int,
      present: int, duties: int, removal: Option<Stage>)
    requires EnclaveOk(c, locks, refs, present, duties, removal) && refs >= 0
    requires f == Destroy(f.e, Looking) || (f == Ecall(f.e, Referenced) && (f.e == e ==> c.listed))
    requires c' == if f.Ecall? && f.e == e then c.(ref := c.ref + 1) else c
    ensures EnclaveOk(c', locks + Owns(f, e, ReadLock), refs + Owns(f, e, Reference), present + Owns(f, e, Presence),
                      duties + Owns(f, e, Duty), removal)
  {
  }

  // ----- new threads and enclaves -----

  lemma {:induction false} SpawnKeeps(s: State)
    requires Inv(s)
    ensures Inv(Next(s, Spawn))
  {
    var s' := Next(s, Spawn);
    assert s'.stacks[..|s'.stacks| - 1] == s.stacks;
    assert Remover(s') == Remover(s);
    forall e | 0 <= e < |s.enclaves| ensures ObjectOk(s', e) { assert ObjectOk(s, e); }
  }

  lemma {:induction false} NobodyKnows(stack: seq<Frame>, e: nat, k: Kind)
    requires forall i :: 0 <= i < |stack| ==> stack[i].e != e
    ensures StackOwns(stack, e, k) == 0
  {
    if stack != [] { NobodyKnows(stack[..|stack| - 1], e, k); }
  }

  lemma {:induction false} NobodyOwns(stacks: seq<seq<Frame>>, e: nat, k: Kind)
    requires forall t, i :: 0 <= t < |stacks| && 0 <= i < |stacks[t]| ==> stacks[t][i].e != e
    ensures Total(stacks, e, k) == 0
  {
    if stacks != [] {
      NobodyOwns(stacks[..|stacks| - 1], e, k);
      NobodyKnows(stacks[|stacks| - 1], e, k);
    }
  }

  lemma {:induction false} CreateKeeps(s: State)
    requires Inv(s)
    ensures Inv(Next(s, Create))
  {
    var s', n := Next(s, Create), |s.enclaves|;
    forall e | 0 <= e <= n ensures ObjectOk(s', e) {
      if e < n {
        assert ObjectOk(s, e) && s'.enclaves[e] == s.enclaves[e] && Remover(s') == Remover(s);
      } else {
        NobodyOwns(s.stacks, n, ReadLock);
        NobodyOwns(s.stacks, n, Reference);
        NobodyOwns(s.stacks, n, Presence);
        NobodyOwns(s.stacks, n, Duty);
        assert RemovalOf(s', n) == None;
      }
    }
  }

  // ----- whole runs -----

  /** Every step of every thread keeps the invariant. */
  lemma {:induction false} StepKeepsInv(s: State, a: Action)
    requires Inv(s) && Enabled(s, a)
    ensures Inv(Next(s, a))
  {
    hide ObjectOk, MoveEffect;
    match a
    case Spawn => SpawnKeeps(s);
    case Create => CreateKeeps(s);
    case CallEcall(t, e) =>
      PushKeepsStacks(s, t, Ecall(e, Referenced), Next(s, a));
      forall e' | 0 <= e' < |s.enclaves| ensures ObjectOk(Next(s, a), e') {
        CallKeeps(s, t, Ecall(e, Referenced), Next(s, a), e');
      }
    case CallDestroy(t, e) =>
      PushKeepsStacks(s, t, Destroy(e, Looking), Next(s, a));
      forall e' | 0 <= e' < |s.enclaves| ensures ObjectOk(Next(s, a), e') {
        CallKeeps(s, t, Destroy(e, Looking), Next(s, a), e');
      }
    case Move(t, choice) =>
      MoveKeepsStacks(s, t, choice);
      forall e' | 0 <= e' < |s.enclaves| ensures ObjectOk(Next(s, a), e') { MoveKeepsObject(s, t, choice, e'); }
  }

  lemma {:induction false} RunKeepsInv(s: State, actions: seq<Action>)
    requires Inv(s) && Run(s, actions).Some?
    ensures Inv(Run(s, actions).value)
    decreases |actions|
  {
    if actions != [] {
      StepKeepsInv(s, actions[0]);
      RunKeepsInv(Next(s, actions[0]), actions[1..]);
    }
  }
}
