/** Whole runs of the thread pool, up to un-initialisation: ecalls that begin and end in any order
    and nesting, the filler, and threads created by the enclave. */
module PoolRuns {
  import opened Common
  import opened NodeList
  import opened SlotAccounts
  import opened ThreadPool

  /** - `Begin`: an ecall, the init ecall or an ordinary one, asks for a slot
      - `End`: an ecall on slot `s` returns
      - `Exit`: the ecalls on slot `s` are left through `pthread_exit`
      - `Fill`: the filler runs
      - `Reserve`, `Start`: a slot for a thread yet to be created; that thread starts */
  datatype Call =
    | Begin(t: ThreadId, init: bool, live: set<ThreadId>, pace: Pace)
    | End(t: ThreadId, s: Slot)
    | Exit(t: ThreadId, s: Slot)
    | Fill(budget: nat)
    | Reserve(live: set<ThreadId>, pace: Pace)
    | Start(t: ThreadId, s: Slot)

  datatype Event =
    | Acquired(t: ThreadId, s: Slot)
    | OutOfSlots(t: ThreadId)
    | Ended(t: ThreadId, s: Slot)
    | Exited(t: ThreadId, s: Slot)
    | Reserved(s: Slot)
    | Started(t: ThreadId, s: Slot)
    | Done

  /** The threads of the ecalls that acquired slot `s` and have not ended, one for each. */
  function Users(trace: seq<Event>, s: Slot): multiset<ThreadId> {
    if trace == [] then multiset{} else
      var before := Users(trace[..|trace| - 1], s);
      match trace[|trace| - 1]
      case Acquired(t, x) => if x == s then before + multiset{t} else before
      case Ended(t, x) => if x == s then before - multiset{t} else before
      case Exited(_, x) => if x == s then multiset{} else before
      case _ => before
  }

  /** The slots held after an event. */
  function HeldAfter(held: multiset<Slot>, e: Event): multiset<Slot> {
    match e
    case Reserved(s) => held + multiset{s}
    case Started(_, s) => held - multiset{s}
    case _ => held
  }

  /** The slots reserved for threads that have not started. */
  function Waiting(trace: seq<Event>): multiset<Slot> {
    if trace == [] then multiset{} else HeldAfter(Waiting(trace[..|trace| - 1]), trace[|trace| - 1])
  }

  /** Every slot's count is the number of outstanding ecalls that acquired it. */
  ghost predicate Tallies(refs: map<Slot, nat>, trace: seq<Event>) {
    forall s :: s in refs ==> refs[s] == |Users(trace, s)|
  }

  /** A slot in use, other than the utility slot, is bound to each of its users. */
  ghost predicate Owned(nodes: seq<Binding>, refs: map<Slot, nat>, utility: Option<Slot>, trace: seq<Event>) {
    forall s, t :: t in Users(trace, s) ==> s in refs && (utility == Some(s) || Bound(nodes, t, s))
  }

  /** No slot but the utility slot is handed to a thread while an ecall of another thread uses it. */
  ghost predicate NeverShared(trace: seq<Event>, utility: Option<Slot>) {
    forall i :: 0 <= i < |trace| ==> Exclusive(trace[..i], trace[i], utility)
  }

  ghost predicate Exclusive(before: seq<Event>, e: Event, utility: Option<Slot>) {
    e.Acquired? && utility != Some(e.s) ==> forall t :: t in Users(before, e.s) ==> t == e.t
  }

  /** Which event a call gives, after a given trace: an ecall that is not outstanding cannot end. */
  predicate Answers(trace: seq<Event>, c: Call, e: Event) {
    match c
    case Begin(t, _, _, _) => (e.Acquired? && e.t == t) || e == OutOfSlots(t)
    case End(t, s) => e == if t in Users(trace, s) then Ended(t, s) else Done
    case Exit(t, s) => e == if t in Users(trace, s) then Exited(t, s) else Done
    case Fill(_) => e == Done
    case Reserve(_, _) => e.Reserved? || e == Done
    case Start(t, s) => e == Done || (s in Waiting(trace) && e == Started(t, s))
  }

  /** The pool after a trace. */
  ghost predicate Tracks(pool: TrustThreadPool, trace: seq<Event>)
    reads pool
  {
    && Tallies(pool.refs, trace)
    && Owned(pool.spine, pool.refs, pool.utility, trace)
    && pool.held == Waiting(trace)
  }

  // ----- one event -----

  lemma {:induction false} After(trace: seq<Event>, e: Event, s: Slot)
    ensures Users(trace + [e], s) ==
      match e
      case Acquired(t, x) => if x == s then Users(trace, s) + multiset{t} else Users(trace, s)
      case Ended(t, x) => if x == s then Users(trace, s) - multiset{t} else Users(trace, s)
      case Exited(_, x) => if x == s then multiset{} else Users(trace, s)
      case _ => Users(trace, s)
  {
    assert (trace + [e])[..|trace|] == trace;
  }

  lemma {:induction false} WaitingAfter(trace: seq<Event>, e: Event)
    ensures Waiting(trace + [e]) == HeldAfter(Waiting(trace), e)
  {
    assert (trace + [e])[..|trace|] == trace;
  }

  /** The event changes no slot's users. */
  predicate Neutral(e: Event) {
    !e.Acquired? && !e.Ended? && !e.Exited?
  }

  lemma {:induction false} Unaffected(trace: seq<Event>, e: Event)
    requires Neutral(e)
    ensures forall s :: Users(trace + [e], s) == Users(trace, s)
  {
    forall s { After(trace, e, s); }
  }

  /** A busy binding that is kept is kept for its thread. */
  lemma {:induction false} BusyStaysBound(was: seq<Binding>, now: seq<Binding>, refs: map<Slot, nat>,
      refs': map<Slot, nat>, t: ThreadId, s: Slot)
    requires BusyIn(was, refs) <= BusyIn(now, refs') && Bound(was, t, s) && s in refs && refs[s] > 0
    ensures Bound(now, t, s)
  {
    var i :| 0 <= i < |was| && was[i].key == t && was[i].value == s;
    assert was[i] in BusyIn(was, refs);
    assert was[i] in BusyIn(now, refs');
    var j :| 0 <= j < |now| && now[j] == was[i];
  }

  /** Owners keep their slots when no busy binding is lost. */
  lemma {:induction false} StillOwned(was: seq<Binding>, now: seq<Binding>, refs: map<Slot, nat>,
      refs': map<Slot, nat>, utility: Option<Slot>, trace: seq<Event>)
    requires Tallies(refs, trace) && Owned(was, refs, utility, trace)
    requires BusyIn(was, refs) <= BusyIn(now, refs')
    ensures Owned(now, refs, utility, trace)
  {
    forall s, t | t in Users(trace, s) ensures s in refs && (utility == Some(s) || Bound(now, t, s)) {
      assert |Users(trace, s)| > 0;
      if utility != Some(s) { BusyStaysBound(was, now, refs, refs', t, s); }
    }
  }

  lemma {:induction false} NoChange(nodes: seq<Binding>, refs: map<Slot, nat>, utility: Option<Slot>,
      trace: seq<Event>, e: Event)
    requires Tallies(refs, trace) && Owned(nodes, refs, utility, trace) && Neutral(e)
    ensures Tallies(refs, trace + [e]) && Owned(nodes, refs, utility, trace + [e])
  {
    Unaffected(trace, e);
    forall s, t | t in Users(trace + [e], s) ensures s in refs && (utility == Some(s) || Bound(nodes, t, s)) {
      assert t in Users(trace, s);
    }
  }

  /** An acquisition: the count goes up with the users, and the new user is the owner. */
  lemma {:induction false} Acquires(nodes: seq<Binding>, refs: map<Slot, nat>, utility: Option<Slot>,
      trace: seq<Event>, t: ThreadId, s: Slot)
    requires Tallies(refs, trace) && Owned(nodes, refs, utility, trace) && s in refs
    requires (utility == Some(s) || Bound(nodes, t, s))
    ensures Tallies(refs[s := refs[s] + 1], trace + [Acquired(t, s)])
    ensures Owned(nodes, refs[s := refs[s] + 1], utility, trace + [Acquired(t, s)])
  {
    var trace' := trace + [Acquired(t, s)];
    forall x { After(trace, Acquired(t, s), x); }
    forall x, u | u in Users(trace', x) ensures x in refs && (utility == Some(x) || Bound(nodes, u, x)) {
      assert u in Users(trace, x) || (u == t && x == s);
    }
  }

  lemma {:induction false} UserOwns(nodes: seq<Binding>, refs: map<Slot, nat>, utility: Option<Slot>,
      trace: seq<Event>, t: ThreadId, s: Slot)
    requires Tallies(refs, trace) && Owned(nodes, refs, utility, trace) && t in Users(trace, s)
    ensures s in refs && refs[s] > 0 && (utility == Some(s) || Bound(nodes, t, s))
  {
    assert |Users(trace, s)| > 0;
  }

  lemma {:induction false} EndedUsers(trace: seq<Event>, t: ThreadId, s: Slot, x: Slot)
    requires t in Users(trace, s)
    ensures var now := Users(trace + [Ended(t, s)], x);
      now <= Users(trace, x) && |now| == |Users(trace, x)| - if x == s then 1 else 0
  {
    After(trace, Ended(t, s), x);
    hide Users;
    if x == s { OneLess(Users(trace, s), t); }
  }

  lemma {:induction false} OneLess<T>(m: multiset<T>, t: T)
    requires t in m
    ensures |m - multiset{t}| == |m| - 1 && m - multiset{t} <= m
  {
    assert m == m - multiset{t} + multiset{t};
  }

  lemma {:induction false} Ends(nodes: seq<Binding>, refs: map<Slot, nat>, utility: Option<Slot>, trace: seq<Event>,
      t: ThreadId, s: Slot)
    requires Tallies(refs, trace) && Owned(nodes, refs, utility, trace) && t in Users(trace, s) && s in refs
    requires refs[s] > 0
    ensures Tallies(refs[s := refs[s] - 1], trace + [Ended(t, s)])
    ensures Owned(nodes, refs[s := refs[s] - 1], utility, trace + [Ended(t, s)])
  {
    hide Users, Bound;
    var trace', refs' := trace + [Ended(t, s)], refs[s := refs[s] - 1];
    forall x | x in refs' ensures refs'[x] == |Users(trace', x)| { EndedUsers(trace, t, s, x); }
    forall x: Slot, u: ThreadId | u in Users(trace', x)
      ensures x in refs' && (utility == Some(x) || Bound(nodes, u, x))
    {
      EndedUsers(trace, t, s, x);
      assert u in Users(trace, x);
    }
  }

  lemma {:induction false} Exits(nodes: seq<Binding>, refs: map<Slot, nat>, utility: Option<Slot>, trace: seq<Event>,
      t: ThreadId, s: Slot)
    requires Tallies(refs, trace) && Owned(nodes, refs, utility, trace) && s in refs
    ensures Tallies(refs[s := 0], trace + [Exited(t, s)])
    ensures Owned(nodes, refs[s := 0], utility, trace + [Exited(t, s)])
  {
    var trace' := trace + [Exited(t, s)];
    forall x { After(trace, Exited(t, s), x); }
    hide Users, Bound;
    forall x, u | u in Users(trace', x) ensures x in refs && (utility == Some(x) || Bound(nodes, u, x)) {
      assert u in Users(trace, x);
    }
  }

  /** Whoever gets a bound slot is its only user. */
  lemma {:induction false} AloneOnSlot(a: Accounts, nodes: seq<Binding>, trace: seq<Event>, t: ThreadId, s: Slot)
    requires AccountsOk(a) && a.bound == multiset(Values(nodes)) && Owned(nodes, a.refs, a.utility, trace)
    requires a.utility == Some(s) || Bound(nodes, t, s)
    ensures Exclusive(trace, Acquired(t, s), a.utility)
  {
    if a.utility != Some(s) {
      forall u | u in Users(trace, s) ensures u == t {
        hide AccountsOk, Values;
        OneOwner(a, nodes, u, t, s);
      }
    }
  }

  // ----- the run -----

  /** The ecall's `acquire_thread`. */
  method DoBegin(pool: TrustThreadPool, c: Call, ghost trace: seq<Event>) returns (e: Event, nullPointer: bool)
    requires c.Begin? && pool.Valid() && Tracks(pool, trace)
    modifies pool, pool.spine
    ensures pool.Valid() && pool.utility == old(pool.utility) && Tracks(pool, trace + [e])
    ensures Answers(trace, c, e) && Exclusive(trace, e, pool.utility)
    ensures nullPointer <==> !c.init && pool.utility == None && pool.NeedNewThread()
    ensures |pool.unallocated| <= |old(pool.unallocated)|
    ensures forall n :: n in pool.spine ==> n in old(pool.spine) || fresh(n)
  {
    hide AccountsOk, Values, UniqueKeys, IsList, Tallies, Owned, Bound, Users, BusyIn, Exclusive, Waiting;
    ghost var was, refs := pool.spine, pool.refs;
    var r;
    r, nullPointer := pool.AcquireThread(if c.init then InitEnclave else Ordinary, c.t, c.live, c.pace);
    StillOwned(was, pool.spine, refs, pool.refs, pool.utility, trace);
    if r == None {
      e := OutOfSlots(c.t);
      NoChange(pool.spine, refs, pool.utility, trace, e);
      NotAcquired(trace, e, pool.utility);
    } else {
      e := Acquired(c.t, r.value);
      Acquires(pool.spine, refs, pool.utility, trace, c.t, r.value);
      SameOwners(pool.spine, refs, pool.refs, pool.utility, trace);
      AloneOnSlot(pool.Books(), pool.spine, trace, c.t, r.value);
    }
    WaitingAfter(trace, e);
  }

  lemma {:induction false} NotAcquired(trace: seq<Event>, e: Event, utility: Option<Slot>)
    requires !e.Acquired?
    ensures Exclusive(trace, e, utility)
  {
  }

  lemma {:induction false} SameOwners(nodes: seq<Binding>, refs: map<Slot, nat>, refs': map<Slot, nat>,
      utility: Option<Slot>, trace: seq<Event>)
    requires Owned(nodes, refs, utility, trace) && forall s :: s in refs ==> s in refs'
    ensures Owned(nodes, refs', utility, trace)
  {
  }

  /** The end of an ecall: `decrease_ref`, or `reset_ref` after `pthread_exit`. */
  method DoEnd(pool: TrustThreadPool, c: Call, trace: seq<Event>) returns (e: Event)
    requires (c.End? || c.Exit?) && pool.Valid() && Tracks(pool, trace)
    modifies pool`refs
    ensures pool.Valid() && Tracks(pool, trace + [e])
    ensures Answers(trace, c, e) && Exclusive(trace, e, pool.utility)
  {
    hide AccountsOk, Values, UniqueKeys, IsList, Tallies, Owned, Bound, Users, Exclusive, Waiting;
    e := Done;
    if c.t in Users(trace, c.s) {
      e := if c.End? then Ended(c.t, c.s) else Exited(c.t, c.s);
      UserOwns(pool.spine, pool.refs, pool.utility, trace, c.t, c.s);
      Ends(pool.spine, pool.refs, pool.utility, trace, c.t, c.s);
      Exits(pool.spine, pool.refs, pool.utility, trace, c.t, c.s);
      if pool.utility != Some(c.s) { BoundIsIn(pool.spine, c.t, c.s); }
      pool.SetRef(c.s, if c.End? then pool.refs[c.s] - 1 else 0);
    } else {
      NoChange(pool.spine, pool.refs, pool.utility, trace, e);
    }
    NotAcquired(trace, e, pool.utility);
    WaitingAfter(trace, e);
  }

  /** A thread takes over the slot reserved for it. */
  method DoStart(pool: TrustThreadPool, t: ThreadId, s: Slot) returns (e: Event)
    requires pool.Valid() && s in pool.held
    modifies pool`head, pool`spine, pool`held, pool.spine
    ensures pool.Valid() && old(pool.Busy()) <= pool.Busy()
    ensures e == Started(t, s) || e == Done
    ensures pool.held == if e == Done then old(pool.held) else old(pool.held) - multiset{s}
    ensures forall n :: n in pool.spine ==> n in old(pool.spine) || fresh(n)
  {
    hide AccountsOk, Values, UniqueKeys, IsList, Bound;
    ghost var was := pool.spine;
    var ok := pool.BindPthread(t, s);
    e := if ok then Started(t, s) else Done;
    BusyGrows(was, pool.spine, pool.refs);
  }

  /** A slot is reserved for a thread yet to be created. */
  method DoReserve(pool: TrustThreadPool, live: set<ThreadId>, pace: Pace) returns (e: Event)
    requires pool.Valid()
    modifies pool`head, pool`spine, pool`free, pool`unallocated, pool`waitForNewThread, pool`held, pool.spine
    ensures pool.Valid() && old(pool.Busy()) <= pool.Busy() && pool.held == HeldAfter(old(pool.held), e)
    ensures e.Reserved? || e == Done
    ensures |pool.unallocated| <= |old(pool.unallocated)| && forall n :: n in pool.spine ==> n in old(pool.spine)
  {
    hide AccountsOk, Values, UniqueKeys, IsList, BusyIn;
    var r := pool.AcquireFreeThread(live, pace);
    e := if r.Some? then Reserved(r.value) else Done;
  }

  /** The filler, and threads created by the enclave: no count changes and no slot in use is taken. */
  method Perform(pool: TrustThreadPool, c: Call, waiting: multiset<Slot>) returns (e: Event)
    requires (c.Fill? || c.Reserve? || c.Start?) && pool.Valid() && pool.held == waiting
    modifies pool`head, pool`spine, pool`free, pool`unallocated, pool`waitForNewThread, pool`held, pool.spine
    ensures pool.Valid() && old(pool.Busy()) <= pool.Busy() && pool.held == HeldAfter(waiting, e)
    ensures c.Fill? ==> e == Done
    ensures c.Reserve? ==> e.Reserved? || e == Done
    ensures c.Start? ==> e == Done || (c.s in waiting && e == Started(c.t, c.s))
    ensures |pool.unallocated| <= |old(pool.unallocated)|
    ensures forall n :: n in pool.spine ==> n in old(pool.spine) || fresh(n)
  {
    hide AccountsOk, Values, UniqueKeys, IsList, BusyIn, Moved;
    e := Done;
    if c.Fill? {
      var filled := pool.FillMiniPool(c.budget);
    } else if c.Reserve? {
      e := DoReserve(pool, c.live, c.pace);
    } else if c.s in waiting {
      e := DoStart(pool, c.t, c.s);
    }
  }

  /** The same, with the trace. */
  method DoOther(pool: TrustThreadPool, c: Call, trace: seq<Event>) returns (e: Event)
    requires (c.Fill? || c.Reserve? || c.Start?) && pool.Valid() && Tracks(pool, trace)
    modifies pool, pool.spine
    ensures pool.Valid() && pool.utility == old(pool.utility) && Tracks(pool, trace + [e])
    ensures Answers(trace, c, e) && Exclusive(trace, e, pool.utility)
    ensures |pool.unallocated| <= |old(pool.unallocated)|
    ensures forall n :: n in pool.spine ==> n in old(pool.spine) || fresh(n)
  {
    hide AccountsOk, Values, UniqueKeys, IsList, Tallies, Owned, Bound, Users, BusyIn, Exclusive, Waiting;
    ghost var was := pool.spine;
    e := Perform(pool, c, Waiting(trace));
    StillOwned(was, pool.spine, pool.refs, pool.refs, pool.utility, trace);
    NoChange(pool.spine, pool.refs, pool.utility, trace, e);
    NotAcquired(trace, e, pool.utility);
    WaitingAfter(trace, e);
  }

  method Do(pool: TrustThreadPool, c: Call, trace: seq<Event>) returns (e: Event, nullPointer: bool)
    requires pool.Valid() && Tracks(pool, trace)
    modifies pool, pool.spine
    ensures pool.Valid() && pool.utility == old(pool.utility) && Tracks(pool, trace + [e])
    ensures Answers(trace, c, e) && Exclusive(trace, e, pool.utility)
    ensures nullPointer <==> c.Begin? && !c.init && pool.utility == None && pool.NeedNewThread()
    ensures old(pool.Ready()) ==> pool.Ready() && !nullPointer
    ensures forall n :: n in pool.spine ==> n in old(pool.spine) || fresh(n)
  {
    hide AccountsOk, IsList, UniqueKeys, Tracks, Answers, Exclusive;
    nullPointer := false;
    if c.Begin? {
      e, nullPointer := DoBegin(pool, c, trace);
    } else if c.End? || c.Exit? {
      e := DoEnd(pool, c, trace);
    } else {
      e := DoOther(pool, c, trace);
    }
  }

  /** Each call of a run got its event, and no slot was shared. */
  ghost predicate Log(calls: seq<Call>, trace: seq<Event>, utility: Option<Slot>) {
    && |trace| <= |calls|
    && (forall i :: 0 <= i < |trace| ==> Answers(trace[..i], calls[i], trace[i]))
    && NeverShared(trace, utility)
  }

  lemma {:induction false} LogGrows(calls: seq<Call>, trace: seq<Event>, e: Event, utility: Option<Slot>)
    requires Log(calls, trace, utility) && |trace| < |calls| && Answers(trace, calls[|trace|], e)
    requires Exclusive(trace, e, utility)
    ensures Log(calls, trace + [e], utility)
  {
    hide Answers, Exclusive;
    var now := trace + [e];
    forall i | 0 <= i < |now| ensures Answers(now[..i], calls[i], now[i]) && Exclusive(now[..i], now[i], utility) {
      if i < |trace| {
        assert now[..i] == trace[..i] && now[i] == trace[i];
      } else {
        assert now[..i] == trace && now[i] == e;
      }
    }
  }

  lemma {:induction false} NothingYet(pool: TrustThreadPool, calls: seq<Call>)
    requires pool.held == multiset{} && forall s :: s in pool.refs ==> pool.refs[s] == 0
    ensures Tracks(pool, []) && Log(calls, [], pool.utility)
  {
  }

  /** Any sequence of calls on a pool with no ecall under way. Every call is answered; in the end the
      count of every slot is the number of outstanding ecalls that acquired it; and at no point was
      a slot in use handed to another thread. The run stops early only at an ordinary ecall that
      leaves too few free slots, with slots yet to be created and no utility slot: there the code
      follows a null pointer. A pool that is ready never gets there. */
  method Serve(pool: TrustThreadPool, calls: seq<Call>) returns (trace: seq<Event>, nullPointer: bool)
    requires pool.Valid() && pool.held == multiset{} && forall s :: s in pool.refs ==> pool.refs[s] == 0
    modifies pool, pool.spine
    ensures pool.Valid() && pool.utility == old(pool.utility)
    ensures Log(calls, trace, pool.utility) && Tracks(pool, trace)
    ensures !nullPointer ==> |trace| == |calls|
    ensures nullPointer ==>
      && 0 < |trace| <= |calls| && calls[|trace| - 1].Begin? && !calls[|trace| - 1].init
      && pool.utility == None && pool.NeedNewThread()
    ensures old(pool.Ready()) ==> pool.Ready() && !nullPointer
    ensures forall n :: n in pool.spine ==> n in old(pool.spine) || fresh(n)
  {
    hide *;
    trace, nullPointer := [], false;
    NothingYet(pool, calls);
    ghost var spine0 := pool.spine;
    for k := 0 to |calls|
      invariant pool.Valid() && pool.utility == old(pool.utility) && |trace| == k && !nullPointer
      invariant Log(calls, trace, pool.utility) && Tracks(pool, trace)
      invariant old(pool.Ready()) ==> pool.Ready()
      invariant forall i :: 0 <= i < |pool.spine| ==> pool.spine[i] in spine0 || fresh(pool.spine[i])
    {
      ghost var was := pool.spine;
      assert forall n :: n in was ==> n in spine0 || fresh(n);
      var e;
      e, nullPointer := Do(pool, calls[k], trace);
      assert forall i :: 0 <= i < |pool.spine| ==> pool.spine[i] in pool.spine;
      LogGrows(calls, trace, e, pool.utility);
      trace := trace + [e];
      if nullPointer { return; }
    }
  }

  // ----- a pool as the loader fills it -----

  /** The slots of an enclave are added one by one; the second component says that a slot is yet to be
      created. With dynamic threads and EDMM the pool is ready exactly if some slot exists already
      or none is yet to be created. */
  method Build(bindMode: bool, minPool: nat, slots: seq<(Slot, bool)>, dynamic: bool) returns (pool: TrustThreadPool)
    requires forall i, j :: 0 <= i < j < |slots| ==> slots[i].0 != slots[j].0
    ensures fresh(pool) && pool.Valid() && pool.spine == [] && pool.held == multiset{}
    ensures pool.bindMode == bindMode && pool.minPool == minPool
    ensures forall s :: s in pool.refs ==> pool.refs[s] == 0
    ensures pool.utility.Some? <==> dynamic && exists i :: 0 <= i < |slots| && !slots[i].1
    ensures pool.unallocated != [] <==> exists i :: 0 <= i < |slots| && slots[i].1
    ensures !dynamic ==> |pool.free| + |pool.unallocated| == |slots|
    ensures !dynamic ==> (pool.free != [] <==> exists i :: 0 <= i < |slots| && !slots[i].1)
  {
    hide AccountsOk, Values, IsList, UniqueKeys;
    pool := new TrustThreadPool(bindMode, minPool);
    for k := 0 to |slots|
      invariant fresh(pool) && pool.Valid() && pool.spine == [] && pool.held == multiset{}
      invariant pool.bindMode == bindMode && pool.minPool == minPool
      invariant forall s :: s in pool.known ==> exists i :: 0 <= i < k && slots[i].0 == s
      invariant forall s :: s in pool.refs ==> pool.refs[s] == 0
      invariant pool.utility.Some? <==> dynamic && exists i :: 0 <= i < k && !slots[i].1
      invariant pool.unallocated != [] <==> exists i :: 0 <= i < k && slots[i].1
      invariant !dynamic ==> |pool.free| + |pool.unallocated| == k
      invariant !dynamic ==> (pool.free != [] <==> exists i :: 0 <= i < k && !slots[i].1)
    {
      assert slots[k].0 !in pool.known;
      pool.AddThread(slots[k].0, slots[k].1, dynamic);
    }
  }

  /** Without EDMM, one slot and one yet to be created: the first ordinary ecall gets its slot, and then
      follows the null pointer. */
  method UtilityCanBeNull() returns (r: Option<Slot>, nullPointer: bool)
    ensures r.Some? && nullPointer
  {
    hide AccountsOk, Values, IsList, UniqueKeys;
    var slots: seq<(Slot, bool)> := [(7, false), (8, true)];
    var pool := Build(true, 0, slots, false);
    assert slots[0] == (7, false) && slots[1] == (8, true);
    r, nullPointer := pool.AcquireThread(Ordinary, 1, {}, Pace(Gap(0, 0), 0, Gap(0, 0)));
  }
}
