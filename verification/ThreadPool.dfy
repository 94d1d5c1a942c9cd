/** `CTrustThreadPool`: the free vector, the linked list of bindings from OS threads to slots, the
    slots not yet created, the utility slot and the reference counts, with the operations that every
    ecall goes through. Each method is one critical section under `m_thread_mutex`, or one of the
    filler's. */
module ThreadPool {
  import opened Common
  import opened NodeList
  import opened SlotAccounts

  datatype Command = InitEnclave | UninitEnclave | Ordinary

  /** How many slots the filler may create while an acquirer holds `m_thread_mutex`: between its look at
      the free vector and the collection, between the collection and the taking of a slot. */
  datatype Gap = Gap(collecting: nat, taking: nat)

  /** The same for a whole acquisition, with its wait for the filler and the second attempt. */
  datatype Pace = Pace(first: Gap, waiting: nat, second: Gap)

  class TrustThreadPool {
    const bindMode: bool
    const minPool: nat
    var head: Node?<ThreadId, Slot>
    ghost var spine: seq<Binding>
    var free: seq<Slot>
    var unallocated: seq<Slot>
    var utility: Option<Slot>
    var refs: map<Slot, nat>
    var waitForNewThread: bool
    ghost var held: multiset<Slot>
    ghost var known: set<Slot>

    ghost predicate ListOk()
      reads this, spine
    {
      IsList(head, spine) && UniqueKeys(spine)
    }

    ghost function Books(): Accounts
      reads this
    {
      Accounts(free, multiset(Values(spine)), unallocated, utility, held, refs, known)
    }

    ghost predicate Valid()
      reads this, spine
    {
      ListOk() && AccountsOk(Books())
    }

    /** The bindings of slots in use: no operation may take them from their threads. */
    ghost function Busy(): set<Binding>
      reads this
    {
      BusyIn(spine, refs)
    }

    constructor (bindMode: bool, minPool: nat)
      ensures Valid() && known == {} && spine == [] && utility == None && held == multiset{}
      ensures free == [] && unallocated == [] && refs == map[] && this.bindMode == bindMode && this.minPool == minPool
    {
      this.bindMode, this.minPool := bindMode, minPool;
      head, spine, free, unallocated, utility, refs, waitForNewThread := null, [], [], [], None, map[], false;
      held, known := multiset{}, {};
    }

    /** `add_thread`: `dynamic` says that the enclave has dynamic threads and EDMM; then the first
        allocated slot becomes the utility slot. */
    method AddThread(s: Slot, isUnallocated: bool, dynamic: bool)
      requires Valid() && s !in known
      modifies this
      ensures Valid() && known == old(known) + {s} && spine == old(spine) && head == old(head) && held == old(held)
      ensures refs == old(refs)[s := 0]
      ensures
        if isUnallocated then
          unallocated == old(unallocated) + [s] && free == old(free) && utility == old(utility)
              else if dynamic && old(utility) == None then
                utility == Some(s) && free == old(free) && unallocated == old(unallocated)
              else free == old(free) + [s] && unallocated == old(unallocated) && utility == old(utility)
    {
      hide AccountsOk;
      if isUnallocated {
        unallocated := unallocated + [s];
      } else if dynamic && utility == None {
        utility := Some(s);
      } else {
        free := free + [s];
      }
      refs := refs[s := 0];
      known := known + {s};
      Adds(old(Books()), Books(), s);
    }

    /** `get_free_thread`; the caller puts the slot somewhere. */
    method GetFreeThread() returns (r: Option<Slot>)
      modifies this`free
      ensures old(free) == [] ==> r == None && free == []
      ensures old(free) != [] ==> r == Some(old(free)[|old(free)| - 1]) && free == old(free)[..|old(free)| - 1]
    {
      if free == [] { return None; }
      r := Some(free[|free| - 1]);
      free := free[..|free| - 1];
    }

    /** `bind_thread`: refused exactly when the thread has a binding. */
    method BindThread(t: ThreadId, s: Slot) returns (ok: bool)
      requires ListOk()
      modifies this`head, this`spine, spine
      ensures ListOk()
      ensures ok <==> !HasKey(old(spine), t)
      ensures ok ==> Bound(spine, t, s) && multiset(Values(spine)) == multiset(Values(old(spine))) + multiset{s}
      ensures forall n :: n in old(spine) ==> n in spine
      ensures forall n :: n in spine ==> n in old(spine) || fresh(n)
      ensures !ok ==> spine == old(spine)
    {
      var p := new Node(t, s);
      if head == null {
        head, spine := p, [p];
        ValuesOne(p);
        assert Values(old(spine)) == [] && spine[0] == p;
        return true;
      }
      ghost var after;
      ok, after := InsertNext(head, p, spine);
      if ok {
        ValuesInsert(spine, p);
        spine := after;
        assert spine[1] == p;
      }
    }

    /** `get_bound_thread`. */
    method GetBoundThread(t: ThreadId) returns (r: Option<Slot>)
      requires ListOk()
      ensures r == None <==> !HasKey(spine, t)
      ensures r.Some? ==> Bound(spine, t, r.value)
    {
      var c := Find(head, t, spine);
      return if c == null then None else Some(c.value);
    }

    /** `unbind_thread`: the thread's slot, if any, goes back to the free vector. */
    method UnbindThread(t: ThreadId)
      requires Valid()
      modifies this`head, this`spine, this`free, this`refs, spine
      ensures Valid() && !HasKey(spine, t)
      ensures !HasKey(old(spine), t) ==> spine == old(spine) && free == old(free) && refs == old(refs)
      ensures forall s :: Bound(old(spine), t, s) ==> free == old(free) + [s] && refs == old(refs)[s := 0]
      ensures forall n :: n in old(spine) && n.key != t ==> n in spine
      ensures forall n :: n in spine ==> n in old(spine)
    {
      hide AccountsOk, Values, UniqueKeys, IsList;
      ghost var after;
      var c;
      head, c, after := Detach(head, t, spine);
      if c != null {
        UnbindBooks(old(Books()), spine, after, c);
        OnlySlot(spine, c);
        refs := refs[c.value := 0];
        free := free + [c.value];
      } else {
        NoKey(spine, t);
      }
      spine := after;
    }

    /** Both `garbage_collect` versions: in bind mode the threads that have exited give up their
        slots, in unbind mode all do; a slot in use is never taken. */
    method GarbageCollect(live: set<ThreadId>) returns (freed: nat)
      requires Valid()
      modifies this`head, this`spine, this`free, spine
      ensures Valid()
      ensures var drop := Droppable(bindMode, live, old(refs));
        && spine == Kept(old(spine), drop)
        && free == old(free) + Dropped(old(spine), drop)
        && freed == |Dropped(old(spine), drop)|
      ensures Busy() == old(Busy()) && forall n :: n in spine ==> n in old(spine)
      ensures freed == 0 ==> spine == old(spine)
    {
      hide AccountsOk, Kept, Dropped, UniqueKeys, IsList, BusyIn, Values, Droppable;
      var drop := Droppable(bindMode, live, refs);
      CollectBooks(Books(), spine, bindMode, live);
      head, free, freed := Collect(head, drop, free, spine);
      spine := Kept(spine, drop);
    }

    /** `_acquire_thread`: the thread's own slot, or a free one, or a collected one, bound to it. It
        fails only if there was none. The collector's promise and the binding hold, whatever the
        filler does meanwhile. */
    method AcquireOrBind(t: ThreadId, live: set<ThreadId>, gap: Gap) returns (r: Option<Slot>)
      requires Valid()
      modifies this`head, this`spine, this`free, this`unallocated, this`waitForNewThread, spine
      ensures Valid() && old(Busy()) <= Busy()
      ensures forall n :: n in spine ==> n in old(spine) || fresh(n)
      ensures r.Some? ==> Bound(spine, t, r.value) && utility != r
      ensures HasKey(old(spine), t) ==> r.Some? && spine == old(spine) && free == old(free)
      ensures !HasKey(old(spine), t) && old(free) != [] ==>
        r == Some(old(free)[|old(free)| - 1]) && free == old(free)[..|old(free)| - 1]
      ensures HasKey(old(spine), t) || old(free) != [] || utility == None ==> unallocated == old(unallocated)
      ensures |unallocated| <= |old(unallocated)|
      ensures r.Some? && !HasKey(old(spine), t) ==> r.value in refs && refs[r.value] == 0
      ensures r == None ==> spine == old(spine) && old(free) == [] && |free| <= gap.collecting && !HasKey(spine, t)
      ensures r == None && utility == None ==> free == []
    {
      hide AccountsOk, UniqueKeys, IsList, Values, BusyIn;
      r := GetBoundThread(t);
      if r.Some? { BoundIsNotUtility(Books(), spine, t, r.value); }
      if r.Some? && utility != r { return r; }
      if free == [] {
        var usable := CollectSome(live, gap);
        if !usable { return None; }
        StillNoKey(old(spine), spine, t);
      }
      assert forall i :: 0 <= i < |spine| ==> spine[i] in old(spine);
      r := TakeAndBind(t);
    }

    /** The collector's part of an attempt, with the filler around it. */
    method CollectSome(live: set<ThreadId>, gap: Gap) returns (usable: bool)
      requires Valid() && free == []
      modifies this`head, this`spine, this`free, this`unallocated, this`waitForNewThread, spine
      ensures Valid() && Busy() == old(Busy()) && forall n :: n in spine ==> n in old(spine)
      ensures |unallocated| <= |old(unallocated)| && (utility == None ==> unallocated == old(unallocated))
      ensures usable ==> free != []
      ensures !usable ==> spine == old(spine) && |free| <= gap.collecting && (utility == None ==> free == [])
    {
      hide AccountsOk, Kept, Dropped, UniqueKeys, IsList, Values, Droppable, BusyIn;
      FillerRuns(gap.collecting);
      var freed := GarbageCollect(live);
      usable := freed > 0;
      if usable {
        assert forall i :: 0 <= i < |spine| ==> spine[i] in old(spine);
        FillerRuns(gap.taking);
      }
    }

    /** A free slot is taken and bound to a thread without a binding. */
    method TakeAndBind(t: ThreadId) returns (r: Option<Slot>)
      requires Valid() && free != [] && !HasKey(spine, t)
      modifies this`head, this`spine, this`free, spine
      ensures Valid() && old(Busy()) <= Busy()
      ensures forall n :: n in spine ==> n in old(spine) || fresh(n)
      ensures r == Some(old(free)[|old(free)| - 1]) && free == old(free)[..|old(free)| - 1]
      ensures Bound(spine, t, r.value) && utility != r && r.value in refs && refs[r.value] == 0
    {
      hide AccountsOk, UniqueKeys, IsList, Values;
      Takes(Books());
      r := GetFreeThread();
      var ok := BindThread(t, r.value);
      assert ok;
      BoundIsNotUtility(Books(), spine, t, r.value);
      BusyGrows(old(spine), spine, refs);
    }

    /** The filler creates up to `n` slots, as long as they are needed; it exists only beside a utility
        slot. */
    method FillerRuns(n: nat)
      requires Valid()
      modifies this`free, this`unallocated, this`waitForNewThread
      ensures Valid() && |free| - |old(free)| == |old(unallocated)| - |unallocated| <= n
      ensures |unallocated| <= |old(unallocated)|
      ensures utility == None ==> free == old(free) && unallocated == old(unallocated)
    {
      hide AccountsOk, IsList, UniqueKeys, Moved;
      if utility.Some? {
        var ok := FillMiniPool(n);
        MovedCount(old(free), old(unallocated), free, unallocated);
      }
    }

    /** `need_to_new_thread`. */
    predicate NeedNewThread()
      reads this
    {
      unallocated != [] && if minPool == 0 then |free| == 0 else |free| < minPool
    }

    /** `new_thread`: `creates` is the outcome of the MKTCS ecall. */
    method NewThread(creates: bool) returns (ok: bool)
      requires Valid()
      modifies this`free, this`unallocated
      ensures Valid()
      ensures ok == (utility.Some? && (old(unallocated) == [] || creates))
      ensures ok && old(unallocated) != [] ==>
        && free == old(free) + [old(unallocated)[|old(unallocated)| - 1]]
        && unallocated == old(unallocated)[..|old(unallocated)| - 1]
      ensures !ok || old(unallocated) == [] ==> free == old(free) && unallocated == old(unallocated)
    {
      hide AccountsOk, IsList, UniqueKeys;
      if utility == None { return false; }
      if unallocated == [] { return true; }
      if !creates { return false; }
      Mints(Books());
      free := free + [unallocated[|unallocated| - 1]];
      unallocated := unallocated[..|unallocated| - 1];
      return true;
    }

    /** `fill_tcs_mini_pool`: creates slots until the pool is full enough or there are no more;
        `budget` creations succeed. The slots it moves are exactly the ones it creates, the last
        first, and the wait flag is clear in the end. */
    method FillMiniPool(budget: nat) returns (ok: bool)
      requires Valid()
      modifies this`free, this`unallocated, this`waitForNewThread
      ensures Valid() && !waitForNewThread
      ensures |unallocated| <= |old(unallocated)| && Moved(old(free), old(unallocated), free, unallocated)
      ensures |old(unallocated)| - |unallocated| <= budget
      ensures ok ==> unallocated == [] || |free| >= if minPool == 0 then 1 else minPool
      ensures !ok ==> NeedNewThread() && (utility == None || |old(unallocated)| - |unallocated| == budget)
    {
      hide AccountsOk, IsList, UniqueKeys, Moved;
      ok := true;
      var stop := false;
      var left := budget;
      ghost var u0, f0 := unallocated, free;
      NothingMoved(free, unallocated);
      while !stop
        invariant Valid() && |unallocated| <= |u0| && Moved(f0, u0, free, unallocated)
        invariant budget - left == |u0| - |unallocated|
        invariant !stop ==> ok
        invariant stop ==> !waitForNewThread
        invariant stop ==> ok == !NeedNewThread()
        invariant !ok ==> utility == None || left == 0
        decreases |unallocated|, !stop
      {
        if NeedNewThread() {
          OneMoved(f0, u0, free, unallocated);
          ok := NewThread(left > 0);
          if ok { left := left - 1; } else { stop := true; }
        } else {
          stop := true;
        }
        if waitForNewThread { waitForNewThread := false; }
      }
    }

    /** `increase_ref`, `decrease_ref` and `reset_ref` on a slot that can be in use. */
    method SetRef(s: Slot, n: nat)
      requires Valid() && (s in multiset(Values(spine)) || utility == Some(s))
      modifies this`refs
      ensures Valid() && s in old(refs) && refs == old(refs)[s := n]
    {
      hide AccountsOk, IsList, UniqueKeys, Values;
      Counts(Books(), s, n);
      refs := refs[s := n];
    }

    /** The un-init ecall: the calling thread gives up its slot for the utility slot. */
    method BindUtility(t: ThreadId) returns (r: Slot)
      requires Valid() && utility.Some?
      modifies this`head, this`spine, this`free, this`refs, this`utility, spine
      ensures Valid() && utility == None && Some(r) == old(utility) && Bound(spine, t, r)
      ensures forall n :: n in old(spine) && n.key != t ==> n in spine
      ensures forall n :: n in spine ==> n in old(spine) || fresh(n)
    {
      hide AccountsOk, IsList, UniqueKeys, Values;
      r := utility.value;
      UnbindThread(t);
      UtilityBinds(Books());
      var ok := BindThread(t, r);
      utility := None;
    }

    /** The first part of `acquire_thread` for an ordinary ecall: a starved thread waits for the filler
        and tries again. */
    method AcquireOrdinary(t: ThreadId, live: set<ThreadId>, pace: Pace) returns (r: Option<Slot>)
      requires Valid()
      modifies this`head, this`spine, this`free, this`unallocated, this`waitForNewThread, spine
      ensures Valid() && old(Busy()) <= Busy()
      ensures forall n :: n in spine ==> n in old(spine) || fresh(n)
      ensures r.Some? ==> Bound(spine, t, r.value) && utility != r
      ensures r == None ==> !HasKey(spine, t) && |free| <= pace.second.collecting && (utility == None ==> free == [])
      ensures HasKey(old(spine), t) ==> r.Some? && free == old(free) && unallocated == old(unallocated)
      ensures !HasKey(old(spine), t) && old(free) != [] ==>
        r == Some(old(free)[|old(free)| - 1]) && free == old(free)[..|old(free)| - 1] && unallocated == old(unallocated)
      ensures |unallocated| <= |old(unallocated)| && (utility == None ==> unallocated == old(unallocated))
    {
      hide AccountsOk, IsList, UniqueKeys, Values, BusyIn;
      r := AcquireOrBind(t, live, pace.first);
      if r == None && utility.Some? {
        waitForNewThread := true;
        FillerRuns(pace.waiting);
        r := AcquireOrBind(t, live, pace.second);
      }
    }

    /** Slots that are not yet created come with a utility slot to create them. */
    predicate Ready()
      reads this
    {
      unallocated == [] || utility.Some?
    }

    /** `acquire_thread`. Unless the enclave is being un-initialised, a slot in use stays with its
        thread, and the slot handed out is bound to the calling thread, or is the utility slot for the
        init ecall. The announcement at the end follows the utility pointer without a test. */
    method AcquireThread(cmd: Command, t: ThreadId, live: set<ThreadId>, pace: Pace)
      returns (r: Option<Slot>, nullPointer: bool)
      requires Valid()
      modifies this, spine
      ensures Valid() && known == old(known) && held == old(held)
      ensures forall n :: n in spine ==> n in old(spine) || fresh(n)
      ensures cmd != UninitEnclave ==> old(Busy()) <= Busy() && utility == old(utility)
      ensures nullPointer <==> cmd == Ordinary && utility == None && NeedNewThread()
      ensures |unallocated| <= |old(unallocated)| && (old(utility) == None ==> unallocated == old(unallocated))
      ensures cmd == Ordinary && !HasKey(old(spine), t) && old(free) != [] ==>
        r == Some(old(free)[|old(free)| - 1]) && free == old(free)[..|old(free)| - 1]
      ensures r.Some? ==> r.value in refs && refs[r.value] > 0
      ensures cmd != UninitEnclave ==>
        if r.Some? then r.value in old(refs) && refs == old(refs)[r.value := old(refs)[r.value] + 1]
        else refs == old(refs)
      ensures if cmd == InitEnclave && old(utility).Some? then r == old(utility)
              else if cmd == UninitEnclave && old(utility).Some? then
                r == old(utility) && utility == None && Bound(spine, t, r.value)
              else if r.Some? then Bound(spine, t, r.value) && utility != r
              else !HasKey(spine, t) && |free| <= pace.second.collecting && (utility == None ==> free == [])
    {
      hide AccountsOk, IsList, UniqueKeys, Values, Moved, BusyIn;
      if cmd != Ordinary && utility.Some? {
        r := utility;
        if cmd == UninitEnclave {
          var u := BindUtility(t);
        }
      } else if cmd == Ordinary {
        r := AcquireOrdinary(t, live, pace);
      } else {
        r := AcquireOrBind(t, live, pace.first);
      }
      if r.Some? {
        if utility != r { BoundIsIn(spine, t, r.value); }
        Counts(Books(), r.value, 0);
        BusyCounts(spine, refs, r.value);
        SetRef(r.value, refs[r.value] + 1);
      }
      nullPointer := cmd == Ordinary && NeedNewThread() && utility == None;
    }

    /** `acquire_free_thread`: a slot for a thread yet to be created. */
    method AcquireFreeThread(live: set<ThreadId>, pace: Pace) returns (r: Option<Slot>)
      requires Valid()
      modifies this`head, this`spine, this`free, this`unallocated, this`waitForNewThread, this`held, spine
      ensures Valid() && old(Busy()) <= Busy()
      ensures forall n :: n in spine ==> n in old(spine)
      ensures r.Some? ==> r.value in refs && refs[r.value] == 0 && held == old(held) + multiset{r.value}
      ensures r == None ==> held == old(held) && |free| <= pace.second.collecting && (utility == None ==> free == [])
      ensures |unallocated| <= |old(unallocated)|
    {
      hide AccountsOk, IsList, UniqueKeys, Values, Moved, Kept, Dropped, Droppable, BusyIn, AsMultiset;
      hide NeedNewThread, HasKey, Bound;
      var usable := ReplenishOrFill(live, pace);
      if !usable { return None; }
      Takes(Books());
      r := GetFreeThread();
      held := held + multiset{r.value};
    }

    /** A free slot, with the help of the filler if need be. */
    method ReplenishOrFill(live: set<ThreadId>, pace: Pace) returns (usable: bool)
      requires Valid()
      modifies this`head, this`spine, this`free, this`unallocated, this`waitForNewThread, spine
      ensures Valid() && old(Busy()) <= Busy() && (usable ==> free != [])
      ensures !usable ==> |free| <= pace.second.collecting && (utility == None ==> free == [])
      ensures forall n :: n in spine ==> n in old(spine)
      ensures |unallocated| <= |old(unallocated)|
    {
      hide AccountsOk, IsList, UniqueKeys, Values, BusyIn;
      usable := free != [];
      if !usable { usable := CollectSome(live, pace.first); }
      if !usable && utility.Some? {
        assert forall i :: 0 <= i < |spine| ==> spine[i] in old(spine);
        waitForNewThread := true;
        FillerRuns(pace.waiting);
        usable := free != [];
        if !usable { usable := CollectSome(live, pace.second); }
      }
    }

    /** `bind_pthread`: the new thread takes over the slot held for it. */
    method BindPthread(t: ThreadId, s: Slot) returns (ok: bool)
      requires Valid() && s in held
      modifies this`head, this`spine, this`held, spine
      ensures Valid() && (ok <==> !HasKey(old(spine), t)) && forall n :: n in old(spine) ==> n in spine
      ensures forall n :: n in spine ==> n in old(spine) || fresh(n)
      ensures ok ==> Bound(spine, t, s) && held == old(held) - multiset{s}
      ensures !ok ==> held == old(held) && spine == old(spine)
    {
      hide AccountsOk, IsList, UniqueKeys, Values, HasKey, Bound, AsMultiset, BusyIn;
      HeldBinds(Books(), s);
      ok := BindThread(t, s);
      if !ok { return; }
      held := held - multiset{s};
    }

    /** `reset`: every binding is given up, in list order. */
    method Reset()
      requires Valid()
      modifies this`head, this`spine, this`free, this`refs
      ensures Valid() && spine == [] && free == old(free) + Values(old(spine))
      ensures forall s :: s in refs && s in Values(old(spine)) ==> refs[s] == 0
    {
      hide AccountsOk, Values, Resetting;
      var it := head;
      ghost var i := 0;
      ResetStarts(Books(), spine);
      while it != null
        invariant spine == old(spine) && head == old(head)
        invariant i <= |spine| && it == NodeAt(spine, i)
        invariant Resetting(Books(), old(free), spine, i)
        decreases |spine| - i
      {
        ResetStep(Books(), old(free), spine, i);
        var tmp := it;
        it := it.next;
        refs := refs[tmp.value := 0];
        free := free + [tmp.value];
        i := i + 1;
      }
      assert i == |spine|;
      ResetEnds(Books(), old(free), spine);
      head, spine := null, [];
    }
  }

  /** Half way through `reset`: the first `i` bindings are given up. */
  ghost predicate Resetting(a: Accounts, free: seq<Slot>, nodes: seq<Binding>, i: nat) {
    && i <= |nodes|
    && AccountsOk(a.(bound := multiset(Values(nodes[i..]))))
    && a.free == free + Values(nodes[..i])
    && forall s :: s in Values(nodes[..i]) ==> s in a.refs && a.refs[s] == 0
  }

  lemma {:induction false} ResetStarts(a: Accounts, nodes: seq<Binding>)
    requires AccountsOk(a) && a.bound == multiset(Values(nodes))
    ensures Resetting(a, a.free, nodes, 0)
  {
    assert nodes[0..] == nodes;
    assert a.(bound := multiset(Values(nodes[0..]))) == a;
    assert Values(nodes[..0]) == [];
    assert a.free + [] == a.free;
  }

  lemma {:induction false} ResetStep(a: Accounts, free: seq<Slot>, nodes: seq<Binding>, i: nat)
    requires i < |nodes| && Resetting(a, free, nodes, i)
    ensures var s := nodes[i].value;
      Resetting(a.(free := a.free + [s], refs := a.refs[s := 0]), free, nodes, i + 1)
  {
    var s := nodes[i].value;
    GiveUp(a, nodes, i);
    FirstValues(nodes, i);
    hide AccountsOk, Values;
    var b := a.(free := a.free + [s], refs := a.refs[s := 0]);
    assert b.(bound := multiset(Values(nodes[i + 1..]))) ==
      a.(bound := multiset(Values(nodes[i + 1..])), free := a.free + [s], refs := a.refs[s := 0]);
    assert free + (Values(nodes[..i]) + [s]) == free + Values(nodes[..i]) + [s];
  }

  lemma {:induction false} FirstValues(nodes: seq<Binding>, i: nat)
    requires i < |nodes|
    ensures Values(nodes[..i + 1]) == Values(nodes[..i]) + [nodes[i].value]
  {
    assert nodes[..i + 1] == nodes[..i] + [nodes[i]];
    ValuesOne(nodes[i]);
    ValuesAppend(nodes[..i], [nodes[i]]);
  }

  lemma {:induction false} GiveUp(a: Accounts, nodes: seq<Binding>, i: nat)
    requires i < |nodes| && AccountsOk(a.(bound := multiset(Values(nodes[i..]))))
    ensures var s := nodes[i].value;
      AccountsOk(a.(bound := multiset(Values(nodes[i + 1..])), free := a.free + [s], refs := a.refs[s := 0]))
  {
    assert nodes[i..] == [nodes[i]] + nodes[i + 1..];
    ValuesOne(nodes[i]);
    ValuesAppend([nodes[i]], nodes[i + 1..]);
    hide AccountsOk, Values;
    Releases(a.(bound := multiset(Values(nodes[i..]))), multiset(Values(nodes[i + 1..])), nodes[i].value);
  }

  lemma {:induction false} ResetEnds(a: Accounts, free: seq<Slot>, nodes: seq<Binding>)
    requires Resetting(a, free, nodes, |nodes|)
    ensures AccountsOk(a.(bound := multiset(Values([]))))
    ensures a.free == free + Values(nodes) && forall s :: s in Values(nodes) ==> s in a.refs && a.refs[s] == 0
  {
    assert nodes[..|nodes|] == nodes && nodes[|nodes|..] == [];
  }

  /** `u` and `f` are what is left of `u0` and `f0` after the last slots of `u0` were moved, one by
      one. */
  ghost predicate Moved(f0: seq<Slot>, u0: seq<Slot>, f: seq<Slot>, u: seq<Slot>)
    requires |u| <= |u0|
  {
    var k := |u0| - |u|;
    u == u0[..|u|] && f == f0 + seq(k, i requires 0 <= i < k => u0[|u0| - 1 - i])
  }

  lemma {:induction false} MovedCount(f0: seq<Slot>, u0: seq<Slot>, f: seq<Slot>, u: seq<Slot>)
    requires |u| <= |u0| && Moved(f0, u0, f, u)
    ensures |f| - |f0| == |u0| - |u|
  {
  }

  lemma {:induction false} NothingMoved(f: seq<Slot>, u: seq<Slot>)
    ensures Moved(f, u, f, u)
  {
  }

  lemma {:induction false} OneMoved(f0: seq<Slot>, u0: seq<Slot>, f: seq<Slot>, u: seq<Slot>)
    requires |u| <= |u0| && u != [] && Moved(f0, u0, f, u)
    ensures Moved(f0, u0, f + [u[|u| - 1]], u[..|u| - 1])
  {
    var k := |u0| - |u|;
    assert u[..|u| - 1] == u0[..|u| - 1];
    assert u[|u| - 1] == u0[|u0| - 1 - k];
    assert seq(k + 1, i requires 0 <= i < k + 1 => u0[|u0| - 1 - i]) ==
      seq(k, i requires 0 <= i < k => u0[|u0| - 1 - i]) + [u[|u| - 1]];
  }

  lemma {:induction false} BoundIsIn(nodes: seq<Binding>, t: ThreadId, s: Slot)
    requires Bound(nodes, t, s)
    ensures s in multiset(Values(nodes))
  {
    var i :| 0 <= i < |nodes| && nodes[i].key == t && nodes[i].value == s;
    assert Values(nodes)[i] == s;
  }

  /** The utility slot is never bound. */
  lemma {:induction false} BoundIsNotUtility(a: Accounts, nodes: seq<Binding>, t: ThreadId, s: Slot)
    requires AccountsOk(a) && a.bound == multiset(Values(nodes)) && Bound(nodes, t, s)
    ensures a.utility != Some(s)
  {
    hide AccountsOk, Values;
    BoundIsIn(nodes, t, s);
    InOnePlace(a, s);
  }

  /** A slot is bound to one thread only. */
  lemma {:induction false} OneOwner(a: Accounts, nodes: seq<Binding>, t: ThreadId, t': ThreadId, s: Slot)
    requires AccountsOk(a) && a.bound == multiset(Values(nodes)) && Bound(nodes, t, s) && Bound(nodes, t', s)
    ensures t == t'
  {
    var i :| 0 <= i < |nodes| && nodes[i].key == t && nodes[i].value == s;
    var j :| 0 <= j < |nodes| && nodes[j].key == t' && nodes[j].value == s;
    hide AccountsOk;
    InOnePlace(a, s);
    if i < j { Twice(nodes, i, j); } else if j < i { Twice(nodes, j, i); }
  }

  lemma {:induction false} Twice(nodes: seq<Binding>, i: nat, j: nat)
    requires i < j < |nodes| && nodes[i].value == nodes[j].value
    ensures multiset(Values(nodes))[nodes[i].value] >= 2
  {
    ValuesWithout(nodes, i);
    assert Values(nodes[..i] + nodes[i + 1..])[j - 1] == nodes[j].value;
  }

  lemma {:induction false} StillNoKey(was: seq<Binding>, now: seq<Binding>, t: ThreadId)
    requires !HasKey(was, t) && forall n :: n in now ==> n in was
    ensures !HasKey(now, t)
  {
    forall i | 0 <= i < |now| ensures now[i].key != t {
      assert now[i] in was;
    }
  }

  lemma {:induction false} BusyGrows(was: seq<Binding>, now: seq<Binding>, refs: map<Slot, nat>)
    requires forall n :: n in was ==> n in now
    ensures BusyIn(was, refs) <= BusyIn(now, refs)
  {
  }

  lemma {:induction false} BusyCounts(nodes: seq<Binding>, refs: map<Slot, nat>, s: Slot)
    requires s in refs
    ensures BusyIn(nodes, refs) <= BusyIn(nodes, refs[s := refs[s] + 1])
  {
  }

  ghost function BusyIn(nodes: seq<Binding>, refs: map<Slot, nat>): set<Binding> {
    set n | n in nodes && n.value in refs && refs[n.value] > 0
  }

  /** What a collector drops: in bind mode the thread has to be gone. */
  function Droppable(bindMode: bool, live: set<ThreadId>, refs: map<Slot, nat>): (ThreadId, Slot) -> bool {
    (t: ThreadId, s: Slot) => (bindMode ==> t !in live) && s in refs && refs[s] == 0
  }

  /** A collection on the books: every slot stays accounted for, keys stay unique, busy bindings
      stay. */
  lemma {:induction false} CollectBooks(a: Accounts, nodes: seq<Binding>, bindMode: bool, live: set<ThreadId>)
    requires AccountsOk(a) && a.bound == multiset(Values(nodes)) && UniqueKeys(nodes)
    ensures var drop := Droppable(bindMode, live, a.refs);
      && AccountsOk(a.(free := a.free + Dropped(nodes, drop), bound := multiset(Values(Kept(nodes, drop)))))
      && UniqueKeys(Kept(nodes, drop))
      && BusyIn(Kept(nodes, drop), a.refs) == BusyIn(nodes, a.refs)
      && (|Dropped(nodes, drop)| == 0 ==> Kept(nodes, drop) == nodes)
  {
    var drop := Droppable(bindMode, live, a.refs);
    hide AccountsOk, UniqueKeys, Kept, Dropped, Values;
    CollectConserves(nodes, drop);
    KeptUnique(nodes, drop);
    forall s | s in Dropped(nodes, drop) ensures s in a.refs && a.refs[s] == 0 {
      var b := DroppedIn(nodes, drop, s);
    }
    Collects(a, multiset(Values(Kept(nodes, drop))), Dropped(nodes, drop));
    forall n | n in nodes && n.value in a.refs && a.refs[n.value] > 0 ensures n in Kept(nodes, drop) {
      KeptIn(nodes, drop, n);
    }
    if |Dropped(nodes, drop)| == 0 { NoneDropped(nodes, drop); }
  }

  /** An unbinding on the books. */
  lemma {:induction false} UnbindBooks(a: Accounts, nodes: seq<Binding>, after: seq<Binding>, c: Binding)
    requires AccountsOk(a) && a.bound == multiset(Values(nodes)) && UniqueKeys(nodes)
    requires exists at :: 0 <= at < |nodes| && nodes[at] == c && after == nodes[..at] + nodes[at + 1..]
    ensures AccountsOk(a.(free := a.free + [c.value], bound := multiset(Values(after)), refs := a.refs[c.value := 0]))
    ensures forall n :: n in nodes && n.key != c.key ==> n in after
    ensures forall n :: n in after ==> n in nodes
  {
    hide AccountsOk, Values;
    var at :| 0 <= at < |nodes| && nodes[at] == c && after == nodes[..at] + nodes[at + 1..];
    ValuesWithout(nodes, at);
    Releases(a, multiset(Values(after)), c.value);
    OthersStay(nodes, at);
  }

  /** A thread has one slot. */
  lemma {:induction false} OnlySlot(nodes: seq<Binding>, c: Binding)
    requires UniqueKeys(nodes) && c in nodes
    ensures forall s :: Bound(nodes, c.key, s) ==> s == c.value
  {
    var i :| 0 <= i < |nodes| && nodes[i] == c;
    forall s | Bound(nodes, c.key, s) ensures s == c.value {
      var j :| 0 <= j < |nodes| && nodes[j].key == c.key && nodes[j].value == s;
    }
  }

  lemma {:induction false} NoKey(nodes: seq<Binding>, t: ThreadId)
    requires !HasKey(nodes, t)
    ensures forall n :: n in nodes ==> n.key != t
  {
  }

  lemma {:induction false} OthersStay(nodes: seq<Binding>, at: nat)
    requires at < |nodes| && UniqueKeys(nodes)
    ensures forall n :: n in nodes && n.key != nodes[at].key ==> n in nodes[..at] + nodes[at + 1..]
  {
    forall n | n in nodes && n.key != nodes[at].key ensures n in nodes[..at] + nodes[at + 1..] {
      var i :| 0 <= i < |nodes| && nodes[i] == n;
      if i < at { assert nodes[..at][i] == n; } else { assert nodes[at + 1..][i - at - 1] == n; }
    }
  }
}
