/** Book-keeping for the trust thread pool of an enclave (`tcs.cpp`): where each slot is, what a
    collection does to the list of bindings, and which moves keep the books right. */
module SlotAccounts {
  import opened Common
  import opened NodeList

  type Slot = nat
  type ThreadId = nat
  type Binding = Node<ThreadId, Slot>

  // ----- the slots of a list of bindings -----

  function Values(nodes: seq<Binding>): seq<Slot> {
    seq(|nodes|, i requires 0 <= i < |nodes| => nodes[i].value)
  }

  ghost predicate Bound(nodes: seq<Binding>, t: ThreadId, s: Slot) {
    exists i :: 0 <= i < |nodes| && nodes[i].key == t && nodes[i].value == s
  }

  lemma {:induction false} ValuesAppend(a: seq<Binding>, b: seq<Binding>)
    ensures Values(a + b) == Values(a) + Values(b)
  {
  }

  lemma {:induction false} ValuesInsert(nodes: seq<Binding>, p: Binding)
    requires nodes != []
    ensures multiset(Values([nodes[0], p] + nodes[1..])) == multiset(Values(nodes)) + multiset{p.value}
  {
    ValuesAppend([nodes[0], p], nodes[1..]);
    ValuesAppend([nodes[0]], nodes[1..]);
    assert [nodes[0]] + nodes[1..] == nodes;
    assert Values([nodes[0], p]) == [nodes[0].value, p.value] && Values([nodes[0]]) == [nodes[0].value];
  }

  lemma {:induction false} ValuesWithout(nodes: seq<Binding>, at: nat)
    requires at < |nodes|
    ensures multiset(Values(nodes)) == multiset(Values(nodes[..at] + nodes[at + 1..])) + multiset{nodes[at].value}
  {
    ValuesAppend(nodes[..at], nodes[at + 1..]);
    ValuesAppend(nodes[..at], [nodes[at]] + nodes[at + 1..]);
    ValuesAppend([nodes[at]], nodes[at + 1..]);
    assert nodes[..at] + ([nodes[at]] + nodes[at + 1..]) == nodes;
    assert Values([nodes[at]]) == [nodes[at].value];
  }

  lemma {:induction false} Snoc(nodes: seq<Binding>, drop: (ThreadId, Slot) -> bool)
    returns (init: seq<Binding>, n: Binding)
    requires nodes != []
    ensures nodes == init + [n] && |init| < |nodes|
    ensures Kept(nodes, drop) == if drop(n.key, n.value) then Kept(init, drop) else Kept(init, drop) + [n]
    ensures Dropped(nodes, drop) ==
      if drop(n.key, n.value) then Dropped(init, drop) + [n.value] else Dropped(init, drop)
  {
    init, n := nodes[..|nodes| - 1], nodes[|nodes| - 1];
  }

  lemma {:induction false} ValuesOne(n: Binding)
    ensures Values([n]) == [n.value]
  {
  }

  /** A collection loses nothing: what it drops and what it keeps make up the list. */
  lemma {:induction false} CollectConserves(nodes: seq<Binding>, drop: (ThreadId, Slot) -> bool)
    ensures multiset(Values(Kept(nodes, drop))) + multiset(Dropped(nodes, drop)) == multiset(Values(nodes))
  {
    if nodes == [] {
      assert Values(nodes) == [] && Values(Kept(nodes, drop)) == [];
    } else {
      var init, n := Snoc(nodes, drop);
      CollectConserves(init, drop);
      ValuesOne(n);
      ValuesAppend(init, [n]);
      ValuesAppend(Kept(init, drop), [n]);
      hide *;
    }
  }

  /** The bindings that are not to be dropped stay. */
  lemma {:induction false} KeptIn(nodes: seq<Binding>, drop: (ThreadId, Slot) -> bool, b: Binding)
    requires b in nodes && !drop(b.key, b.value)
    ensures b in Kept(nodes, drop)
  {
    var init, n := Snoc(nodes, drop);
    if b in init { KeptIn(init, drop, b); }
  }

  /** Only slots that are to be dropped go. */
  lemma {:induction false} DroppedIn(nodes: seq<Binding>, drop: (ThreadId, Slot) -> bool, s: Slot) returns (b: Binding)
    requires s in Dropped(nodes, drop)
    ensures b in nodes && b.value == s && drop(b.key, s)
  {
    var init, n := Snoc(nodes, drop);
    if s in Dropped(init, drop) { b := DroppedIn(init, drop, s); } else { b := n; }
  }

  lemma {:induction false} NoneDropped(nodes: seq<Binding>, drop: (ThreadId, Slot) -> bool)
    requires Dropped(nodes, drop) == []
    ensures Kept(nodes, drop) == nodes
  {
    if nodes != [] {
      var init, n := Snoc(nodes, drop);
      NoneDropped(init, drop);
    }
  }

  ghost predicate FreshKey(nodes: seq<Binding>, k: ThreadId) {
    forall n :: n in nodes ==> n.key != k
  }

  lemma {:induction false} KeptUnique(nodes: seq<Binding>, drop: (ThreadId, Slot) -> bool)
    requires UniqueKeys(nodes)
    ensures UniqueKeys(Kept(nodes, drop))
  {
    if nodes != [] {
      var init, n := Snoc(nodes, drop);
      assert forall i :: 0 <= i < |init| ==> init[i] == nodes[i];
      assert nodes[|init|] == n;
      KeptUnique(init, drop);
      assert forall b :: b in Kept(init, drop) ==> b in init;
      assert FreshKey(init, n.key);
      UniqueSnoc(Kept(init, drop), n);
    }
  }

  lemma {:induction false} UniqueSnoc(nodes: seq<Binding>, n: Binding)
    requires UniqueKeys(nodes) && FreshKey(nodes, n.key)
    ensures UniqueKeys(nodes + [n])
  {
    assert forall i :: 0 <= i < |nodes| ==> nodes[i] in nodes;
  }

  // ----- the accounts -----

  function AsMultiset(u: Option<Slot>): multiset<Slot> {
    match u case None => multiset{} case Some(s) => multiset{s}
  }

  /** Where the slots are; `held` are those in the hands of `acquire_free_thread` callers, `known`
      all that were ever added. */
  datatype Accounts = Accounts(free: seq<Slot>, bound: multiset<Slot>, unallocated: seq<Slot>, utility: Option<Slot>,
    held: multiset<Slot>, refs: map<Slot, nat>, known: set<Slot>)

  function Census(a: Accounts): multiset<Slot> {
    multiset(a.free) + a.bound + multiset(a.unallocated) + AsMultiset(a.utility) + a.held
  }

  /** Each known slot is in exactly one place, and only bound slots and the utility slot can be in
      use. */
  ghost predicate AccountsOk(a: Accounts) {
    Census(a) == multiset(a.known) && a.refs.Keys == a.known && IdleOk(a)
  }

  ghost predicate IdleOk(a: Accounts) {
    forall s :: s in a.free || s in a.unallocated || s in a.held ==> s in a.refs && a.refs[s] == 0
  }

  /** What that means for one slot. */
  lemma {:induction false} InOnePlace(a: Accounts, s: Slot)
    requires AccountsOk(a)
    ensures multiset(a.free)[s] + a.bound[s] + multiset(a.unallocated)[s] + AsMultiset(a.utility)[s] + a.held[s] ==
      if s in a.known then 1 else 0
    ensures s in a.known && a.refs[s] > 0 && a.utility != Some(s) ==> a.bound[s] == 1
  {
    assert Census(a)[s] == if s in a.known then 1 else 0;
    assert multiset(a.free)[s] > 0 <==> s in a.free;
    assert multiset(a.unallocated)[s] > 0 <==> s in a.unallocated;
  }

  lemma {:induction false} Popped(s: seq<Slot>)
    requires s != []
    ensures multiset(s) == multiset(s[..|s| - 1]) + multiset{s[|s| - 1]}
    ensures forall x :: x in s[..|s| - 1] ==> x in s
  {
    assert s == s[..|s| - 1] + [s[|s| - 1]];
  }

  lemma {:induction false} Pushed(s: seq<Slot>, x: Slot)
    ensures multiset(s + [x]) == multiset(s) + multiset{x}
  {
  }

  lemma {:induction false} CensusPush(a: Accounts, s: Slot)
    ensures Census(a.(free := a.free + [s])) == Census(a) + multiset{s}
    ensures Census(a.(unallocated := a.unallocated + [s])) == Census(a) + multiset{s}
    ensures a.utility == None ==> Census(a.(utility := Some(s))) == Census(a) + multiset{s}
  {
    Pushed(a.free, s);
    Pushed(a.unallocated, s);
    var f, b, u, o, h := multiset(a.free), a.bound, multiset(a.unallocated), AsMultiset(a.utility), a.held;
    FiveParts(f, b, u, o, h, multiset{s});
    if a.utility == None { assert o + multiset{s} == AsMultiset(Some(s)); }
  }

  lemma {:induction false} FiveParts(f: multiset<Slot>, b: multiset<Slot>, u: multiset<Slot>, o: multiset<Slot>,
      h: multiset<Slot>, m: multiset<Slot>)
    ensures f + m + b + u + o + h == f + b + u + o + h + m
    ensures f + b + (u + m) + o + h == f + b + u + o + h + m
    ensures f + b + u + (o + m) + h == f + b + u + o + h + m
  {
  }

  lemma {:induction false} CensusIs(a: Accounts, b: Accounts)
    requires a.free == b.free && a.bound == b.bound && a.unallocated == b.unallocated && a.utility == b.utility
    requires a.held == b.held
    ensures Census(a) == Census(b)
  {
  }

  /** A new slot enters one place. */
  lemma {:induction false} Adds(a: Accounts, b: Accounts, s: Slot)
    requires AccountsOk(a) && s !in a.known && b.refs == a.refs[s := 0] && b.known == a.known + {s}
    requires b.bound == a.bound && b.held == a.held
    requires || (b.free == a.free + [s] && b.unallocated == a.unallocated && b.utility == a.utility)
             || (b.free == a.free && b.unallocated == a.unallocated + [s] && b.utility == a.utility)
             || (b.free == a.free && b.unallocated == a.unallocated && a.utility == None && b.utility == Some(s))
    ensures AccountsOk(b)
  {
    hide IdleOk, Census;
    AddsIdle(a, b, s);
    SetAdd(a.known, s);
    CensusPush(a, s);
    if b.free != a.free {
      CensusIs(b, a.(free := a.free + [s]));
    } else if b.unallocated != a.unallocated {
      CensusIs(b, a.(unallocated := a.unallocated + [s]));
    } else {
      CensusIs(b, a.(utility := Some(s)));
    }
  }

  lemma {:induction false} SetAdd(known: set<Slot>, s: Slot)
    requires s !in known
    ensures multiset(known + {s}) == multiset(known) + multiset{s}
  {
  }

  lemma {:induction false} AddsIdle(a: Accounts, b: Accounts, s: Slot)
    requires IdleOk(a) && a.refs.Keys == a.known && s !in a.known && b.refs == a.refs[s := 0] && b.held == a.held
    requires b.free == a.free || b.free == a.free + [s]
    requires b.unallocated == a.unallocated || b.unallocated == a.unallocated + [s]
    ensures IdleOk(b)
  {
    forall x | x in b.free || x in b.unallocated || x in b.held ensures x in b.refs && b.refs[x] == 0 {
      assert x == s || x in a.free || x in a.unallocated || x in a.held;
    }
  }

  /** The last free slot becomes bound, or held. */
  lemma {:induction false} Takes(a: Accounts)
    requires AccountsOk(a) && a.free != []
    ensures var s, rest := a.free[|a.free| - 1], a.free[..|a.free| - 1];
      && s in a.refs && a.refs[s] == 0
      && AccountsOk(a.(free := rest, bound := a.bound + multiset{s}))
      && AccountsOk(a.(free := rest, held := a.held + multiset{s}))
  {
    Popped(a.free);
  }

  /** A slot leaves its binding; its count is reset. */
  lemma {:induction false} Releases(a: Accounts, bound: multiset<Slot>, s: Slot)
    requires AccountsOk(a) && a.bound == bound + multiset{s}
    ensures s in a.known && AccountsOk(a.(free := a.free + [s], bound := bound, refs := a.refs[s := 0]))
  {
    InOnePlace(a, s);
    assert a.bound[s] >= 1;
    var b := a.(free := a.free + [s], bound := bound, refs := a.refs[s := 0]);
    assert Census(b) == Census(a) by { Pushed(a.free, s); }
    assert IdleOk(b);
  }

  /** Bound slots that are not in use go back together. */
  lemma {:induction false} Collects(a: Accounts, bound: multiset<Slot>, dropped: seq<Slot>)
    requires AccountsOk(a) && a.bound == bound + multiset(dropped)
    requires forall s :: s in dropped ==> s in a.refs && a.refs[s] == 0
    ensures AccountsOk(a.(free := a.free + dropped, bound := bound))
  {
    assert multiset(a.free + dropped) == multiset(a.free) + multiset(dropped);
  }

  /** The last slot not yet created becomes free. */
  lemma {:induction false} Mints(a: Accounts)
    requires AccountsOk(a) && a.unallocated != []
    ensures AccountsOk(a.(free := a.free + [a.unallocated[|a.unallocated| - 1]],
                            unallocated := a.unallocated[..|a.unallocated| - 1]))
  {
    Popped(a.unallocated);
    Pushed(a.free, a.unallocated[|a.unallocated| - 1]);
  }

  lemma {:induction false} UtilityBinds(a: Accounts)
    requires AccountsOk(a) && a.utility.Some?
    ensures a.utility.value !in a.bound
    ensures AccountsOk(a.(bound := a.bound + multiset{a.utility.value}, utility := None))
  {
    InOnePlace(a, a.utility.value);
    assert AsMultiset(a.utility)[a.utility.value] == 1;
  }

  lemma {:induction false} HeldBinds(a: Accounts, s: Slot)
    requires AccountsOk(a) && s in a.held
    ensures AccountsOk(a.(bound := a.bound + multiset{s}, held := a.held - multiset{s}))
  {
    assert a.held == a.held - multiset{s} + multiset{s};
  }

  /** The count of a bound slot, or of the utility slot, may change. */
  lemma {:induction false} Counts(a: Accounts, s: Slot, n: nat)
    requires AccountsOk(a) && (s in a.bound || a.utility == Some(s))
    ensures s in a.refs && AccountsOk(a.(refs := a.refs[s := n]))
  {
    InOnePlace(a, s);
    assert a.bound[s] + AsMultiset(a.utility)[s] >= 1;
    assert multiset(a.free)[s] == 0 && multiset(a.unallocated)[s] == 0 && a.held[s] == 0;
  }
}
