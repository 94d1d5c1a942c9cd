/** The singly linked key list under both pools (`node.cpp`), and the collector's loop that unlinks
    nodes from it in place (`tcs.cpp`). A list is a head pointer; its ghost spine is the sequence
    of its nodes. */
module NodeList {
  import opened Common

  class Node<K(==), V> {
    const key: K
    const value: V
    var next: Node?<K, V>

    constructor (key: K, value: V)
      ensures this.key == key && this.value == value && next == null
    {
      this.key, this.value, next := key, value, null;
    }
  }

  function NodeAt<K, V>(nodes: seq<Node<K, V>>, i: nat): Node?<K, V> {
    if i < |nodes| then nodes[i] else null
  }

  /** `nodes` are the nodes of the list that starts at `head`. */
  ghost predicate IsList<K, V>(head: Node?<K, V>, nodes: seq<Node<K, V>>)
    reads nodes
  {
    && head == NodeAt(nodes, 0)
    && Distinct(nodes)
    && forall i :: 0 <= i < |nodes| ==> nodes[i].next == NodeAt(nodes, i + 1)
  }

  ghost predicate UniqueKeys<K, V>(nodes: seq<Node<K, V>>) {
    forall i, j :: 0 <= i < j < |nodes| ==> nodes[i].key != nodes[j].key
  }

  predicate HasKey<K(==), V>(nodes: seq<Node<K, V>>, k: K) {
    exists i :: 0 <= i < |nodes| && nodes[i].key == k
  }

  /** `Node::Find`. */
  method Find<K(==), V>(head: Node?<K, V>, k: K, ghost nodes: seq<Node<K, V>>) returns (c: Node?<K, V>)
    requires IsList(head, nodes)
    ensures c == null <==> !HasKey(nodes, k)
    ensures c != null ==> c in nodes && c.key == k
  {
    c := head;
    ghost var i := 0;
    while c != null && c.key != k
      invariant 0 <= i <= |nodes| && c == NodeAt(nodes, i)
      invariant forall j :: 0 <= j < i ==> nodes[j].key != k
      decreases |nodes| - i
    {
      c := c.next;
      i := i + 1;
    }
  }

  /** `Node::InsertNext` on the head of a list: the new node goes second. It is refused exactly when
      its key is taken, and then nothing changes. */
  method InsertNext<K(==), V>(head: Node<K, V>, p: Node<K, V>, ghost nodes: seq<Node<K, V>>)
    returns (ok: bool, ghost after: seq<Node<K, V>>)
    requires IsList(head, nodes) && UniqueKeys(nodes) && p !in nodes
    modifies head, p
    ensures ok <==> !HasKey(nodes, p.key)
    ensures ok ==> after == [nodes[0], p] + nodes[1..]
    ensures !ok ==> after == nodes && head.next == old(head.next) && p.next == old(p.next)
    ensures IsList(head, after) && UniqueKeys(after)
  {
    var c := Find(head, p.key, nodes);
    if c != null { return false, nodes; }
    hide NodeAt;
    FirstOf(head, nodes);
    p.next := head.next;
    head.next := p;
    ok, after := true, [nodes[0], p] + nodes[1..];
    SecondIsLinked(nodes, p);
    SecondKeys(nodes, p);
  }

  lemma {:induction false} FirstOf<K, V>(head: Node<K, V>, nodes: seq<Node<K, V>>)
    requires IsList(head, nodes)
    ensures nodes != [] && head == nodes[0] && head.next == NodeAt(nodes, 1)
  {
  }

  /** With the new node behind the first, all of them form a list. */
  lemma {:induction false} SecondIsLinked<K, V>(nodes: seq<Node<K, V>>, p: Node<K, V>)
    requires nodes != [] && Distinct(nodes) && p !in nodes && nodes[0].next == p && p.next == NodeAt(nodes, 1)
    requires forall i :: 0 < i < |nodes| ==> nodes[i].next == NodeAt(nodes, i + 1)
    ensures IsList(nodes[0], [nodes[0], p] + nodes[1..])
  {
    hide NodeAt;
    var after := [nodes[0], p] + nodes[1..];
    SecondDistinct(nodes, p);
    AtFirst(after);
    forall j | 0 <= j < |after| ensures after[j].next == NodeAt(after, j + 1) {
      SecondNext(nodes, p, j);
      if j > 1 { assert nodes[j - 1].next == NodeAt(nodes, j); }
    }
  }

  lemma {:induction false} SecondNext<K, V>(nodes: seq<Node<K, V>>, p: Node<K, V>, j: nat)
    requires nodes != [] && j <= |nodes|
    ensures var after := [nodes[0], p] + nodes[1..];
      && after[j] == (if j == 0 then nodes[0] else if j == 1 then p else nodes[j - 1])
      && NodeAt(after, j + 1) == if j == 0 then p else NodeAt(nodes, j)
  {
  }

  lemma {:induction false} SecondDistinct<T>(s: seq<T>, x: T)
    requires s != [] && Distinct(s) && x !in s
    ensures Distinct([s[0], x] + s[1..])
  {
    var after := [s[0], x] + s[1..];
    assert forall j :: 2 <= j < |after| ==> after[j] == s[j - 1];
  }

  lemma {:induction false} SecondKeys<K, V>(nodes: seq<Node<K, V>>, p: Node<K, V>)
    requires nodes != [] && UniqueKeys(nodes) && !HasKey(nodes, p.key)
    ensures UniqueKeys([nodes[0], p] + nodes[1..])
  {
    var after := [nodes[0], p] + nodes[1..];
    assert forall j :: 2 <= j < |after| ==> after[j] == nodes[j - 1];
  }

  /** `Node::Remove`: unlinks the node with the key and returns it. A head that matches is returned
      with the list as it was; the callers then move on to its successor. */
  method Remove<K(==), V>(head: Node<K, V>, k: K, ghost nodes: seq<Node<K, V>>) returns (c: Node?<K, V>, ghost at: nat)
    requires IsList(head, nodes)
    modifies nodes
    ensures c == null ==> at == |nodes| && !HasKey(nodes, k) && IsList(head, nodes)
    ensures c != null ==> at < |nodes| && c == nodes[at] && c.key == k && forall j :: 0 <= j < at ==> nodes[j].key != k
    ensures c == head ==> IsList(head, nodes)
    ensures c != null && c != head ==> IsList(head, nodes[..at] + nodes[at + 1..])
  {
    c := head;
    var p := head;
    at := 0;
    while c != null && c.key != k
      invariant 0 <= at <= |nodes| && c == NodeAt(nodes, at)
      invariant forall j :: 0 <= j < at ==> nodes[j].key != k
      invariant p == nodes[if at == 0 then 0 else at - 1]
      invariant IsList(head, nodes)
      decreases |nodes| - at
    {
      p := c;
      c := c.next;
      at := at + 1;
    }
    if c != null {
      p.next := c.next;
      if at > 0 { WithoutIsLinked(nodes, at); }
    }
  }

  /** With node `at` bypassed, the others form a list. */
  lemma {:induction false} WithoutIsLinked<K, V>(nodes: seq<Node<K, V>>, at: nat)
    requires 0 < at < |nodes| && Distinct(nodes)
    requires forall i :: 0 <= i < |nodes| ==> nodes[i].next == NodeAt(nodes, if i == at - 1 then at + 1 else i + 1)
    ensures IsList(nodes[0], nodes[..at] + nodes[at + 1..])
  {
    hide NodeAt;
    var after := nodes[..at] + nodes[at + 1..];
    AtFirst(after);
    WithoutDistinct(nodes, at);
    forall j | 0 <= j < |after| ensures after[j].next == NodeAt(after, j + 1) {
      var i := if j < at then j else j + 1;
      assert nodes[i].next == NodeAt(nodes, if i == at - 1 then at + 1 else i + 1);
      WithoutNext(nodes, at, j);
    }
  }

  lemma {:induction false} AtFirst<K, V>(nodes: seq<Node<K, V>>)
    requires nodes != []
    ensures NodeAt(nodes, 0) == nodes[0]
  {
  }

  lemma {:induction false} WithoutDistinct<T>(s: seq<T>, at: nat)
    requires at < |s| && Distinct(s)
    ensures Distinct(s[..at] + s[at + 1..])
  {
    var after := s[..at] + s[at + 1..];
    assert forall j :: 0 <= j < |after| ==> after[j] == s[if j < at then j else j + 1];
  }

  lemma {:induction false} WithoutNext<K, V>(nodes: seq<Node<K, V>>, at: nat, j: nat)
    requires 0 < at < |nodes| && j < |nodes| - 1
    ensures var i := if j < at then j else j + 1; var after := nodes[..at] + nodes[at + 1..];
      after[j] == nodes[i] && NodeAt(nodes, if i == at - 1 then at + 1 else i + 1) == NodeAt(after, j + 1)
  {
  }

  /** The caller's part of a removal (`unbind_thread`, `remove_enclave`): the list without the key. */
  method Detach<K(==), V>(head: Node?<K, V>, k: K, ghost nodes: seq<Node<K, V>>)
    returns (head': Node?<K, V>, c: Node?<K, V>, ghost after: seq<Node<K, V>>)
    requires IsList(head, nodes) && UniqueKeys(nodes)
    modifies nodes
    ensures c == null <==> !HasKey(nodes, k)
    ensures c == null ==> after == nodes
    ensures c != null ==>
      exists at :: 0 <= at < |nodes| && nodes[at] == c && c.key == k && after == nodes[..at] + nodes[at + 1..]
    ensures IsList(head', after) && UniqueKeys(after) && !HasKey(after, k)
  {
    hide IsList;
    NullIsEmpty(head, nodes);
    if head == null { return null, null, nodes; }
    ghost var at: nat;
    c, at := Remove(head, k, nodes);
    head', after := head, nodes;
    if c != null {
      after := nodes[..at] + nodes[at + 1..];
      WithoutKeys(nodes, at);
      if c == head {
        head' := head.next;
        TailIsList(head, nodes);
        assert after == nodes[1..];
      }
    }
  }

  lemma {:induction false} NullIsEmpty<K, V>(head: Node?<K, V>, nodes: seq<Node<K, V>>)
    requires IsList(head, nodes)
    ensures head == null <==> nodes == []
    ensures head != null ==> head == nodes[0] && Distinct(nodes)
  {
  }

  lemma {:induction false} WithoutKeys<K, V>(nodes: seq<Node<K, V>>, at: nat)
    requires at < |nodes| && UniqueKeys(nodes)
    ensures var after := nodes[..at] + nodes[at + 1..]; UniqueKeys(after) && !HasKey(after, nodes[at].key)
  {
    var after := nodes[..at] + nodes[at + 1..];
    assert forall j :: 0 <= j < |after| ==> after[j] == nodes[if j < at then j else j + 1];
  }

  lemma {:induction false} TailIsList<K, V>(head: Node<K, V>, nodes: seq<Node<K, V>>)
    requires IsList(head, nodes)
    ensures nodes != [] && IsList(head.next, nodes[1..])
  {
    assert forall j :: 0 <= j < |nodes| - 1 ==> nodes[1..][j] == nodes[j + 1];
  }

  // ----- the collectors -----

  /** The nodes that stay. */
  ghost function Kept<K, V>(nodes: seq<Node<K, V>>, drop: (K, V) -> bool): (r: seq<Node<K, V>>)
    ensures forall n :: n in r ==> n in nodes
  {
    if nodes == [] then []
    else
      var n := nodes[|nodes| - 1];
      Kept(nodes[..|nodes| - 1], drop) + if drop(n.key, n.value) then [] else [n]
  }

  /** The values that go back to the free vector, in list order. */
  ghost function Dropped<K, V>(nodes: seq<Node<K, V>>, drop: (K, V) -> bool): seq<V> {
    if nodes == [] then []
    else
      var n := nodes[|nodes| - 1];
      Dropped(nodes[..|nodes| - 1], drop) + if drop(n.key, n.value) then [n.value] else []
  }

  /** In the middle of a walk: the nodes kept so far are linked to each other and to the rest of
      the list from node `i` on. */
  ghost predicate Walking<K, V>(head: Node?<K, V>, kept: seq<Node<K, V>>, nodes: seq<Node<K, V>>, i: nat)
    reads kept, nodes
  {
    && i <= |nodes|
    && Distinct(kept)
    && Distinct(nodes)
    && (forall a, j :: 0 <= a < |kept| && i <= j < |nodes| ==> kept[a] != nodes[j])
    && (forall a :: 0 <= a < |kept| - 1 ==> kept[a].next == NodeAt(kept, a + 1))
    && (kept != [] ==> kept[|kept| - 1].next == NodeAt(nodes, i))
    && (forall j :: i <= j < |nodes| ==> nodes[j].next == NodeAt(nodes, j + 1))
    && head == if kept == [] then NodeAt(nodes, i) else kept[0]
  }

  lemma {:induction false} WalkStarts<K, V>(head: Node?<K, V>, nodes: seq<Node<K, V>>)
    requires IsList(head, nodes)
    ensures Walking(head, [], nodes, 0)
  {
  }

  lemma {:induction false} WalkEnds<K, V>(head: Node?<K, V>, kept: seq<Node<K, V>>, nodes: seq<Node<K, V>>)
    requires Walking(head, kept, nodes, |nodes|)
    ensures IsList(head, kept)
  {
  }

  lemma {:induction false} WalkOn<K, V>(head: Node?<K, V>, kept: seq<Node<K, V>>, nodes: seq<Node<K, V>>, i: nat)
    requires Walking(head, kept, nodes, i) && i < |nodes|
    ensures nodes[i].next == NodeAt(nodes, i + 1)
    ensures Walking(head, kept + [nodes[i]], nodes, i + 1)
  {
    var now := kept + [nodes[i]];
    assert forall a :: 0 <= a < |kept| ==> now[a] == kept[a];
    assert now[|kept|] == nodes[i];
    forall a | 0 <= a < |now| - 1 ensures now[a].next == NodeAt(now, a + 1) {
      assert now[a] == kept[a];
    }
  }

  /** The node after `pre` is taken out of the list. */
  method Unlink<K(==), V>(head: Node?<K, V>, pre: Node?<K, V>, tmp: Node<K,
      V>, ghost kept: seq<Node<K, V>>, ghost nodes: seq<Node<K, V>>, ghost i: nat)
    returns (head': Node?<K, V>, it: Node?<K, V>)
    requires Walking(head, kept, nodes, i) && i < |nodes| && tmp == nodes[i]
    requires pre == if kept == [] then null else kept[|kept| - 1]
    modifies pre
    ensures it == NodeAt(nodes, i + 1) && Walking(head', kept, nodes, i + 1)
  {
    it := tmp.next;
    head' := head;
    if tmp == head { head' := it; }
    if pre != null { pre.next := it; }
  }

  /** The loop of both `garbage_collect` versions: one walk that unlinks the nodes to drop. It is an
      order-preserving filter of the list, and what it drops is appended to `free` in order. */
  method Collect<K(==), V>(head: Node?<K, V>, drop: (K, V) -> bool, free: seq<V>, ghost nodes: seq<Node<K, V>>)
    returns (head': Node?<K, V>, free': seq<V>, freed: nat)
    requires IsList(head, nodes)
    modifies nodes
    ensures IsList(head', Kept(nodes, drop))
    ensures free' == free + Dropped(nodes, drop) && freed == |Dropped(nodes, drop)|
  {
    hide Walking, IsList, Kept, Dropped;
    var it, pre: Node?<K, V> := head, null;
    head', free', freed := head, free, 0;
    ghost var i := 0;
    WalkStarts(head, nodes);
    NothingYet(head, nodes, drop);
    while it != null
      invariant i <= |nodes| && it == NodeAt(nodes, i)
      invariant var kept := Kept(nodes[..i], drop); pre == if kept == [] then null else kept[|kept| - 1]
      invariant pre == null || pre in nodes
      invariant Walking(head', Kept(nodes[..i], drop), nodes, i)
      invariant free' == free + Dropped(nodes[..i], drop) && freed == |Dropped(nodes[..i], drop)|
      decreases |nodes| - i
    {
      OneMore(nodes, i, drop);
      if drop(it.key, it.value) {
        free', freed := free' + [it.value], freed + 1;
        head', it := Unlink(head', pre, it, Kept(nodes[..i], drop), nodes, i);
      } else {
        WalkOn(head', Kept(nodes[..i], drop), nodes, i);
        pre := it;
        it := it.next;
      }
      i := i + 1;
    }
    assert nodes[..|nodes|] == nodes;
    WalkEnds(head', Kept(nodes, drop), nodes);
  }

  lemma {:induction false} NothingYet<K, V>(head: Node?<K, V>, nodes: seq<Node<K, V>>, drop: (K, V) -> bool)
    requires IsList(head, nodes)
    ensures head == NodeAt(nodes, 0) && Kept(nodes[..0], drop) == [] && Dropped(nodes[..0], drop) == []
  {
  }

  lemma {:induction false} OneMore<K, V>(nodes: seq<Node<K, V>>, i: nat, drop: (K, V) -> bool)
    requires i < |nodes|
    ensures var n := nodes[i];
      && Kept(nodes[..i + 1], drop) ==
         (if drop(n.key, n.value) then Kept(nodes[..i], drop) else Kept(nodes[..i], drop) + [n])
      && Dropped(nodes[..i + 1], drop) ==
         (if drop(n.key, n.value) then Dropped(nodes[..i], drop) + [n.value] else Dropped(nodes[..i], drop))
  {
    assert nodes[..i + 1][..i] == nodes[..i];
  }
}
