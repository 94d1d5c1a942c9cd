/** The operations of `XMLNode` on the linked tree, as assignments to pointer fields, proved against
    the order of the child lists. */
module DomTree {
  import opened Common
  import opened DomLinks

  function Index(s: seq<Id>, x: Id): (i: nat)
    requires x in s
    ensures i < |s| && s[i] == x
  {
    if s[0] == x then 0 else 1 + Index(s[1..], x)
  }

  lemma {:induction false} IndexIs(s: seq<Id>, i: nat)
    requires i < |s| && Distinct(s)
    ensures Index(s, s[i]) == i
  {
    SameIndex(s, i, Index(s, s[i]));
  }

  /** The child lists once a node is taken out of its parent's, if it has one. */
  function Removed(kids: map<Id, seq<Id>>, parent: Option<Id>, a: Id): map<Id, seq<Id>>
    requires parent.Some? ==> parent.value in kids && a in kids[parent.value]
  {
    match parent
    case None => kids
    case Some(p) => kids[p := Without(kids[p], Index(kids[p], a))]
  }

  /** Taking a node out elsewhere does not put a set of other nodes below it. */
  lemma {:induction false} StillNotBelow(d: Dom, q: Id, at: nat, p: Id, above: set<Id>)
    requires Valid(d) && q in d.links && at < |d.kids[q]| && UnlinkReady(d, q, at)
    requires NotBelow(d, p, d.kids[q][at], above)
    ensures NotBelow(UnlinkedDom(d, q, at), p, d.kids[q][at], above)
  {
    hide NodesOk;
    SiblingsOf(d, q, at);
    forall x | x in above
      ensures x in UnlinkedDom(d, q, at).links && UnlinkedDom(d, q, at).links[x].parent == d.links[x].parent
    {
      UnlinkedFields(d.links, q, d.kids[q][at], x);
    }
    hide Unlinked;
  }

  datatype Outcome = Refused | Inserted | NullPointer

  class LinkedDocument {
    var links: map<Id, Links>
    ghost var kids: map<Id, seq<Id>>
    ghost var rank: map<Id, nat>

    ghost function Tree(): Dom
      reads this
    {
      Dom(links, kids, rank)
    }

    constructor ()
      ensures Valid(Tree()) && links == map[]
    {
      links, kids, rank := map[], map[], map[];
    }

    /** `CreateUnlinked`: a node on its own. */
    method NewNode(n: Id)
      requires Valid(Tree()) && n !in links
      modifies this
      ensures Valid(Tree()) && links == old(links)[n := Links(None, None, None, None, None)]
      ensures kids == old(kids)[n := []]
    {
      hide ListOk, ParentOk;
      links := links[n := Links(None, None, None, None, None)];
      kids := kids[n := []];
      rank := rank[n := 0];
      forall x | x in links ensures NodeOk(Tree(), x) {
        FreshNode(old(Tree()), Tree(), n, x);
      }
    }

    /** The pointer assignments of `Unlink`. */
    method UnlinkPointers(p: Id, c: Id)
      requires p in links && Closed(links, c)
      modifies this`links
      ensures links == Unlinked(old(links), p, c)
    {
      if links[p].first == Some(c) { links := links[p := links[p].(first := links[c].next)]; }
      if links[p].last == Some(c) { links := links[p := links[p].(last := links[c].prev)]; }
      assert links == EndsMoved(old(links), p, c);
      BypassPointers(c);
    }

    method BypassPointers(c: Id)
      requires Closed(links, c)
      modifies this`links
      ensures var m := PrevBypassed(NextBypassed(old(links), c), c);
        links == m[c := m[c].(next := None, prev := None, parent := None)]
    {
      if links[c].prev.Some? {
        links := links[links[c].prev.value := links[links[c].prev.value].(next := links[c].next)];
      }
      if links[c].next.Some? {
        links := links[links[c].next.value := links[links[c].next.value].(prev := links[c].prev)];
      }
      ghost var m := links;
      links := links[c := links[c].(next := None)];
      links := links[c := links[c].(prev := None)];
      links := links[c := links[c].(parent := None)];
      assert links == m[c := m[c].(next := None, prev := None, parent := None)];
    }

    /** `p->Unlink(c)`: the child leaves its parent's list, and nothing else moves. */
    method Unlink(p: Id, c: Id)
      requires Valid(Tree()) && c in links && links[c].parent == Some(p)
      modifies this`links, this`kids
      ensures p in old(kids) && c in old(kids)[p] && kids == Removed(old(kids), Some(p), c)
      ensures c in links && links[c].parent == None && Valid(Tree()) && links.Keys == old(links).Keys
      ensures UnlinkReady(old(Tree()), p, Index(old(kids)[p], c))
      ensures Tree() == UnlinkedDom(old(Tree()), p, Index(old(kids)[p], c))
    {
      hide NodesOk, Unlinked;
      Node(Tree(), c);
      ghost var at := Index(kids[p], c);
      UnlinkValid(Tree(), p, at);
      UnlinkPointers(p, c);
      kids := kids[p := Without(kids[p], at)];
    }

    /** `InsertChildPreamble`: the node leaves the list it is in. */
    method InsertChildPreamble(a: Id, ghost p: Id, ghost above: set<Id>)
      requires Valid(Tree()) && a in links && NotBelow(Tree(), p, a, above)
      modifies this`links, this`kids
      ensures links.Keys == old(links).Keys && a in links && links[a].parent == None
      ensures Valid(Tree()) && NotBelow(Tree(), p, a, above)
      ensures old(links)[a].parent.Some? ==>
        old(links)[a].parent.value in old(kids) && a in old(kids)[old(links)[a].parent.value]
      ensures kids == Removed(old(kids), old(links)[a].parent, a)
      ensures forall x :: x in links && x != a ==> links[x].parent == old(links)[x].parent
    {
      hide NodesOk, NotBelow, UnlinkedDom;
      if links[a].parent.Some? {
        ghost var d := Tree();
        var q := links[a].parent.value;
        Unlink(q, a);
        ghost var at := Index(d.kids[q], a);
        StillNotBelow(d, q, at, p, above);
        ParentsStay(d, q, at);
      }
    }

    /** `InsertEndChild`: `a` moves to the end of the children of `p`. `above` shows that `p` is not
        below `a`. */
    method InsertEndChild(p: Id, a: Id, ghost above: set<Id>)
      requires Valid(Tree()) && p in links && a in links && NotBelow(Tree(), p, a, above)
      modifies this
      ensures Valid(Tree()) && links.Keys == old(links).Keys
      ensures old(links)[a].parent.Some? ==>
        old(links)[a].parent.value in old(kids) && a in old(kids)[old(links)[a].parent.value]
      ensures var k := Removed(old(kids), old(links)[a].parent, a); p in k && kids == k[p := With(k[p], |k[p]|, a)]
    {
      hide NodesOk, Linked, Removed, NotBelow, With;
      InsertChildPreamble(a, p, above);
      Append(p, a, above);
    }

    method Append(p: Id, a: Id, ghost above: set<Id>)
      requires Valid(Tree()) && a in links && links[a].parent == None && NotBelow(Tree(), p, a, above) && p in links
      modifies this
      ensures Valid(Tree()) && links.Keys == old(links).Keys
      ensures kids == old(kids)[p := With(old(kids)[p], |old(kids)[p]|, a)]
    {
      hide NodesOk, Linked, With, Raised, NotBelow;
      ghost var d, i := Tree(), |kids[p]|;
      NotSelf(d, p, a, above);
      EndsOf(d, p);
      NewNeighbours(d, p, a, i);
      LinkValid(d, p, a, i, above);
      LinkKeys(d, p, a, i, above);
      AppendPointers(p, a);
      kids := kids[p := With(kids[p], i, a)];
      rank := Raised(rank, above, rank[a] + 1);
      assert Tree() == LinkedDom(d, p, a, i, above);
    }

    method AppendPointers(p: Id, a: Id)
      requires p in links && a in links && a != p
      requires links[p].last.Some? ==>
        links[p].last.value in links && links[p].last.value != a && links[p].last.value != p
      modifies this`links
      ensures links == Linked(old(links), p, a, old(links)[p].last, None)
    {
      var last := links[p].last;
      if last.Some? {
        links := links[last.value := links[last.value].(next := Some(a))];
        links := links[a := links[a].(prev := last)];
        links := links[p := links[p].(last := Some(a))];
        links := links[a := links[a].(next := None)];
      } else {
        links := links[p := links[p].(first := Some(a), last := Some(a))];
        links := links[a := links[a].(prev := None, next := None)];
      }
      links := links[a := links[a].(parent := Some(p))];
    }

    /** `InsertFirstChild`. */
    method InsertFirstChild(p: Id, a: Id, ghost above: set<Id>)
      requires Valid(Tree()) && p in links && a in links && NotBelow(Tree(), p, a, above)
      modifies this
      ensures Valid(Tree()) && links.Keys == old(links).Keys
      ensures old(links)[a].parent.Some? ==>
        old(links)[a].parent.value in old(kids) && a in old(kids)[old(links)[a].parent.value]
      ensures var k := Removed(old(kids), old(links)[a].parent, a); p in k && kids == k[p := With(k[p], 0, a)]
    {
      hide NodesOk, Linked, Removed, NotBelow, With;
      InsertChildPreamble(a, p, above);
      Prepend(p, a, above);
    }

    method Prepend(p: Id, a: Id, ghost above: set<Id>)
      requires Valid(Tree()) && a in links && links[a].parent == None && NotBelow(Tree(), p, a, above) && p in links
      modifies this
      ensures Valid(Tree()) && links.Keys == old(links).Keys && kids == old(kids)[p := With(old(kids)[p], 0, a)]
    {
      hide NodesOk, Linked, With, Raised, NotBelow;
      ghost var d, i := Tree(), 0;
      NotSelf(d, p, a, above);
      EndsOf(d, p);
      NewNeighbours(d, p, a, i);
      LinkValid(d, p, a, i, above);
      LinkKeys(d, p, a, i, above);
      PrependPointers(p, a);
      kids := kids[p := With(kids[p], i, a)];
      rank := Raised(rank, above, rank[a] + 1);
      assert Tree() == LinkedDom(d, p, a, i, above);
    }

    method PrependPointers(p: Id, a: Id)
      requires p in links && a in links && a != p
      requires links[p].first.Some? ==>
        links[p].first.value in links && links[p].first.value != a && links[p].first.value != p
      modifies this`links
      ensures links == Linked(old(links), p, a, None, old(links)[p].first)
    {
      var first := links[p].first;
      if first.Some? {
        links := links[first.value := links[first.value].(prev := Some(a))];
        links := links[a := links[a].(next := first)];
        links := links[p := links[p].(first := Some(a))];
        links := links[a := links[a].(prev := None)];
      } else {
        links := links[p := links[p].(first := Some(a), last := Some(a))];
        links := links[a := links[a].(prev := None, next := None)];
      }
      links := links[a := links[a].(parent := Some(p))];
    }

    /** `InsertAfterChild`. It refuses an `after` that is not a child of `p`, and leaves a node where it
        is that is to follow itself. Inserting the last child after its own predecessor follows a
        null pointer; `a` is in no list then. */
    method InsertAfterChild(p: Id, after: Id, a: Id, ghost above: set<Id>) returns (r: Outcome)
      requires Valid(Tree()) && p in links && a in links && after in links && NotBelow(Tree(), p, a, above)
      modifies this
      ensures Valid(Tree()) && links.Keys == old(links).Keys
      ensures r == Refused <==> old(links)[after].parent != Some(p)
      ensures r == NullPointer <==>
        && old(links)[after].parent == Some(p)
        && after != a
        && old(links)[after].next == Some(a)
        && old(links)[a].next == None
      ensures r == Refused || after == a ==> links == old(links) && kids == old(kids)
      ensures old(links)[a].parent.Some? ==>
        old(links)[a].parent.value in old(kids) && a in old(kids)[old(links)[a].parent.value]
      ensures r == NullPointer ==> kids == Removed(old(kids), old(links)[a].parent, a)
      ensures r == Inserted && after != a ==>
        var k := Removed(old(kids), old(links)[a].parent, a);
        p in k && after in k[p] && kids == k[p := With(k[p], Index(k[p], after) + 1, a)]
    {
      hide NodesOk, NotBelow, Removed, With, Index;
      if links[a].parent.Some? { HasParent(Tree(), a); }
      if links[after].parent != Some(p) { return Refused; }
      if after == a { return Inserted; }
      if links[after].next == None {
        LastAfter(Tree(), p, after, a);
        InsertEndChild(p, a, above);
        return Inserted;
      }
      r := InsertAfterOther(p, after, a, above);
    }

    method InsertAfterOther(p: Id, after: Id, a: Id, ghost above: set<Id>) returns (r: Outcome)
      requires Valid(Tree()) && p in links && a in links && after in links && NotBelow(Tree(), p, a, above)
      requires links[after].parent == Some(p) && after != a && links[after].next != None
      modifies this
      ensures Valid(Tree()) && links.Keys == old(links).Keys && r != Refused
      ensures r == NullPointer <==> old(links)[after].next == Some(a) && old(links)[a].next == None
      ensures old(links)[a].parent.Some? ==>
        old(links)[a].parent.value in old(kids) && a in old(kids)[old(links)[a].parent.value]
      ensures var k := Removed(old(kids), old(links)[a].parent, a);
        p in k && after in k[p] && kids == if r == NullPointer then k else k[p := With(k[p], Index(k[p], after) + 1, a)]
    {
      hide Valid, NotBelow, Removed, With, Index, At;
      NextIsNull(Tree(), p, after, a);
      InsertChildPreamble(a, p, above);
      r := InsertAtNext(p, after, a, above);
    }

    /** The part behind the preamble. */
    method InsertAtNext(p: Id, after: Id, a: Id, ghost above: set<Id>) returns (r: Outcome)
      requires Valid(Tree()) && p in links && a in links && links[a].parent == None && NotBelow(Tree(), p, a, above)
      requires after in links && after in kids[p]
      modifies this
      ensures Valid(Tree()) && links.Keys == old(links).Keys && r != Refused
      ensures r == NullPointer <==> At(old(kids)[p], Index(old(kids)[p], after) + 1) == None
      ensures kids == if r == NullPointer then old(kids)
        else old(kids)[p := With(old(kids)[p], Index(old(kids)[p], after) + 1, a)]
    {
      hide NodesOk, NotBelow, With, Index, At, Distinct;
      NextOf(Tree(), p, after);
      if links[after].next == None { return NullPointer; }
      InsertBetween(p, after, a, above);
      return Inserted;
    }

    /** The last part of `InsertAfterChild`, where `after` has a successor. */
    method InsertBetween(p: Id, after: Id, a: Id, ghost above: set<Id>)
      requires Valid(Tree()) && a in links && links[a].parent == None && NotBelow(Tree(), p, a, above) && p in links
      requires after in kids[p] && Index(kids[p], after) + 1 < |kids[p]|
      modifies this
      ensures Valid(Tree()) && links.Keys == old(links).Keys
      ensures kids == old(kids)[p := With(old(kids)[p], Index(old(kids)[p], after) + 1, a)]
    {
      hide NodesOk, Linked, With, Raised, Index, NotBelow;
      ghost var d, i := Tree(), Index(kids[p], after) + 1;
      NotSelf(d, p, a, above);
      ChildAt(d, p, i - 1);
      NewNeighbours(d, p, a, i);
      LinkValid(d, p, a, i, above);
      LinkKeys(d, p, a, i, above);
      BetweenPointers(p, after, a);
      kids := kids[p := With(kids[p], i, a)];
      rank := Raised(rank, above, rank[a] + 1);
      assert Tree() == LinkedDom(d, p, a, i, above);
    }

    method BetweenPointers(p: Id, after: Id, a: Id)
      requires p in links && a in links && after in links && a != p && after != a && after != p
      requires links[after].next.Some? && links[after].next.value in links && links[after].next.value != a
      requires links[after].next.value != p
      modifies this`links
      ensures links == Linked(old(links), p, a, Some(after), old(links)[after].next)
    {
      links := links[a := links[a].(prev := Some(after))];
      links := links[a := links[a].(next := links[after].next)];
      links := links[links[after].next.value := links[links[after].next.value].(prev := Some(a))];
      links := links[after := links[after].(next := Some(a))];
      links := links[a := links[a].(parent := Some(p))];
    }
  }

  lemma {:induction false} NotSelf(d: Dom, p: Id, a: Id, above: set<Id>)
    requires NotBelow(d, p, a, above)
    ensures p != a && p in d.links
  {
  }

  lemma {:induction false} HasParent(d: Dom, a: Id)
    requires Valid(d) && a in d.links && d.links[a].parent.Some?
    ensures d.links[a].parent.value in d.kids && a in d.kids[d.links[a].parent.value]
  {
    Node(d, a);
  }

  lemma {:induction false} ParentsStay(d: Dom, q: Id, at: nat)
    requires Valid(d) && q in d.links && at < |d.kids[q]| && UnlinkReady(d, q, at)
    ensures var l := UnlinkedDom(d, q, at).links;
      l.Keys == d.links.Keys && forall x :: x in d.links && x != d.kids[q][at] ==> l[x].parent == d.links[x].parent
  {
    hide NodesOk;
    SiblingsOf(d, q, at);
    UnlinkedFields(d.links, q, d.kids[q][at], q);
    forall x | x in d.links && x != d.kids[q][at] ensures UnlinkedDom(d, q, at).links[x].parent == d.links[x].parent {
      UnlinkedFields(d.links, q, d.kids[q][at], x);
    }
  }

  lemma {:induction false} NextOf(d: Dom, p: Id, after: Id)
    requires Valid(d) && p in d.links && after in d.kids[p]
    ensures var i := Index(d.kids[p], after);
      && after in d.links
      && d.links[after].next == At(d.kids[p], i + 1)
      && (At(d.kids[p], i + 1) == None <==> i + 1 == |d.kids[p]|)
  {
    hide NodesOk, Index;
    ChildAt(d, p, Index(d.kids[p], after));
  }

  /** Where a child stands once another one is taken out. */
  lemma {:induction false} IndexWithout(s: seq<Id>, i: nat, j: nat)
    requires i < |s| && j < |s| && i != j && Distinct(s)
    ensures s[i] in Without(s, j) && Index(Without(s, j), s[i]) == if i < j then i else i - 1
  {
    WithoutOk(s, j);
    var k := if i < j then i else i - 1;
    assert Without(s, j)[k] == s[i];
    IndexIs(Without(s, j), k);
  }

  /** The place of `after` once `a` is out of its list. */
  lemma {:induction false} PlaceOf(d: Dom, p: Id, after: Id, a: Id)
    requires Valid(d) && a in d.links && after in d.links && a != after && d.links[after].parent == Some(p)
    ensures p in d.links && after in d.kids[p]
    ensures d.links[a].parent.Some? ==> d.links[a].parent.value in d.kids && a in d.kids[d.links[a].parent.value]
    ensures var k, s, i := Removed(d.kids, d.links[a].parent, a), d.kids[p], Index(d.kids[p], after);
      && p in k && after in k[p] && Distinct(s)
      && d.links[after].next == At(s, i + 1)
      && if d.links[a].parent == Some(p) then
           var j := Index(s, a);
           && i != j
           && |k[p]| == |s| - 1
           && Index(k[p], after) == (if i < j then i else i - 1)
           && d.links[a].next == At(s, j + 1)
           && s[j] == a
         else k[p] == s
  {
    hide NodesOk;
    Node(d, after);
    if d.links[a].parent.Some? { Node(d, a); }
    var s := d.kids[p];
    ChildAt(d, p, Index(s, after));
    if d.links[a].parent == Some(p) {
      ChildAt(d, p, Index(s, a));
      IndexWithout(s, Index(s, after), Index(s, a));
    }
  }

  lemma {:induction false} LastAfter(d: Dom, p: Id, after: Id, a: Id)
    requires Valid(d) && a in d.links && after in d.links && a != after && d.links[after].parent == Some(p)
    requires d.links[after].next == None
    ensures d.links[a].parent.Some? ==> d.links[a].parent.value in d.kids && a in d.kids[d.links[a].parent.value]
    ensures var k := Removed(d.kids, d.links[a].parent, a); p in k && after in k[p] && Index(k[p], after) + 1 == |k[p]|
  {
    hide NodesOk, Removed;
    PlaceOf(d, p, after, a);
  }

  /** `after` has no successor any more when `InsertAfterChild` follows its `next` pointer exactly if the
      last child is inserted after the one before it. */
  lemma {:induction false} NextIsNull(d: Dom, p: Id, after: Id, a: Id)
    requires Valid(d) && a in d.links && after in d.links && a != after && d.links[after].parent == Some(p)
    requires d.links[after].next != None
    ensures d.links[a].parent.Some? ==> d.links[a].parent.value in d.kids && a in d.kids[d.links[a].parent.value]
    ensures var k := Removed(d.kids, d.links[a].parent, a);
      && p in k
      && after in k[p]
      && (At(k[p], Index(k[p], after) + 1) == None <==> d.links[after].next == Some(a) && d.links[a].next == None)
  {
    hide NodesOk, Removed;
    PlaceOf(d, p, after, a);
    var s := d.kids[p];
    if d.links[after].next == Some(a) { NextHasParent(d, p, after); }
  }

  /** A document in which that happens: a root with two children, the second inserted after the
      first. */
  lemma {:induction false} NextCanBeNull()
    ensures var d := TwoChildren();
      && Valid(d) && NotBelow(d, 0, 2, {0}) && d.links[1].parent == Some(0)
      && d.links[1].next == Some(2) && d.links[2].next == None
  {
    var d := TwoChildren();
    assert d.kids.Keys == d.links.Keys == d.rank.Keys == {0, 1, 2};
    forall n | n in d.links ensures NodeOk(d, n) {
      assert ChildOk(d, 0, 0) && ChildOk(d, 0, 1);
    }
  }

  function TwoChildren(): Dom {
    Dom(map[0 := Links(None, None, None, Some(1), Some(2)),
            1 := Links(Some(0), None, Some(2), None, None),
            2 := Links(Some(0), Some(1), None, None, None)],
        map[0 := [1, 2], 1 := [], 2 := []],
        map[0 := 1, 1 := 0, 2 := 0])
  }

  lemma {:induction false} NextHasParent(d: Dom, p: Id, after: Id)
    requires Valid(d) && after in d.links && d.links[after].parent == Some(p) && d.links[after].next.Some?
    ensures var n := d.links[after].next.value;
      && p in d.links && after in d.kids[p] && n in d.links && d.links[n].parent == Some(p)
      && n in d.kids[p] && Index(d.kids[p], n) == Index(d.kids[p], after) + 1
  {
    hide NodesOk;
    Node(d, after);
    var s := d.kids[p];
    var i := Index(s, after);
    ChildAt(d, p, i);
    Above(d, p, i + 1);
    IndexIs(s, i + 1);
  }

  lemma {:induction false} FreshNode(d: Dom, d': Dom, n: Id, x: Id)
    requires Valid(d) && n !in d.links && x in d'.links
    requires d' == Dom(d.links[n := Links(None, None, None, None, None)], d.kids[n := []], d.rank[n := 0])
    ensures NodeOk(d', x)
  {
    hide NodesOk;
    if x != n {
      Node(d, x);
      forall i | 0 <= i < |d.kids[x]| ensures ChildOk(d', x, i) { assert ChildOk(d, x, i); }
    }
  }
}
