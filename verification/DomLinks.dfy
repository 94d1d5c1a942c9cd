/** The linked document tree: `XMLNode::InsertEndChild`, `InsertFirstChild`, `InsertAfterChild` and
    `Unlink` rewire parent, sibling and child pointers. The nodes of a document are a store from
    node identities to their pointer fields, so that any two pointers may alias. */
module DomLinks {
  import opened Common

  type Id = nat

  datatype Links = Links(parent: Option<Id>, prev: Option<Id>, next: Option<Id>, first: Option<Id>, last: Option<Id>)

  /** A document: the pointers, the order every child list is meant to have, and a rank that falls
      from parent to child. */
  datatype Dom = Dom(links: map<Id, Links>, kids: map<Id, seq<Id>>, rank: map<Id, nat>)

  function At(s: seq<Id>, i: int): Option<Id> {
    if 0 <= i < |s| then Some(s[i]) else None
  }

  /** Child `i` of `n`: the list can be read forwards and backwards, and all name `n` as parent. */
  ghost predicate ChildIn(m: map<Id, Links>, s: seq<Id>, n: Id, i: nat)
    requires i < |s|
  {
    s[i] in m && m[s[i]].parent == Some(n) && m[s[i]].prev == At(s, i - 1) && m[s[i]].next == At(s, i + 1)
  }

  ghost predicate ChildOk(d: Dom, n: Id, i: nat)
    requires n in d.kids && i < |d.kids[n]|
  {
    ChildIn(d.links, d.kids[n], n, i)
  }

  ghost predicate ListOk(d: Dom, n: Id)
    requires n in d.links && n in d.kids
  {
    && Distinct(d.kids[n])
    && d.links[n].first == At(d.kids[n], 0)
    && d.links[n].last == At(d.kids[n], |d.kids[n]| - 1)
    && forall i :: 0 <= i < |d.kids[n]| ==> ChildOk(d, n, i)
  }

  /** A node is in the list of its parent, which ranks above it, or in none. */
  ghost predicate ParentOk(d: Dom, c: Id)
    requires c in d.links && d.kids.Keys == d.links.Keys == d.rank.Keys
  {
    match d.links[c].parent
    case None => d.links[c].prev == None && d.links[c].next == None
    case Some(p) => p in d.links && c in d.kids[p] && d.rank[c] < d.rank[p]
  }

  /** All lists are mirrored, parents agree with them, and the ranks make the tree a forest. */
  ghost predicate Valid(d: Dom) {
    d.kids.Keys == d.links.Keys == d.rank.Keys && NodesOk(d)
  }

  ghost predicate NodesOk(d: Dom)
    requires d.kids.Keys == d.links.Keys == d.rank.Keys
  {
    forall n :: n in d.links ==> NodeOk(d, n)
  }

  ghost predicate NodeOk(d: Dom, n: Id)
    requires d.kids.Keys == d.links.Keys == d.rank.Keys && n in d.links
  {
    ListOk(d, n) && ParentOk(d, n)
  }

  /** One node of a valid document. */
  lemma {:induction false} Node(d: Dom, n: Id)
    requires Valid(d) && n in d.links
    ensures NodeOk(d, n)
  {
    hide ListOk, ParentOk;
  }

  // ----- unlinking -----

  function Without(s: seq<Id>, i: nat): seq<Id>
    requires i < |s|
  {
    s[..i] + s[i + 1..]
  }

  /** The pointers of `c` stay inside the store. */
  predicate Closed(m: map<Id, Links>, c: Id) {
    c in m && (m[c].prev.Some? ==> m[c].prev.value in m) && (m[c].next.Some? ==> m[c].next.value in m)
  }

  function EndsMoved(m: map<Id, Links>, p: Id, c: Id): (r: map<Id, Links>)
    requires p in m && Closed(m, c)
    ensures r.Keys == m.Keys && r[c].prev == m[c].prev && r[c].next == m[c].next
  {
    var m1 := if m[p].first == Some(c) then m[p := m[p].(first := m[c].next)] else m;
    if m1[p].last == Some(c) then m1[p := m1[p].(last := m1[c].prev)] else m1
  }

  function NextBypassed(m: map<Id, Links>, c: Id): (r: map<Id, Links>)
    requires Closed(m, c)
    ensures r.Keys == m.Keys && r[c].prev == m[c].prev && r[c].next == m[c].next
  {
    if m[c].prev.Some? then m[m[c].prev.value := m[m[c].prev.value].(next := m[c].next)] else m
  }

  function PrevBypassed(m: map<Id, Links>, c: Id): (r: map<Id, Links>)
    requires Closed(m, c)
    ensures r.Keys == m.Keys
  {
    if m[c].next.Some? then m[m[c].next.value := m[m[c].next.value].(prev := m[c].prev)] else m
  }

  /** The assignments of `Unlink`, one after the other. */
  function Unlinked(m: map<Id, Links>, p: Id, c: Id): map<Id, Links>
    requires p in m && Closed(m, c)
  {
    var m4 := PrevBypassed(NextBypassed(EndsMoved(m, p, c), c), c);
    m4[c := m4[c].(next := None, prev := None, parent := None)]
  }

  /** A parent is none of its children. */
  lemma {:induction false} Above(d: Dom, p: Id, i: nat)
    requires Valid(d) && p in d.links && i < |d.kids[p]|
    ensures d.kids[p][i] in d.links && d.links[d.kids[p][i]].parent == Some(p) && d.kids[p][i] != p
  {
    hide NodesOk;
    Node(d, p);
    assert ChildOk(d, p, i);
    Node(d, d.kids[p][i]);
  }

  lemma {:induction false} SiblingsOf(d: Dom, p: Id, at: nat)
    requires Valid(d) && p in d.links && at < |d.kids[p]|
    ensures var c := d.kids[p][at];
      && c in d.links && c != p && d.links[c].parent == Some(p)
      && d.links[c].prev == At(d.kids[p], at - 1) && d.links[c].next == At(d.kids[p], at + 1)
      && (at > 0 ==> d.kids[p][at - 1] in d.links && d.kids[p][at - 1] != c && d.kids[p][at - 1] != p)
      && (at + 1 < |d.kids[p]| ==> d.kids[p][at + 1] in d.links && d.kids[p][at + 1] != c && d.kids[p][at + 1] != p)
  {
    hide NodesOk;
    Node(d, p);
    assert ChildOk(d, p, at);
    Above(d, p, at);
    if at > 0 { Above(d, p, at - 1); }
    if at + 1 < |d.kids[p]| { Above(d, p, at + 1); }
  }

  /** What `Unlink` does to the fields of each node. */
  lemma {:induction false} UnlinkedFields(m: map<Id, Links>, p: Id, c: Id, x: Id)
    requires p in m && x in m && Closed(m, c)
    ensures Unlinked(m, p, c).Keys == m.Keys
    ensures var l := Unlinked(m, p, c)[x];
      && l.parent == (if x == c then None else m[x].parent)
      && l.next == (if x == c then None else if m[c].prev == Some(x) then m[c].next else m[x].next)
      && l.prev == (if x == c then None else if m[c].next == Some(x) then m[c].prev else m[x].prev)
      && l.first == (if x == p && m[p].first == Some(c) then m[c].next else m[x].first)
      && l.last == (if x == p && m[p].last == Some(c) then m[c].prev else m[x].last)
  {
  }

  /** The document after unlinking child `at` of `p`. */
  function UnlinkedDom(d: Dom, p: Id, at: nat): Dom
    requires p in d.kids && at < |d.kids[p]|
    requires var c := d.kids[p][at];
      p in d.links && c in d.links
      && (d.links[c].prev.Some? ==> d.links[c].prev.value in d.links)
      && (d.links[c].next.Some? ==> d.links[c].next.value in d.links)
  {
    Dom(Unlinked(d.links, p, d.kids[p][at]), d.kids[p := Without(d.kids[p], at)], d.rank)
  }

  lemma {:induction false} WithoutOk(s: seq<Id>, at: nat)
    requires at < |s| && Distinct(s)
    ensures Distinct(Without(s, at)) && s[at] !in Without(s, at)
    ensures forall x :: x in s && x != s[at] ==> x in Without(s, at)
    ensures forall i :: 0 <= i < |s| - 1 ==> Without(s, at)[i] == s[if i < at then i else i + 1]
  {
    forall x | x in s && x != s[at] ensures x in Without(s, at) {
      var i :| 0 <= i < |s| && s[i] == x;
      assert Without(s, at)[if i < at then i else i - 1] == x;
    }
  }

  /** The index of a child is determined by the child. */
  lemma {:induction false} SameIndex(s: seq<Id>, i: int, j: int)
    requires Distinct(s) && 0 <= i < |s|
    ensures At(s, j) == Some(s[i]) <==> i == j
  {
  }

  lemma {:induction false} WithoutAt(s: seq<Id>, at: nat, k: int)
    requires at < |s|
    ensures |Without(s, at)| == |s| - 1
    ensures At(Without(s, at), k) == if k < at then At(s, k) else At(s, k + 1)
  {
  }

  lemma {:induction false} ChildAt(d: Dom, p: Id, j: nat)
    requires Valid(d) && p in d.links && j < |d.kids[p]|
    ensures Distinct(d.kids[p]) && ChildOk(d, p, j)
  {
    hide NodesOk;
    Node(d, p);
  }

  /** The neighbours of a remaining child, in terms of the old list. */
  lemma {:induction false} UnlinkNeighbours(d: Dom, p: Id, at: nat, j: nat)
    requires Valid(d) && p in d.links && at < |d.kids[p]| && UnlinkReady(d, p, at) && j < |d.kids[p]| && j != at
    ensures var s, m := d.kids[p], Unlinked(d.links, p, d.kids[p][at]);
      && s[j] in m && m[s[j]].parent == Some(p)
      && m[s[j]].next == (if j == at - 1 then At(s, at + 1) else At(s, j + 1))
      && m[s[j]].prev == (if j == at + 1 then At(s, at - 1) else At(s, j - 1))
  {
    hide NodesOk;
    var s, c := d.kids[p], d.kids[p][at];
    ChildAt(d, p, j);
    SiblingsOf(d, p, at);
    UnlinkedFields(d.links, p, c, s[j]);
    SameIndex(s, j, at - 1);
    SameIndex(s, j, at + 1);
    SameIndex(s, j, at);
    hide Unlinked, Valid, Distinct, At, UnlinkReady;
  }

  lemma {:induction false} UnlinkChild(d: Dom, p: Id, at: nat, i: nat)
    requires Valid(d) && p in d.links && at < |d.kids[p]| && UnlinkReady(d, p, at) && i < |d.kids[p]| - 1
    ensures var d' := UnlinkedDom(d, p, at);
      && p in d'.kids && d'.kids[p] == Without(d.kids[p], at) && |Without(d.kids[p], at)| == |d.kids[p]| - 1
      && ChildOk(d', p, i)
  {
    hide NodesOk;
    var s, m := d.kids[p], Unlinked(d.links, p, d.kids[p][at]);
    UnlinkNeighbours(d, p, at, if i < at then i else i + 1);
    WithoutAt(s, at, i);
    UpdateKeys(d.kids, p, Without(s, at));
    hide *;
    RemainsIn(m, s, p, at, i);
    UnlinkedIs(d, p, at, i);
  }

  lemma {:induction false} UnlinkedIs(d: Dom, p: Id, at: nat, i: nat)
    requires p in d.kids && at < |d.kids[p]| && UnlinkReady(d, p, at) && i < |Without(d.kids[p], at)|
    requires ChildIn(Unlinked(d.links, p, d.kids[p][at]), Without(d.kids[p], at), p, i)
    ensures var d' := UnlinkedDom(d, p, at);
      p in d'.kids && d'.kids[p] == Without(d.kids[p], at) && ChildOk(d', p, i)
  {
    hide Unlinked, Without, ChildIn;
  }

  lemma {:induction false} RemainsIn(m: map<Id, Links>, s: seq<Id>, p: Id, at: nat, i: nat)
    requires at < |s| && i < |s| - 1
    requires var j := if i < at then i else i + 1;
      && s[j] in m && m[s[j]].parent == Some(p)
      && m[s[j]].next == (if j == at - 1 then At(s, at + 1) else At(s, j + 1))
      && m[s[j]].prev == (if j == at + 1 then At(s, at - 1) else At(s, j - 1))
    ensures |Without(s, at)| == |s| - 1 && ChildIn(m, Without(s, at), p, i)
  {
    WithoutAt(s, at, i);
    WithoutAt(s, at, i - 1);
    WithoutAt(s, at, i + 1);
    assert Without(s, at)[i] == s[if i < at then i else i + 1];
    hide Without, At;
  }

  lemma {:induction false} EndsOf(d: Dom, p: Id)
    requires Valid(d) && p in d.links
    ensures Distinct(d.kids[p]) && d.links[p].first == At(d.kids[p], 0)
    ensures d.links[p].last == At(d.kids[p], |d.kids[p]| - 1)
  {
    hide NodesOk;
    Node(d, p);
  }

  lemma {:induction false} UnlinkEnds(d: Dom, p: Id, at: nat)
    requires Valid(d) && p in d.links && at < |d.kids[p]| && UnlinkReady(d, p, at)
    ensures var s, m := d.kids[p], Unlinked(d.links, p, d.kids[p][at]);
      && m.Keys == d.links.Keys
      && m[p].first == At(Without(s, at), 0) && m[p].last == At(Without(s, at), |s| - 2)
  {
    hide NodesOk, Unlinked, Distinct, Without;
    var s := d.kids[p];
    EndsOf(d, p);
    SiblingsOf(d, p, at);
    UnlinkedFields(d.links, p, s[at], p);
    SameIndex(s, at, 0);
    SameIndex(s, at, |s| - 1);
    WithoutAt(s, at, 0);
    WithoutAt(s, at, |s| - 2);
  }

  lemma {:induction false} UnlinkOwnList(d: Dom, p: Id, at: nat)
    requires Valid(d) && p in d.links && at < |d.kids[p]| && UnlinkReady(d, p, at)
    ensures var d' := UnlinkedDom(d, p, at); d'.kids.Keys == d'.links.Keys == d.links.Keys && ListOk(d', p)
  {
    hide NodesOk;
    var s, d' := d.kids[p], UnlinkedDom(d, p, at);
    EndsOf(d, p);
    WithoutOk(s, at);
    WithoutAt(s, at, 0);
    UnlinkEnds(d, p, at);
    UpdateKeys(d.kids, p, Without(s, at));
    assert d.kids.Keys == d.links.Keys;
    hide Unlinked, Valid, Distinct, Without, ChildOk, At;
    forall i | 0 <= i < |s| - 1 ensures ChildOk(d', p, i) {
      UnlinkChild(d, p, at, i);
    }
  }

  lemma {:induction false} UpdateKeys(m: map<Id, seq<Id>>, p: Id, s: seq<Id>)
    requires p in m
    ensures m[p := s].Keys == m.Keys && m[p := s][p] == s
  {
  }

  /** The pointers that `Unlink` follows are in the store. */
  ghost predicate UnlinkReady(d: Dom, p: Id, at: nat)
    requires p in d.kids && at < |d.kids[p]|
  {
    var c := d.kids[p][at];
    && p in d.links && c in d.links
    && (d.links[c].prev.Some? ==> d.links[c].prev.value in d.links)
    && (d.links[c].next.Some? ==> d.links[c].next.value in d.links)
  }

  lemma {:induction false} IsReady(d: Dom, p: Id, at: nat)
    requires Valid(d) && p in d.links && at < |d.kids[p]|
    ensures UnlinkReady(d, p, at)
  {
    SiblingsOf(d, p, at);
  }

  /** Pointers of nodes with another parent, or none, are left alone. */
  lemma {:induction false} UnlinkElsewhere(d: Dom, p: Id, at: nat, x: Id)
    requires Valid(d) && p in d.links && at < |d.kids[p]| && UnlinkReady(d, p, at) && x in d.links
    requires d.links[x].parent != Some(p)
    ensures var d' := UnlinkedDom(d, p, at);
      && x in d'.links && d'.links[x].parent == d.links[x].parent
      && d'.links[x].prev == d.links[x].prev && d'.links[x].next == d.links[x].next
  {
    hide NodesOk;
    var c := d.kids[p][at];
    SiblingsOf(d, p, at);
    UnlinkedFields(d.links, p, c, x);
    if at > 0 { Above(d, p, at - 1); }
    if at + 1 < |d.kids[p]| { Above(d, p, at + 1); }
    hide Unlinked;
  }

  lemma {:induction false} UnlinkOtherList(d: Dom, p: Id, at: nat, n: Id)
    requires Valid(d) && p in d.links && at < |d.kids[p]| && UnlinkReady(d, p, at) && n in d.links && n != p
    ensures var d' := UnlinkedDom(d, p, at); n in d'.links && ListOk(d', n)
  {
    hide NodesOk;
    var d' := UnlinkedDom(d, p, at);
    SiblingsOf(d, p, at);
    UnlinkedFields(d.links, p, d.kids[p][at], n);
    Node(d, n);
    hide Unlinked;
    assert d'.kids[n] == d.kids[n];
    forall i | 0 <= i < |d.kids[n]| ensures ChildOk(d', n, i) {
      assert ChildOk(d, n, i);
      UnlinkElsewhere(d, p, at, d.kids[n][i]);
    }
  }

  lemma {:induction false} UnlinkParents(d: Dom, p: Id, at: nat, x: Id)
    requires Valid(d) && p in d.links && at < |d.kids[p]| && UnlinkReady(d, p, at) && x in d.links
    ensures var d' := UnlinkedDom(d, p, at);
      d'.kids.Keys == d'.links.Keys == d'.rank.Keys && x in d'.links && ParentOk(d', x)
  {
    hide NodesOk;
    var c := d.kids[p][at];
    SiblingsOf(d, p, at);
    UnlinkedFields(d.links, p, c, x);
    Node(d, x);
    EndsOf(d, p);
    WithoutOk(d.kids[p], at);
    if d.links[x].parent != Some(p) { UnlinkElsewhere(d, p, at, x); }
    hide Unlinked, Without;
  }

  /** Unlinking keeps the document in order; the child is then in no list. */
  lemma {:induction false} UnlinkValid(d: Dom, p: Id, at: nat)
    requires Valid(d) && p in d.links && at < |d.kids[p]|
    ensures UnlinkReady(d, p, at)
    ensures var d', c := UnlinkedDom(d, p, at), d.kids[p][at];
      Valid(d') && d'.links.Keys == d.links.Keys && c in d'.links && d'.links[c].parent == None
  {
    IsReady(d, p, at);
    var d' := UnlinkedDom(d, p, at);
    SiblingsOf(d, p, at);
    UnlinkedFields(d.links, p, d.kids[p][at], d.kids[p][at]);
    hide UnlinkedDom, Unlinked, ListOk, ParentOk;
    UnlinkOwnList(d, p, at);
    UnlinkParents(d, p, at, p);
    forall n | n in d'.links ensures NodeOk(d', n) {
      if n != p { UnlinkOtherList(d, p, at, n); }
      UnlinkParents(d, p, at, n);
    }
  }

  // ----- linking -----

  function With(s: seq<Id>, i: nat, a: Id): seq<Id>
    requires i <= |s|
  {
    s[..i] + [a] + s[i..]
  }

  /** The assignments that put the detached node `a` between two children of `p`; `prev` and `next`
      are its new neighbours. */
  function Linked(m: map<Id, Links>, p: Id, a: Id, prev: Option<Id>, next: Option<Id>): map<Id, Links>
    requires p in m && a in m && (prev.Some? ==> prev.value in m) && (next.Some? ==> next.value in m)
  {
    var m1 := match prev
      case Some(q) => m[q := m[q].(next := Some(a))]
      case None => m[p := m[p].(first := Some(a))];
    var m2 := match next
      case Some(q) => m1[q := m1[q].(prev := Some(a))]
      case None => m1[p := m1[p].(last := Some(a))];
    m2[a := m2[a].(parent := Some(p), prev := prev, next := next)]
  }

  lemma {:induction false} LinkedFields(m: map<Id, Links>, p: Id, a: Id, prev: Option<Id>, next: Option<Id>, x: Id)
    requires p in m && a in m && x in m && a != p
    requires prev.Some? ==> prev.value in m && prev.value != a && prev.value != p
    requires next.Some? ==> next.value in m && next.value != a && next.value != p
    ensures Linked(m, p, a, prev, next).Keys == m.Keys
    ensures var l := Linked(m, p, a, prev, next)[x];
      && l.parent == (if x == a then Some(p) else m[x].parent)
      && l.next == (if x == a then next else if prev == Some(x) then Some(a) else m[x].next)
      && l.prev == (if x == a then prev else if next == Some(x) then Some(a) else m[x].prev)
      && l.first == (if x == p && prev == None then Some(a) else m[x].first)
      && l.last == (if x == p && next == None then Some(a) else m[x].last)
  {
  }

  lemma {:induction false} WithAt(s: seq<Id>, i: nat, a: Id, k: int)
    requires i <= |s|
    ensures |With(s, i, a)| == |s| + 1
    ensures At(With(s, i, a), k) == if k < i then At(s, k) else if k == i then Some(a) else At(s, k - 1)
  {
  }

  lemma {:induction false} WithOk(s: seq<Id>, i: nat, a: Id)
    requires i <= |s| && Distinct(s) && a !in s
    ensures Distinct(With(s, i, a)) && a in With(s, i, a)
    ensures forall x :: x in s ==> x in With(s, i, a)
  {
    var t := With(s, i, a);
    assert t[i] == a;
    assert forall k :: 0 <= k < |t| && k != i ==> t[k] == s[if k < i then k else k - 1];
    forall x | x in s ensures x in t {
      var k :| 0 <= k < |s| && s[k] == x;
      assert t[if k < i then k else k + 1] == x;
    }
  }

  /** `p` is not `a` and not below it: some set of nodes holds `p`, is closed under parents, and does
      not hold `a`. */
  ghost predicate NotBelow(d: Dom, p: Id, a: Id, above: set<Id>) {
    && p in above && a !in above
    && forall x :: x in above ==> x in d.links && (d.links[x].parent.Some? ==> d.links[x].parent.value in above)
  }

  /** `path` leads from a node to its parent, to that one's parent and so on. */
  ghost predicate Upwards(d: Dom, path: seq<Id>) {
    && path != [] && (forall i :: 0 <= i < |path| ==> path[i] in d.links)
    && forall i :: 0 <= i < |path| - 1 ==> d.links[path[i]].parent == Some(path[i + 1])
  }

  /** `a` is `p` itself or one of its ancestors. */
  ghost predicate AtOrAbove(d: Dom, a: Id, p: Id) {
    exists path :: Upwards(d, path) && path[0] == p && path[|path| - 1] == a
  }

  /** A set as `NotBelow` wants it can be found for every node that is neither `p` nor above `p`, and
      for no other. */
  lemma {:induction false} NotBelowIff(d: Dom, p: Id, a: Id)
    requires Valid(d) && p in d.links
    ensures (exists above :: NotBelow(d, p, a, above)) <==> !AtOrAbove(d, a, p)
  {
    hide NodesOk;
    if above :| NotBelow(d, p, a, above) {
      forall path | Upwards(d, path) && path[0] == p ensures path[|path| - 1] != a {
        StaysIn(d, p, a, above, path, |path| - 1);
      }
    }
    if !AtOrAbove(d, a, p) {
      var above := set x | x in d.links && AtOrAbove(d, x, p);
      assert Upwards(d, [p]) && [p][|[p]| - 1] == p;
      forall x | x in above && d.links[x].parent.Some? ensures d.links[x].parent.value in above {
        ParentAbove(d, p, x);
      }
      assert NotBelow(d, p, a, above);
    }
  }

  lemma {:induction false} StaysIn(d: Dom, p: Id, a: Id, above: set<Id>, path: seq<Id>, i: nat)
    requires NotBelow(d, p, a, above) && Upwards(d, path) && path[0] == p && i < |path|
    ensures path[i] in above
  {
    if i > 0 {
      StaysIn(d, p, a, above, path, i - 1);
      assert d.links[path[i - 1]].parent == Some(path[i]);
    }
  }

  lemma {:induction false} ParentAbove(d: Dom, p: Id, x: Id)
    requires Valid(d) && x in d.links && d.links[x].parent.Some? && AtOrAbove(d, x, p)
    ensures d.links[x].parent.value in d.links && AtOrAbove(d, d.links[x].parent.value, p)
  {
    hide NodesOk;
    Node(d, x);
    var path :| Upwards(d, path) && path[0] == p && path[|path| - 1] == x;
    var longer := path + [d.links[x].parent.value];
    forall i | 0 <= i < |longer| - 1 ensures d.links[longer[i]].parent == Some(longer[i + 1]) {
      if i < |path| - 1 { assert d.links[path[i]].parent == Some(path[i + 1]); }
    }
    assert Upwards(d, longer) && longer[0] == p && longer[|longer| - 1] == d.links[x].parent.value;
  }

  /** The node `a` is in no list, and child list `p` has room at `i`. */
  ghost predicate LinkReady(d: Dom, p: Id, a: Id, i: nat) {
    Valid(d) && p in d.links && a in d.links && a != p && d.links[a].parent == None && i <= |d.kids[p]|
  }

  function Raised(rank: map<Id, nat>, above: set<Id>, height: nat): map<Id, nat> {
    map x | x in rank :: if x in above then rank[x] + height else rank[x]
  }

  lemma {:induction false} NewNeighbours(d: Dom, p: Id, a: Id, i: nat)
    requires LinkReady(d, p, a, i)
    ensures var s := d.kids[p];
      && a !in s
      && (i > 0 ==> s[i - 1] in d.links && s[i - 1] != a && s[i - 1] != p)
      && (i < |s| ==> s[i] in d.links && s[i] != a && s[i] != p)
  {
    hide NodesOk;
    var s := d.kids[p];
    forall k | 0 <= k < |s| ensures s[k] != a { Above(d, p, k); }
    if i > 0 { Above(d, p, i - 1); }
    if i < |s| { Above(d, p, i); }
  }

  ghost function LinkedDom(d: Dom, p: Id, a: Id, i: nat, above: set<Id>): Dom
    requires LinkReady(d, p, a, i)
  {
    NewNeighbours(d, p, a, i);
    var s := d.kids[p];
    Dom(Linked(d.links, p, a, At(s, i - 1), At(s, i)), d.kids[p := With(s, i, a)], Raised(d.rank, above, d.rank[a] + 1))
  }

  /** The fields of each node after linking. */
  lemma {:induction false} LinkFields(d: Dom, p: Id, a: Id, i: nat, above: set<Id>, x: Id)
    requires LinkReady(d, p, a, i) && x in d.links
    ensures var l, s := LinkedDom(d, p, a, i, above).links, d.kids[p];
      && l.Keys == d.links.Keys
      && l[x].parent == (if x == a then Some(p) else d.links[x].parent)
      && l[x].next == (if x == a then At(s, i) else if At(s, i - 1) == Some(x) then Some(a) else d.links[x].next)
      && l[x].prev == (if x == a then At(s, i - 1) else if At(s, i) == Some(x) then Some(a) else d.links[x].prev)
      && l[x].first == (if x == p && i == 0 then Some(a) else d.links[x].first)
      && l[x].last == (if x == p && i == |s| then Some(a) else d.links[x].last)
  {
    hide NodesOk;
    NewNeighbours(d, p, a, i);
    var s := d.kids[p];
    LinkedFields(d.links, p, a, At(s, i - 1), At(s, i), x);
    hide Linked;
  }

  lemma {:induction false} LinkKeys(d: Dom, p: Id, a: Id, i: nat, above: set<Id>)
    requires LinkReady(d, p, a, i)
    ensures var d' := LinkedDom(d, p, a, i, above);
      && d'.kids.Keys == d'.links.Keys == d'.rank.Keys == d.links.Keys
      && d'.kids[p] == With(d.kids[p], i, a) && forall n :: n in d.links && n != p ==> d'.kids[n] == d.kids[n]
  {
    LinkFields(d, p, a, i, above, p);
    hide NodesOk, Linked, With;
  }

  lemma {:induction false} LinkChild(d: Dom, p: Id, a: Id, i: nat, above: set<Id>, k: nat)
    requires LinkReady(d, p, a, i) && k <= |d.kids[p]|
    ensures |With(d.kids[p], i, a)| == |d.kids[p]| + 1
    ensures ChildIn(LinkedDom(d, p, a, i, above).links, With(d.kids[p], i, a), p, k)
  {
    hide NodesOk, LinkedDom, With;
    var s := d.kids[p];
    WithAt(s, i, a, k);
    WithAt(s, i, a, k - 1);
    WithAt(s, i, a, k + 1);
    if k == i {
      LinkFields(d, p, a, i, above, a);
    } else {
      var j := if k < i then k else k - 1;
      ChildAt(d, p, j);
      LinkFields(d, p, a, i, above, s[j]);
      SameIndex(s, j, i - 1);
      SameIndex(s, j, i);
      NewNeighbours(d, p, a, i);
    }
  }

  lemma {:induction false} LinkOwnList(d: Dom, p: Id, a: Id, i: nat, above: set<Id>)
    requires LinkReady(d, p, a, i)
    ensures var d' := LinkedDom(d, p, a, i, above); p in d'.links && p in d'.kids && ListOk(d', p)
  {
    hide NodesOk;
    var s, d' := d.kids[p], LinkedDom(d, p, a, i, above);
    EndsOf(d, p);
    NewNeighbours(d, p, a, i);
    WithOk(s, i, a);
    WithAt(s, i, a, 0);
    WithAt(s, i, a, |s|);
    LinkFields(d, p, a, i, above, p);
    LinkKeys(d, p, a, i, above);
    hide LinkedDom, With, Distinct, ChildIn;
    forall k | 0 <= k < |s| + 1 ensures ChildOk(d', p, k) {
      LinkChild(d, p, a, i, above, k);
    }
  }

  lemma {:induction false} LinkElsewhere(d: Dom, p: Id, a: Id, i: nat, above: set<Id>, x: Id)
    requires LinkReady(d, p, a, i) && x in d.links && x != a && d.links[x].parent != Some(p)
    ensures var l := LinkedDom(d, p, a, i, above).links;
      x in l && l[x].parent == d.links[x].parent && l[x].prev == d.links[x].prev && l[x].next == d.links[x].next
  {
    hide NodesOk, LinkedDom;
    LinkFields(d, p, a, i, above, x);
    if i > 0 { Above(d, p, i - 1); }
    if i < |d.kids[p]| { Above(d, p, i); }
  }

  lemma {:induction false} LinkOtherList(d: Dom, p: Id, a: Id, i: nat, above: set<Id>, n: Id)
    requires LinkReady(d, p, a, i) && n in d.links && n != p
    ensures var d' := LinkedDom(d, p, a, i, above); n in d'.links && n in d'.kids && ListOk(d', n)
  {
    hide NodesOk, LinkedDom;
    var d' := LinkedDom(d, p, a, i, above);
    LinkKeys(d, p, a, i, above);
    LinkFields(d, p, a, i, above, n);
    Node(d, n);
    forall k | 0 <= k < |d.kids[n]| ensures ChildOk(d', n, k) {
      assert ChildOk(d, n, k);
      LinkElsewhere(d, p, a, i, above, d.kids[n][k]);
    }
  }

  lemma {:induction false} LinkParents(d: Dom, p: Id, a: Id, i: nat, above: set<Id>, x: Id)
    requires LinkReady(d, p, a, i) && NotBelow(d, p, a, above) && x in d.links
    ensures var d' := LinkedDom(d, p, a, i, above);
      d'.kids.Keys == d'.links.Keys == d'.rank.Keys && x in d'.links && ParentOk(d', x)
  {
    hide NodesOk;
    LinkKeys(d, p, a, i, above);
    LinkFields(d, p, a, i, above, x);
    NewNeighbours(d, p, a, i);
    EndsOf(d, p);
    WithOk(d.kids[p], i, a);
    Node(d, x);
    if x != a && d.links[x].parent != Some(p) { LinkElsewhere(d, p, a, i, above, x); }
    hide Linked, With, Distinct;
  }

  /** Linking a detached node keeps the document in order, and a forest, if its new parent is not
      below it. */
  lemma {:induction false} LinkValid(d: Dom, p: Id, a: Id, i: nat, above: set<Id>)
    requires LinkReady(d, p, a, i) && NotBelow(d, p, a, above)
    ensures Valid(LinkedDom(d, p, a, i, above))
  {
    hide LinkedDom, ListOk, ParentOk, NotBelow;
    var d' := LinkedDom(d, p, a, i, above);
    LinkKeys(d, p, a, i, above);
    LinkOwnList(d, p, a, i, above);
    forall n | n in d'.links ensures NodeOk(d', n) {
      if n != p { LinkOtherList(d, p, a, i, above, n); }
      LinkParents(d, p, a, i, above, n);
    }
  }
}
