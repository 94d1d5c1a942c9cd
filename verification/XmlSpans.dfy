/** Where the strings of a parsed document lie in the buffer. tinyxml2 copies nothing: a name or a
    value is a pair of pointers into the one buffer, and is decoded there when it is first read. */
module XmlSpans {
  import opened XmlText
  import opened XmlDoc
  import opened XmlBuffer

  /** What is in front of the terminator of a C string. */
  type CText = s: string | '\0' !in s

  /** What `StrPair::Set` records. */
  datatype Span = Span(start: nat, end: nat, flags: Flags)

  // ----- the strings of a tree, in document order -----

  function AttributeLeaves(xs: seq<Attribute>): seq<string> {
    if xs == [] then [] else AttributeLeaves(xs[..|xs| - 1]) + [xs[|xs| - 1].name, xs[|xs| - 1].value]
  }

  function Leaves(n: Node): seq<string>
    decreases n, 1
  {
    match n
    case Element(name, attributes, children) => [name] + AttributeLeaves(attributes) + ListLeaves(children)
    case _ => [n.value]
  }

  function ListLeaves(ns: seq<Node>): seq<string>
    decreases ns, 0
  {
    if ns == [] then [] else ListLeaves(ns[..|ns| - 1]) + Leaves(ns[|ns| - 1])
  }

  // ----- spans -----

  /** The value of a span that is not decoded yet. */
  function Read(b: string, s: Span): string
    requires s.start <= s.end <= |b|
  {
    CString(Meaning(b[s.start..s.end], s.flags))
  }

  predicate SpanAt(b: string, s: Span, lo: int, hi: int, leaf: string) {
    lo <= s.start <= s.end <= |b| && s.end <= hi && Read(b, s) == leaf
  }

  /** The spans lie between `lo` and `hi`, in order, not even touching at their ends, and have the
      given values. */
  ghost predicate Laid(b: string, spans: seq<Span>, lo: int, hi: int, leaves: seq<string>) {
    && |spans| == |leaves|
    && (forall i :: 0 <= i < |spans| ==> SpanAt(b, spans[i], lo, hi, leaves[i]))
    && (forall i, j :: 0 <= i < j < |spans| ==> spans[i].end < spans[j].start)
  }

  lemma {:induction false} LaidNone(b: string, lo: int, hi: int)
    ensures Laid(b, [], lo, hi, []) && AttributeLeaves([]) == [] && ListLeaves([]) == []
  {
  }

  lemma {:induction false} LaidOne(b: string, s: Span, lo: int, hi: int, leaf: string)
    requires SpanAt(b, s, lo, hi, leaf)
    ensures Laid(b, [s], lo, hi, [leaf])
  {
  }

  lemma {:induction false} LaidWiden(b: string, s: seq<Span>, lo: int, hi: int, l: seq<string>, lo': int, hi': int)
    requires Laid(b, s, lo, hi, l) && lo' <= lo && hi <= hi'
    ensures Laid(b, s, lo', hi', l)
  {
    forall i | 0 <= i < |s| ensures SpanAt(b, s[i], lo', hi', l[i]) { assert SpanAt(b, s[i], lo, hi, l[i]); }
  }

  lemma {:induction false} LaidJoin(b: string, s: seq<Span>, s': seq<Span>, lo: int, mid: int, from: int, hi: int,
      l: seq<string>, l': seq<string>)
    requires Laid(b, s, lo, mid, l) && Laid(b, s', from, hi, l') && mid < from && lo <= from && mid <= hi
    ensures Laid(b, s + s', lo, hi, l + l')
  {
    var spans, leaves := s + s', l + l';
    forall i | 0 <= i < |spans| ensures SpanAt(b, spans[i], lo, hi, leaves[i]) {
      if i < |s| {
        assert SpanAt(b, s[i], lo, mid, l[i]);
      } else {
        assert SpanAt(b, s'[i - |s|], from, hi, l'[i - |s|]);
      }
    }
    forall i, j | 0 <= i < j < |spans| ensures spans[i].end < spans[j].start {
      if i < |s| <= j {
        assert SpanAt(b, s[i], lo, mid, l[i]) && SpanAt(b, s'[j - |s|], from, hi, l'[j - |s|]);
      } else if i >= |s| {
        assert s'[i - |s|].end < s'[j - |s|].start;
      }
    }
  }

  // ----- the pieces of a document -----

  lemma {:induction false} NameSpan(b: string, p: nat, q: nat, lo: int, hi: int)
    requires lo <= p <= q <= |b| && q <= hi && '\0' !in b
    ensures SpanAt(b, Span(p, q, NoProcessing), lo, hi, b[p..q])
  {
    assert forall i :: 0 <= i < |b[p..q]| ==> b[p..q][i] == b[p + i];
  }

  lemma {:induction false} ValueSpan(b: string, p: nat, q: nat, entities: bool, lo: int, hi: int)
    requires lo <= p <= q <= |b| && q <= hi
    ensures SpanAt(b, Span(p, q, if entities then NewlinesAndEntities else Newlines),
             lo, hi, ValueOf(b[p..q], entities))
  {
    hide CString, Decode;
  }

  lemma {:induction false} AttributeLaid(b: string, x: Span, y: Span, lo: int, mid: int, from: int, hi: int,
      name: string, value: string)
    requires SpanAt(b, x, lo, mid, name) && SpanAt(b, y, from, hi, value) && mid < from && lo <= from && mid <= hi
    ensures Laid(b, [x, y], lo, hi, [name, value])
  {
    hide SpanAt, Laid;
    LaidOne(b, x, lo, mid, name);
    LaidOne(b, y, from, hi, value);
    LaidJoin(b, [x], [y], lo, mid, from, hi, [name], [value]);
    assert [x] + [y] == [x, y] && [name] + [value] == [name, value];
  }

  lemma {:induction false} MoreAttributes(b: string, s: seq<Span>, s': seq<Span>, lo: int, mid: int, from: int,
      hi: int, xs: seq<Attribute>, a: Attribute)
    requires Laid(b, s, lo, mid, AttributeLeaves(xs)) && Laid(b, s', from, hi, [a.name, a.value]) && mid < from
    requires lo <= from && mid <= hi
    ensures Laid(b, s + s', lo, hi, AttributeLeaves(xs + [a]))
  {
    assert (xs + [a])[..|xs|] == xs;
    hide Laid;
    LaidJoin(b, s, s', lo, mid, from, hi, AttributeLeaves(xs), [a.name, a.value]);
  }

  lemma {:induction false} TagLaid(b: string, x: Span, s: seq<Span>, lo: int, mid: int, from: int, hi: int,
      name: string, xs: seq<Attribute>)
    requires SpanAt(b, x, lo, mid, name) && Laid(b, s, from, hi, AttributeLeaves(xs)) && mid < from && lo <= from
    requires mid <= hi
    ensures Laid(b, [x] + s, lo, hi, [name] + AttributeLeaves(xs))
  {
    hide Laid, SpanAt, AttributeLeaves;
    LaidOne(b, x, lo, mid, name);
    LaidJoin(b, [x], s, lo, mid, from, hi, [name], AttributeLeaves(xs));
  }

  lemma {:induction false} ElementLaid(b: string, s: seq<Span>, s': seq<Span>, lo: int, mid: int, from: int, hi: int,
      name: string, xs: seq<Attribute>, ns: seq<Node>)
    requires Laid(b, s, lo, mid, [name] + AttributeLeaves(xs)) && Laid(b, s', from, hi, ListLeaves(ns)) && mid < from
    requires lo <= from && mid <= hi
    ensures Laid(b, s + s', lo, hi, Leaves(Element(name, xs, ns)))
  {
    hide Laid, AttributeLeaves, ListLeaves;
    LaidJoin(b, s, s', lo, mid, from, hi, [name] + AttributeLeaves(xs), ListLeaves(ns));
  }

  lemma {:induction false} EmptyElementLaid(b: string, s: seq<Span>, lo: int, hi: int, name: string, xs: seq<Attribute>)
    requires Laid(b, s, lo, hi, [name] + AttributeLeaves(xs))
    ensures Laid(b, s, lo, hi, Leaves(Element(name, xs, [])))
  {
    hide Laid, AttributeLeaves;
    assert [name] + AttributeLeaves(xs) + [] == [name] + AttributeLeaves(xs);
  }

  lemma {:induction false} LeafLaid(b: string, s: Span, lo: int, hi: int, n: Node)
    requires !n.Element? && SpanAt(b, s, lo, hi, n.value)
    ensures Laid(b, [s], lo, hi, Leaves(n))
  {
    hide Laid, SpanAt;
    LaidOne(b, s, lo, hi, n.value);
  }

  lemma {:induction false} MoreNodes(b: string, s: seq<Span>, s': seq<Span>, lo: int, mid: int, from: int, hi: int,
      ns: seq<Node>, n: Node)
    requires Laid(b, s, lo, mid, ListLeaves(ns)) && Laid(b, s', from, hi, Leaves(n)) && mid < from && lo <= from
    requires mid <= hi
    ensures Laid(b, s + s', lo, hi, ListLeaves(ns + [n]))
  {
    assert (ns + [n])[..|ns|] == ns;
    hide Laid, Leaves;
    LaidJoin(b, s, s', lo, mid, from, hi, ListLeaves(ns), Leaves(n));
  }
}
