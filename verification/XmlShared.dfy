/** One buffer for a whole document: the parser leaves a string pair for every name and value, and
    each is decoded in place, over its neighbours' input, when it is first asked for. */
module XmlShared {
  import opened Common
  import opened XmlText
  import opened XmlDoc
  import opened XmlBuffer
  import opened XmlSpans
  import XmlParser

  /** The pairs' ranges, with the terminator each will get, do not overlap. */
  ghost predicate Shared(pairs: seq<StrPair>, buffer: array<char>)
    reads pairs, buffer
  {
    && (forall i :: 0 <= i < |pairs| ==> pairs[i].buffer == buffer && pairs[i].Valid())
    && (forall i, j :: 0 <= i < j < |pairs| ==> pairs[i].end < pairs[j].start)
  }

  /** What the pairs stand for. */
  ghost predicate Stand(pairs: seq<StrPair>, buffer: array<char>, leaves: seq<string>)
    requires Shared(pairs, buffer)
    reads pairs, buffer
  {
    |leaves| == |pairs| && forall i :: 0 <= i < |pairs| ==> pairs[i].Value() == leaves[i]
  }

  /** A place in the buffer that belongs to no pair. */
  predicate Outside(pairs: seq<StrPair>, x: nat) {
    forall i :: 0 <= i < |pairs| ==> !(pairs[i].start <= x <= pairs[i].end)
  }

  /** Decoding one string leaves all others, and the text between and behind them, as they are. */
  method Fetch(pairs: seq<StrPair>, buffer: array<char>, k: nat, ghost leaves: seq<string>)
    requires k < |pairs| && Shared(pairs, buffer) && Stand(pairs, buffer, leaves)
    modifies pairs[k], buffer
    ensures Shared(pairs, buffer) && Stand(pairs, buffer, leaves) && !pairs[k].needsFlush
    ensures pairs[k].View() == leaves[k]
    ensures forall x :: 0 <= x < buffer.Length && Outside(pairs, x) ==> buffer[x] == old(buffer[x])
  {
    hide CString, Decode, Meaning;
    pairs[k].GetStr();
    forall i | 0 <= i < |pairs| ensures pairs[i].Valid() && pairs[i].Value() == leaves[i] {
      if i != k {
        assert pairs[i] != pairs[k];
        assert buffer[pairs[i].start..pairs[i].end + 1] == old(buffer[pairs[i].start..pairs[i].end + 1]);
        assert buffer[pairs[i].start..pairs[i].end] == old(buffer[pairs[i].start..pairs[i].end]);
      }
    }
  }

  /** The characters from a place on, up to the first '\0'. */
  method ReadCString(buffer: array<char>, start: nat, end: nat) returns (s: string)
    requires start <= end < buffer.Length && '\0' in buffer[start..end + 1]
    ensures s == CString(buffer[start..end + 1])
  {
    hide CString;
    s := "";
    var i := start;
    assert buffer[start..start] == "";
    ghost var z :| 0 <= z < |buffer[start..end + 1]| && buffer[start..end + 1][z] == '\0';
    while buffer[i] != '\0'
      invariant start <= i <= start + z <= end && buffer[start + z] == '\0' && s == buffer[start..i] && '\0' !in s
      decreases end - i
    {
      assert buffer[start..i + 1] == buffer[start..i] + [buffer[i]];
      s := s + [buffer[i]];
      i := i + 1;
    }
    assert buffer[start..end + 1][..|s|] == s && buffer[start..end + 1][|s|] == buffer[i];
    Terminated(buffer[start..end + 1], s);
  }

  /** Reading the strings of a document in any order, any of them any number of times, delivers the
      values they stood for at the start, and leaves everything else in the buffer alone. */
  method ReadAll(pairs: seq<StrPair>, buffer: array<char>, order: seq<nat>, ghost leaves: seq<string>)
    returns (values: seq<string>)
    requires Shared(pairs, buffer) && Stand(pairs, buffer, leaves)
    requires forall k :: 0 <= k < |order| ==> order[k] < |pairs|
    modifies pairs, buffer
    ensures Shared(pairs, buffer) && Stand(pairs, buffer, leaves)
    ensures |values| == |order| && forall k :: 0 <= k < |order| ==> values[k] == leaves[order[k]]
    ensures forall x :: 0 <= x < buffer.Length && Outside(pairs, x) ==> buffer[x] == old(buffer[x])
  {
    hide *;
    StandLength(pairs, buffer, leaves);
    values := [];
    for k := 0 to |order|
      invariant Shared(pairs, buffer) && Stand(pairs, buffer, leaves)
      invariant |leaves| == |pairs| && |values| == k && forall j :: 0 <= j < k ==> values[j] == leaves[order[j]]
      invariant forall x :: 0 <= x < buffer.Length && Outside(pairs, x) ==> buffer[x] == old(buffer[x])
    {
      var pair := pairs[order[k]];
      Fetch(pairs, buffer, order[k], leaves);
      InShared(pairs, buffer, order[k]);
      var value := ReadCString(buffer, pair.start, pair.end);
      values := values + [value];
    }
  }

  lemma {:induction false} StandLength(pairs: seq<StrPair>, buffer: array<char>, leaves: seq<string>)
    requires Shared(pairs, buffer) && Stand(pairs, buffer, leaves)
    ensures |leaves| == |pairs|
  {
  }

  lemma {:induction false} InShared(pairs: seq<StrPair>, buffer: array<char>, k: nat)
    requires k < |pairs| && Shared(pairs, buffer)
    ensures pairs[k].buffer == buffer && pairs[k].Valid() && pairs[k].start <= pairs[k].end < buffer.Length
    ensures pairs[k].View() == CString(buffer[pairs[k].start..pairs[k].end + 1])
    ensures !pairs[k].needsFlush ==> '\0' in buffer[pairs[k].start..pairs[k].end + 1]
  {
  }

  /** The indices below `k`, in order. */
  function Below(order: seq<nat>, k: nat): (r: seq<nat>)
    ensures forall i :: 0 <= i < |r| ==> r[i] < k
  {
    if order == [] then []
    else if order[0] < k then [order[0]] + Below(order[1..], k)
    else Below(order[1..], k)
  }

  /** Parsing a text leaves one buffer and a pair for each string of the document, in order, that
      stands for that string. While the parse goes on, strings in front of the cursor may be decoded in
      the buffer, as the code does with names: those in `early[k]` once the text in front of string
      `k` is scanned. `unread[k]` is what the buffer then holds behind the strings found so far, and
      so all that the parse still looks at: it is the text as it was. */
  method Load(text: string, early: seq<seq<nat>>)
    returns (error: Option<XmlError>, document: Document, pairs: seq<StrPair>, buffer: array<char>,
      ghost unread: seq<string>)
    ensures fresh(buffer) && fresh(pairs) && Shared(pairs, buffer) && |unread| == |pairs|
    ensures forall k :: 0 <= k < |pairs| ==>
      Edge(pairs, k) <= |CString(text)| && unread[k] == CString(text)[Edge(pairs, k)..]
    ensures match Parse(text)
      case ParseFail(e) => error == Some(e)
      case ParseOk(d) => error == None && document == d && Stand(pairs, buffer, ListLeaves(d.children))
  {
    hide CString, Decode, Meaning, Parse, Read, ListLeaves;
    var parser := new XmlParser.Parser(text);
    var spans;
    document, spans := parser.ParseDocument(text);
    error := parser.error;
    var b := parser.buffer;
    buffer := new char[|b| + 1](i => if 0 <= i < |b| then b[i] else '\0');
    pairs, unread := [], [];
    if error.Some? { return; }
    pairs, unread := Attach(b, buffer, spans, early, ListLeaves(document.children));
  }

  /** The first place behind the first `k` pairs. */
  function Edge(pairs: seq<StrPair>, k: nat): nat
    requires k <= |pairs|
  {
    if k == 0 then 0 else pairs[k - 1].end + 1
  }

  /** The pairs for the first `k` spans. */
  ghost predicate Attached(pairs: seq<StrPair>, spans: seq<Span>, k: nat) {
    && |pairs| == k <= |spans|
    && forall i :: 0 <= i < k ==> pairs[i].start == spans[i].start && pairs[i].end == spans[i].end
  }

  method Attach(b: CText, buffer: array<char>, spans: seq<Span>, early: seq<seq<nat>>, ghost leaves: seq<string>)
    returns (pairs: seq<StrPair>, ghost unread: seq<string>)
    requires buffer.Length == |b| + 1 && (forall x :: 0 <= x < |b| ==> buffer[x] == b[x])
    requires Laid(b, spans, 0, |b|, leaves)
    modifies buffer
    ensures fresh(pairs) && Shared(pairs, buffer) && Stand(pairs, buffer, leaves) && |unread| == |pairs|
    ensures forall k :: 0 <= k < |pairs| ==> Edge(pairs, k) <= |b| && unread[k] == b[Edge(pairs, k)..]
  {
    hide CString, Decode, Meaning, Laid, Shared, Stand;
    pairs, unread := [], [];
    NoPairs(buffer, leaves);
    LaidLength(b, spans, leaves);
    for k := 0 to |spans|
      invariant fresh(pairs) && |unread| == k && Attached(pairs, spans, k)
      invariant Shared(pairs, buffer) && Stand(pairs, buffer, leaves[..k])
      invariant forall x :: Edge(pairs, k) <= x < |b| ==> buffer[x] == b[x]
      invariant forall i :: 0 <= i < k ==> Edge(pairs, i) <= |b| && unread[i] == b[Edge(pairs, i)..]
    {
      if k < |early| {
        BehindIsOutside(b, pairs, spans, k, leaves);
        var values := ReadAll(pairs, buffer, Below(early[k], k), leaves[..k]);
      }
      var s := spans[k];
      NextSpan(b, pairs, spans, k, leaves);
      SameText(buffer, b, Edge(pairs, k), s.start, s.end);
      unread := unread + [buffer[Edge(pairs, k)..|b|]];
      var pair := new StrPair(buffer, s.start, s.end, s.flags);
      OneMore(pairs, pair, buffer, b, s, leaves, k);
      pairs := pairs + [pair];
    }
    assert leaves[..|spans|] == leaves;
  }

  lemma {:induction false} NoPairs(buffer: array<char>, leaves: seq<string>)
    ensures Shared([], buffer) && Stand([], buffer, leaves[..0])
  {
  }

  lemma {:induction false} LaidLength(b: string, spans: seq<Span>, leaves: seq<string>)
    requires Laid(b, spans, 0, |b|, leaves)
    ensures |spans| == |leaves|
  {
  }

  lemma {:induction false} BehindIsOutside(b: string, pairs: seq<StrPair>, spans: seq<Span>, k: nat,
      leaves: seq<string>)
    requires Attached(pairs, spans, k) && Laid(b, spans, 0, |b|, leaves)
    ensures forall x :: x >= Edge(pairs, k) ==> Outside(pairs, x)
  {
    forall i | 0 <= i < k ensures pairs[i].end <= Edge(pairs, k) - 1 {
      assert SpanAt(b, spans[k - 1], 0, |b|, leaves[k - 1]);
      if i < k - 1 { assert spans[i].end < spans[k - 1].start; }
    }
  }

  lemma {:induction false} NextSpan(b: string, pairs: seq<StrPair>, spans: seq<Span>, k: nat, leaves: seq<string>)
    requires Attached(pairs, spans, k) && k < |spans| == |leaves| && Laid(b, spans, 0, |b|, leaves)
    ensures Edge(pairs, k) <= spans[k].start <= spans[k].end <= |b| && Read(b, spans[k]) == leaves[k]
    ensures forall i :: 0 <= i < k ==> pairs[i].end < spans[k].start
  {
    hide Read;
    assert SpanAt(b, spans[k], 0, |b|, leaves[k]);
  }

  lemma {:induction false} SameText(buffer: array<char>, b: CText, e: nat, i: nat, j: nat)
    requires e <= i <= j <= |b| < buffer.Length && forall x :: e <= x < |b| ==> buffer[x] == b[x]
    ensures buffer[i..j] == b[i..j] && '\0' !in buffer[i..j] && buffer[e..|b|] == b[e..]
  {
    assert forall x :: 0 <= x < j - i ==> b[i..j][x] == b[i + x];
  }

  /** One more pair behind the others. */
  lemma {:induction false} OneMore(pairs: seq<StrPair>, pair: StrPair, buffer: array<char>, b: string, s: Span,
      leaves: seq<string>, k: nat)
    requires Shared(pairs, buffer) && k == |pairs| < |leaves| && Stand(pairs, buffer, leaves[..k])
    requires pair.buffer == buffer && pair.start == s.start && pair.end == s.end && pair.flags == s.flags
    requires pair.needsFlush && pair.Valid() && forall i :: 0 <= i < k ==> pairs[i].end < s.start
    requires s.start <= s.end <= |b| && buffer[s.start..s.end] == b[s.start..s.end] && Read(b, s) == leaves[k]
    ensures Shared(pairs + [pair], buffer) && Stand(pairs + [pair], buffer, leaves[..k + 1])
  {
    hide CString, Meaning;
    var now := pairs + [pair];
    forall i | 0 <= i < |now|
      ensures now[i].buffer == buffer && now[i].Valid() && now[i].Value() == leaves[..k + 1][i]
    {
      if i < k { assert now[i] == pairs[i] && leaves[..k][i] == leaves[i]; }
    }
  }
}
