/** `XMLPrinter` in compact mode: a streaming printer that delays the ">" of a start tag until it
    knows whether the element has content, proved against the printing functions of `XmlDoc`. */
module XmlPrinter {
  import opened Common
  import opened XmlText
  import opened XmlDoc

  /** `Write(const char*, int)` takes at most this many bytes at a time. */
  const INT_MAX: nat := 0x7fff_ffff

  /** The length of the last stretch of `v` without a character to escape. */
  function TrailingRun(v: string, restricted: bool): (n: nat)
    ensures n <= |v|
    ensures forall i :: |v| - n <= i < |v| ==> !IsEscaped(v[i], restricted)
    ensures n < |v| ==> IsEscaped(v[|v| - n - 1], restricted)
  {
    if v == "" || IsEscaped(v[|v| - 1], restricted) then 0 else 1 + TrailingRun(v[..|v| - 1], restricted)
  }

  /** What `PrintString` writes. Runs before an escaped character are flushed in a loop, but the
      trailing run by a single write. */
  function Printed(v: string, restricted: bool): string {
    var n := TrailingRun(v, restricted);
    Escape(v[..|v| - n], restricted) + v[|v| - n..][..if n <= INT_MAX then n else INT_MAX]
  }

  lemma {:induction false} EscapeAppend(a: string, b: string, restricted: bool)
    ensures Escape(a + b, restricted) == Escape(a, restricted) + Escape(b, restricted)
  {
    if a == "" {
      assert a + b == b;
    } else {
      assert (a + b)[1..] == a[1..] + b;
      EscapeAppend(a[1..], b, restricted);
      Assoc(EscapeChar(a[0], restricted), Escape(a[1..], restricted), Escape(b, restricted));
    }
  }

  lemma {:induction false} EscapeRun(v: string, restricted: bool)
    requires forall i :: 0 <= i < |v| ==> !IsEscaped(v[i], restricted)
    ensures Escape(v, restricted) == v
  {
    if v != "" {
      assert v == [v[0]] + v[1..];
      EscapeRun(v[1..], restricted);
    }
  }

  lemma {:induction false} EscapeSplit(v: string, k: nat, restricted: bool)
    requires k <= |v| && forall i :: k <= i < |v| ==> !IsEscaped(v[i], restricted)
    ensures Escape(v, restricted) == Escape(v[..k], restricted) + v[k..]
  {
    EscapeRun(v[k..], restricted);
    hide *;
    EscapeAppend(v[..k], v[k..], restricted);
    assert v == v[..k] + v[k..];
  }

  /** A string is printed in full exactly when its trailing run fits in an `int`. */
  lemma {:induction false} PrintedIff(v: string, restricted: bool)
    ensures Printed(v, restricted) == Escape(v, restricted) <==> TrailingRun(v, restricted) <= INT_MAX
  {
    var n := TrailingRun(v, restricted);
    EscapeSplit(v, |v| - n, restricted);
    PrintedParts(v, restricted);
    hide *;
    Cut(Printed(v, restricted), Escape(v, restricted), Escape(v[..|v| - n], restricted), v[|v| - n..],
      if n <= INT_MAX then n else INT_MAX);
  }

  lemma {:induction false} Cut(cut: string, whole: string, a: string, b: string, m: nat)
    requires m <= |b| && cut == a + b[..m] && whole == a + b
    ensures cut == whole <==> m == |b|
  {
    if m == |b| {
      assert b[..m] == b;
    } else {
      assert |cut| < |whole|;
    }
  }

  lemma {:induction false} PrintedParts(v: string, restricted: bool)
    ensures var n := TrailingRun(v, restricted);
            Printed(v, restricted) ==
              Escape(v[..|v| - n], restricted) + v[|v| - n..][..if n <= INT_MAX then n else INT_MAX]
  {
    hide Escape, TrailingRun;
  }

  // ----- what is lost -----

  /** A string without the part of its trailing run that is not written. */
  function Clip(v: string, restricted: bool): string {
    var n := TrailingRun(v, restricted);
    if n <= INT_MAX then v else v[..|v| - n + INT_MAX]
  }

  lemma {:induction false} PrintedIsClip(v: string, restricted: bool)
    ensures Printed(v, restricted) == Escape(Clip(v, restricted), restricted)
  {
    var n := TrailingRun(v, restricted);
    if n <= INT_MAX {
      PrintedIff(v, restricted);
    } else {
      var c := Clip(v, restricted);
      assert forall i :: |v| - n <= i < |c| ==> c[i] == v[i];
      EscapeSplit(c, |v| - n, restricted);
      assert c[..|v| - n] == v[..|v| - n] && c[|v| - n..] == v[|v| - n..][..INT_MAX];
    }
  }

  function ClipAttribute(a: Attribute): Attribute {
    a.(value := Clip(a.value, false))
  }

  function ClipAttributes(xs: seq<Attribute>): seq<Attribute> {
    seq(|xs|, i requires 0 <= i < |xs| => ClipAttribute(xs[i]))
  }

  /** The tree with all its escaped strings clipped. */
  function ClipNode(n: Node): (r: Node)
    ensures r.Element? == n.Element?
  {
    match n
    case Element(name, attributes, children) => Element(name, ClipAttributes(attributes), ClipNodes(children))
    case Text(value, cdata) => if cdata then n else Text(Clip(value, true), false)
    case _ => n
  }

  function ClipNodes(ns: seq<Node>): (r: seq<Node>)
    ensures |r| == |ns| && forall i :: 0 <= i < |ns| ==> r[i] == ClipNode(ns[i])
  {
    if ns == [] then [] else [ClipNode(ns[0])] + ClipNodes(ns[1..])
  }

  function ClipDocument(doc: Document): Document {
    doc.(children := ClipNodes(doc.children))
  }

  /** Every string in the tree has a trailing run that `PrintString` writes in full. */
  predicate Fits(n: Node) {
    match n
    case Element(_, attributes, children) =>
      && (forall i :: 0 <= i < |attributes| ==> TrailingRun(attributes[i].value, false) <= INT_MAX)
      && forall i :: 0 <= i < |children| ==> Fits(children[i])
    case Text(value, cdata) => cdata || TrailingRun(value, true) <= INT_MAX
    case _ => true
  }

  lemma {:induction false} ClipIff(v: string, restricted: bool)
    ensures Clip(v, restricted) == v <==> TrailingRun(v, restricted) <= INT_MAX
  {
    hide TrailingRun;
  }

  lemma {:induction false} ClipAttributesIff(xs: seq<Attribute>)
    ensures ClipAttributes(xs) == xs <==> forall i :: 0 <= i < |xs| ==> TrailingRun(xs[i].value, false) <= INT_MAX
  {
    var r := ClipAttributes(xs);
    forall i | 0 <= i < |xs| ensures r[i] == xs[i] <==> TrailingRun(xs[i].value, false) <= INT_MAX {
      ClipIff(xs[i].value, false);
    }
    hide ClipAttributes, TrailingRun;
    if forall i :: 0 <= i < |xs| ==> r[i] == xs[i] { assert r == xs; }
  }

  /** Nothing is lost exactly from a tree that fits. */
  lemma {:induction false} ClipNodeIff(n: Node)
    ensures ClipNode(n) == n <==> Fits(n)
    decreases n, 1
  {
    match n
    case Element(name, attributes, children) =>
      ClipAttributesIff(attributes);
      ClipNodesIff(n, children);
    case Text(value, cdata) =>
      ClipIff(value, true);
    case _ =>
  }

  lemma {:induction false} ClipNodesIff(parent: Node, ns: seq<Node>)
    requires forall i :: 0 <= i < |ns| ==> ns[i] < parent
    ensures ClipNodes(ns) == ns <==> forall i :: 0 <= i < |ns| ==> Fits(ns[i])
    decreases parent, 0
  {
    forall i | 0 <= i < |ns| ensures ClipNodes(ns)[i] == ns[i] <==> Fits(ns[i]) { ClipNodeIff(ns[i]); }
    hide ClipNodes, Fits, ClipNode;
    if forall i :: 0 <= i < |ns| ==> ClipNodes(ns)[i] == ns[i] { assert ClipNodes(ns) == ns; }
  }

  lemma {:induction false} ClipDocumentIff(doc: Document)
    ensures ClipDocument(doc) == doc <==> forall i :: 0 <= i < |doc.children| ==> Fits(doc.children[i])
  {
    var ns := doc.children;
    forall i | 0 <= i < |ns| ensures ClipNodes(ns)[i] == ns[i] <==> Fits(ns[i]) { ClipNodeIff(ns[i]); }
    hide ClipNodes, Fits, ClipNode;
    if forall i :: 0 <= i < |ns| ==> ClipNodes(ns)[i] == ns[i] { assert ClipNodes(ns) == ns; }
  }

  // ----- short output -----

  lemma {:induction false} EscapeLonger(v: string, restricted: bool)
    ensures |Escape(v, restricted)| >= |v|
  {
    if v != "" { EscapeLonger(v[1..], restricted); }
  }

  lemma {:induction false} ClippedPrint(v: string, restricted: bool)
    requires TrailingRun(v, restricted) > INT_MAX
    ensures |Escape(Clip(v, restricted), restricted)| >= INT_MAX
  {
    hide Escape, TrailingRun;
    EscapeLonger(Clip(v, restricted), restricted);
  }

  lemma {:induction false} AttributeInPrint(xs: seq<Attribute>, i: nat)
    requires i < |xs|
    ensures |PrintAttributes(xs)| >= |Escape(xs[i].value, false)|
  {
    hide Escape;
    if i > 0 { AttributeInPrint(xs[1..], i - 1); }
  }

  lemma {:induction false} NodeInPrint(ns: seq<Node>, i: nat)
    requires i < |ns|
    ensures |PrintNodes(ns)| >= |PrintNode(ns[i])|
  {
    hide PrintNode;
    if i > 0 { NodeInPrint(ns[1..], i - 1); }
  }

  /** Where something is clipped, the output has `INT_MAX` bytes at least. */
  lemma {:induction false} ClippedIsLong(n: Node)
    requires !Fits(n)
    ensures |PrintNode(ClipNode(n))| >= INT_MAX
  {
    if n.Text? {
      hide Escape, Clip, TrailingRun;
      ClippedPrint(n.value, true);
    } else {
      ClippedElement(n);
    }
  }

  lemma {:induction false} ElementLength(n: Node)
    requires n.Element?
    ensures |PrintNode(n)| >= |PrintAttributes(n.attributes)|
    ensures |PrintNode(n)| >= |PrintNodes(n.children)|
  {
    hide PrintAttributes;
  }

  lemma {:induction false} ClippedElement(n: Node)
    requires n.Element? && !Fits(n)
    ensures |PrintNode(ClipNode(n))| >= INT_MAX
    decreases n, 0
  {
    var c := ClipNode(n);
    ElementLength(c);
    if i :| 0 <= i < |n.attributes| && TrailingRun(n.attributes[i].value, false) > INT_MAX {
      hide Escape, Clip, TrailingRun, PrintNode;
      ClippedPrint(n.attributes[i].value, false);
      AttributeInPrint(c.attributes, i);
    } else {
      var i :| 0 <= i < |n.children| && !Fits(n.children[i]);
      ClippedIsLong(n.children[i]);
      hide Fits, PrintNode;
      NodeInPrint(c.children, i);
    }
  }

  /** So a text shorter than that, the most an in-memory printer can hold, is the whole document's. */
  lemma {:induction false} ShortIsWhole(doc: Document)
    requires |Print(ClipDocument(doc))| < INT_MAX
    ensures ClipDocument(doc) == doc
  {
    ClipDocumentIff(doc);
    forall i | 0 <= i < |doc.children| ensures Fits(doc.children[i]) {
      if !Fits(doc.children[i]) {
        ClippedIsLong(doc.children[i]);
        hide Fits, ClipNode, PrintNode, PrintNodes;
        NodeInPrint(ClipNodes(doc.children), i);
      }
    }
  }

  /** Printing a list, from its last element. */
  lemma {:induction false} PrintNodesSnoc(ns: seq<Node>, n: Node)
    ensures PrintNodes(ns + [n]) == PrintNodes(ns) + PrintNode(n)
  {
    hide PrintNode;
    if ns == [] {
      assert ns + [n] == [n] && [n][1..] == [];
    } else {
      assert (ns + [n])[1..] == ns[1..] + [n] && (ns + [n])[0] == ns[0];
      PrintNodesSnoc(ns[1..], n);
      Assoc(PrintNode(ns[0]), PrintNodes(ns[1..]), PrintNode(n));
    }
  }

  lemma {:induction false} PrintAttributesSnoc(xs: seq<Attribute>, a: Attribute)
    ensures PrintAttributes(xs + [a]) == PrintAttributes(xs) + AttributeText(a)
  {
    if xs == [] {
      assert xs + [a] == [a] && [a][1..] == [];
      AttributeHead([a]);
    } else {
      AttributeHead(xs);
      AttributeHead(xs + [a]);
      hide *;
      assert (xs + [a])[1..] == xs[1..] + [a] && (xs + [a])[0] == xs[0];
      PrintAttributesSnoc(xs[1..], a);
      Assoc(AttributeText(xs[0]), PrintAttributes(xs[1..]), AttributeText(a));
    }
  }

  function AttributeText(a: Attribute): string {
    " " + a.name + "=\"" + Escape(a.value, false) + "\""
  }

  lemma {:induction false} AttributeHead(xs: seq<Attribute>)
    requires xs != []
    ensures PrintAttributes(xs) == AttributeText(xs[0]) + PrintAttributes(xs[1..])
  {
  }

  class Printer {
    var buffer: string
    var elementJustOpened: bool
    var stack: seq<string>
    var depth: int

    /** The output once the pending start tag, if any, is sealed. */
    ghost function Sealed(): string
      reads this
    {
      if elementJustOpened then buffer + ">" else buffer
    }

    constructor ()
      ensures buffer == "" && !elementJustOpened && stack == [] && depth == 0
    {
      buffer, elementJustOpened, stack, depth := "", false, [], 0;
    }

    method Write(s: string)
      modifies `buffer
      ensures buffer == old(buffer) + s
    {
      buffer := buffer + s;
    }

    /** The search of the entity table for a flagged character. */
    method WriteEntity(c: char)
      requires IsEscaped(c, false)
      modifies `buffer
      ensures buffer == old(buffer) + EntityText(c)
    {
      var i := 0;
      while i < NUM_ENTITIES && EntityAt(i) != c
        invariant 0 <= i <= NUM_ENTITIES
        invariant forall j :: 0 <= j < i ==> EntityAt(j) != c
      {
        i := i + 1;
      }
      assert EntityAt(0) == c || EntityAt(1) == c || EntityAt(2) == c || EntityAt(3) == c || EntityAt(4) == c;
      Write(EntityText(EntityAt(i)));
    }

    /** The flush of a run, in pieces of at most `INT_MAX` bytes. */
    method Flush(v: string, p: nat, q: nat)
      requires p <= q <= |v|
      modifies `buffer
      ensures buffer == old(buffer) + v[p..q]
    {
      var p' := p;
      while p' < q
        invariant p <= p' <= q
        invariant buffer == old(buffer) + v[p..p']
      {
        var toPrint := if INT_MAX < q - p' then INT_MAX else q - p';
        Write(v[p'..p' + toPrint]);
        Assoc(old(buffer), v[p..p'], v[p'..p' + toPrint]);
        assert v[p..p'] + v[p'..p' + toPrint] == v[p..p' + toPrint];
        p' := p' + toPrint;
      }
    }

    method PrintString(v: string, restricted: bool)
      modifies `buffer
      ensures buffer == old(buffer) + Printed(v, restricted)
    {
      hide Escape, EscapeChar, TrailingRun;
      var p, q := 0, 0;
      assert Escape(v[..0], restricted) == "" by { EscapeRun(v[..0], restricted); }
      while q < |v|
        invariant p <= q <= |v|
        invariant forall i :: p <= i < q ==> !IsEscaped(v[i], restricted)
        invariant p > 0 ==> IsEscaped(v[p - 1], restricted)
        invariant buffer == old(buffer) + Escape(v[..p], restricted)
      {
        if IsEscaped(v[q], restricted) {
          Flush(v, p, q);
          WriteEntity(v[q]);
          RunThenEntity(old(buffer), v, p, q, restricted);
          p := q + 1;
        }
        q := q + 1;
      }
      TrailingIs(v, p, restricted);
      if p < q {
        var toPrint := if INT_MAX < q - p then INT_MAX else q - p;
        Write(v[p..p + toPrint]);
        assert v[p..][..toPrint] == v[p..p + toPrint];
        Assoc(old(buffer), Escape(v[..p], restricted), v[p..p + toPrint]);
      } else {
        assert v[p..][..0] == "";
      }
    }

    method SealElementIfJustOpened()
      modifies `buffer, `elementJustOpened
      ensures buffer == old(Sealed()) && !elementJustOpened
    {
      if !elementJustOpened { return; }
      elementJustOpened := false;
      Write(">");
    }

    method OpenElement(name: string)
      modifies this
      ensures buffer == old(Sealed()) + "<" + name && elementJustOpened
      ensures stack == old(stack) + [name] && depth == old(depth) + 1
    {
      SealElementIfJustOpened();
      stack := stack + [name];
      Write("<");
      Write(name);
      elementJustOpened := true;
      depth := depth + 1;
    }

    method PushAttribute(a: Attribute)
      requires elementJustOpened
      modifies `buffer
      ensures buffer == old(buffer) + AttributeText(ClipAttribute(a))
    {
      hide Printed, Escape, Clip;
      PrintedIsClip(a.value, false);
      Write(" ");
      Write(a.name);
      Write("=\"");
      PrintString(a.value, false);
      Write("\"");
      Pieces(old(buffer), " ", a.name, "=\"", Escape(Clip(a.value, false), false), "\"");
    }

    /** The matching end tag, or the short form if nothing was pushed since the start tag. */
    method CloseElement()
      requires stack != []
      modifies this
      ensures !elementJustOpened && stack == old(stack[..|stack| - 1]) && depth == old(depth) - 1
      ensures old(elementJustOpened) ==> buffer == old(buffer) + "/>"
      ensures !old(elementJustOpened) ==> buffer == old(buffer) + ("</" + old(stack[|stack| - 1]) + ">")
    {
      depth := depth - 1;
      var name := stack[|stack| - 1];
      stack := stack[..|stack| - 1];
      if elementJustOpened {
        Write("/>");
      } else {
        Write("</");
        Write(name);
        Write(">");
        Triple(old(buffer), "</", name, ">");
      }
      elementJustOpened := false;
    }

    method PushText(value: string, cdata: bool)
      modifies `buffer, `elementJustOpened
      ensures buffer == old(Sealed()) + PrintNode(ClipNode(Text(value, cdata))) && !elementJustOpened
    {
      hide Printed, Escape, Clip;
      SealElementIfJustOpened();
      if cdata {
        PushBracketed("<![CDATA[", value, "]]>");
      } else {
        PrintedIsClip(value, true);
        PrintString(value, true);
      }
    }

    /** `PushComment`, `PushDeclaration` and `PushUnknown` differ only in their brackets. */
    method PushBracketed(open: string, value: string, close: string)
      modifies `buffer, `elementJustOpened
      ensures buffer == old(Sealed()) + (open + value + close) && !elementJustOpened
    {
      SealElementIfJustOpened();
      Write(open);
      Write(value);
      Write(close);
      Triple(old(Sealed()), open, value, close);
    }

    /** `XMLNode::Accept` with this visitor: it appends exactly the node's text, clipped, and leaves the
        element stack and the depth as they were. */
    method Accept(n: Node)
      modifies this
      ensures buffer == old(Sealed()) + PrintNode(ClipNode(n)) && !elementJustOpened
      ensures stack == old(stack) && depth == old(depth)
      decreases n, 1
    {
      match n {
        case Element(name, attributes, children) =>
          AcceptElement(n);
        case Text(value, cdata) => PushText(value, cdata);
        case Comment(value) => PushBracketed("<!--", value, "-->");
        case Declaration(value) => PushBracketed("<?", value, "?>");
        case Unknown(value) => PushBracketed("<!", value, ">");
      }
    }

    method AcceptElement(n: Node)
      requires n.Element?
      modifies this
      ensures buffer == old(Sealed()) + PrintNode(ClipNode(n)) && !elementJustOpened
      ensures stack == old(stack) && depth == old(depth)
      decreases n, 0
    {
      ghost var base, c := Sealed(), ClipNode(n);
      hide ClipNode, ClipNodes, ClipAttributes, PrintNode;
      ClipElement(n);
      EnterElement(n);
      ghost var entered := buffer;
      var i := 0;
      while i < |n.children|
        invariant 0 <= i <= |n.children|
        invariant stack == old(stack) + [n.name] && depth == old(depth) + 1
        invariant i == 0 ==> elementJustOpened && buffer == entered
        invariant i > 0 ==> !elementJustOpened && buffer == entered + ">" + PrintNodes(c.children[..i])
      {
        Accept(n.children[i]);
        assert c.children[..i + 1] == c.children[..i] + [ClipNode(n.children[i])];
        PrintNodesSnoc(c.children[..i], ClipNode(n.children[i]));
        Assoc(entered + ">", PrintNodes(c.children[..i]), PrintNode(ClipNode(n.children[i])));
        i := i + 1;
      }
      assert c.children[..|c.children|] == c.children;
      CloseElement();
      ElementText(base, c);
    }

    method EnterElement(n: Node)
      requires n.Element?
      modifies this
      ensures buffer == old(Sealed()) + "<" + n.name + PrintAttributes(ClipAttributes(n.attributes))
      ensures elementJustOpened
      ensures stack == old(stack) + [n.name] && depth == old(depth) + 1
    {
      hide PrintAttributes, AttributeText, ClipAttribute;
      OpenElement(n.name);
      ghost var base, xs := buffer, ClipAttributes(n.attributes);
      var i := 0;
      assert base == base + PrintAttributes(xs[..0]) by { NoAttributes(xs); }
      while i < |n.attributes|
        invariant 0 <= i <= |n.attributes|
        invariant elementJustOpened && stack == old(stack) + [n.name] && depth == old(depth) + 1
        invariant buffer == base + PrintAttributes(xs[..i])
      {
        PushAttribute(n.attributes[i]);
        assert xs[..i + 1] == xs[..i] + [ClipAttribute(n.attributes[i])];
        PrintAttributesSnoc(xs[..i], ClipAttribute(n.attributes[i]));
        Assoc(base, PrintAttributes(xs[..i]), AttributeText(ClipAttribute(n.attributes[i])));
        i := i + 1;
      }
      assert xs[..|xs|] == xs;
    }

    /** `XMLDocument::Accept` on a fresh printer: the whole text of the document, clipped. */
    method PrintDocument(doc: Document)
      requires !elementJustOpened && buffer == ""
      modifies this
      ensures buffer == Print(ClipDocument(doc)) && stack == old(stack) && depth == old(depth)
    {
      hide ClipNode, ClipNodes, PrintNode;
      if doc.bom { Write(BOM); }
      ghost var base, ns := buffer, ClipNodes(doc.children);
      var i := 0;
      assert base == base + PrintNodes(ns[..0]);
      while i < |doc.children|
        invariant 0 <= i <= |doc.children|
        invariant !elementJustOpened && stack == old(stack) && depth == old(depth)
        invariant buffer == base + PrintNodes(ns[..i])
      {
        Accept(doc.children[i]);
        assert ns[..i + 1] == ns[..i] + [ClipNode(doc.children[i])];
        PrintNodesSnoc(ns[..i], ClipNode(doc.children[i]));
        Assoc(base, PrintNodes(ns[..i]), PrintNode(ClipNode(doc.children[i])));
        i := i + 1;
      }
      assert ns[..|ns|] == ns;
    }
  }

  lemma {:induction false} ClipElement(n: Node)
    requires n.Element?
    ensures var c := ClipNode(n);
      && c.Element?
      && c.name == n.name
      && c.attributes == ClipAttributes(n.attributes)
      && c.children == ClipNodes(n.children)
  {
  }

  lemma {:induction false} NoAttributes(xs: seq<Attribute>)
    ensures PrintAttributes(xs[..0]) == ""
  {
  }

  lemma {:induction false} Triple(b: string, x: string, y: string, z: string)
    ensures b + x + y + z == b + (x + y + z)
  {
  }

  lemma {:induction false} Pieces(b: string, u: string, v: string, w: string, x: string, y: string)
    ensures b + u + v + w + x + y == b + (u + v + w + x + y)
  {
  }

  /** A flushed run and the entity after it. */
  lemma {:induction false} RunThenEntity(b: string, v: string, p: nat, q: nat, restricted: bool)
    requires p <= q < |v| && (forall i :: p <= i < q ==> !IsEscaped(v[i], restricted)) && IsEscaped(v[q], restricted)
    ensures b + Escape(v[..p], restricted) + v[p..q] + EntityText(v[q]) == b + Escape(v[..q + 1], restricted)
  {
    EscapeOne(v[q], restricted);
    assert forall i :: p <= i < q ==> v[..q][i] == v[i];
    EscapeSplit(v[..q], p, restricted);
    hide *;
    assert v[..q][..p] == v[..p] && v[..q][p..] == v[p..q];
    EscapeAppend(v[..q], [v[q]], restricted);
    assert v[..q] + [v[q]] == v[..q + 1];
    Triple(b, Escape(v[..p], restricted), v[p..q], EntityText(v[q]));
  }

  lemma {:induction false} EscapeOne(c: char, restricted: bool)
    requires IsEscaped(c, restricted)
    ensures Escape([c], restricted) == EntityText(c)
  {
    assert [c][1..] == "";
  }

  lemma {:induction false} TrailingIs(v: string, p: nat, restricted: bool)
    requires p <= |v| && (forall i :: p <= i < |v| ==> !IsEscaped(v[i], restricted))
    requires p > 0 ==> IsEscaped(v[p - 1], restricted)
    ensures TrailingRun(v, restricted) == |v| - p
  {
    if p < |v| { TrailingIs(v[..|v| - 1], p, restricted); }
  }

  /** The pieces written for an element add up to its text. */
  lemma {:induction false} ElementText(base: string, n: Node)
    requires n.Element?
    ensures var head := base + "<" + n.name + PrintAttributes(n.attributes);
            && (n.children == [] ==> head + "/>" == base + PrintNode(n))
            && (n.children != [] ==> head + ">" + PrintNodes(n.children) + ("</" + n.name + ">") == base + PrintNode(n))
  {
    var attributes, body, tail := PrintAttributes(n.attributes), PrintNodes(n.children), "</" + n.name + ">";
    if n.children == [] {
      assert PrintNode(n) == "<" + n.name + attributes + "/>";
      hide *;
      Quad(base, "<", n.name, attributes, "/>");
    } else {
      assert PrintNode(n) == "<" + n.name + attributes + (">" + body + tail) by {
        Triple(">" + body, "</", n.name, ">");
      }
      hide *;
      Quad(base, "<", n.name, attributes, ">" + body + tail);
      Triple(base + "<" + n.name + attributes, ">", body, tail);
    }
  }

  lemma {:induction false} Quad(b: string, u: string, v: string, w: string, x: string)
    ensures b + u + v + w + x == b + (u + v + w + x)
  {
  }
}
