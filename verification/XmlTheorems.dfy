/** Document-level results: printing and parsing again normalises a document, and returns it
    unchanged exactly for the documents described by `Printable`. */
module XmlTheorems {
  import opened XmlText
  import opened XmlDoc
  import opened XmlRoundTrip
  import opened XmlOutput

  // ----- when normalisation changes nothing -----

  /** No carriage returns anywhere, and no plain text that is only white space. */
  predicate NodeStable(n: Node)
    decreases n, 1
  {
    match n
    case Element(_, attributes, children) =>
      (forall i :: 0 <= i < |attributes| ==> CR !in attributes[i].value) && ListStable(children)
    case _ => CR !in n.value
  }

  predicate ListStable(ns: seq<Node>)
    decreases ns, 0
  {
    forall i :: 0 <= i < |ns| ==> NodeStable(ns[i]) && !(IsPlainText(ns[i]) && AllSpace(ns[i].value))
  }

  lemma {:induction false} NormalAttributesFix(attributes: seq<Attribute>)
    ensures NormalAttributes(attributes) == attributes <==>
      (forall i :: 0 <= i < |attributes| ==> CR !in attributes[i].value)
  {
    if attributes != [] {
      var a, tail := attributes[0], attributes[1..];
      NormalAttributesFix(tail);
      NormalizeFixpoint(a.value);
      hide Normalize;
      SplitHead(Attribute(a.name, Normalize(a.value)), NormalAttributes(tail), attributes);
    }
  }

  lemma {:induction false} SplitHead<T>(x: T, xs: seq<T>, ys: seq<T>)
    requires ys != []
    ensures [x] + xs == ys <==> x == ys[0] && xs == ys[1..]
  {
    assert ([x] + xs)[1..] == xs;
    assert ys == [ys[0]] + ys[1..];
  }

  lemma {:induction false} NormalNodeFix(n: Node)
    ensures NormalNode(n) == n <==> NodeStable(n)
    decreases n, 1
  {
    if n.Element? {
      NormalAttributesFix(n.attributes);
      NormalListFix(n.children);
    } else {
      NormalizeFixpoint(n.value);
    }
  }

  lemma {:induction false} NormalListShrinks(ns: seq<Node>)
    ensures |NormalList(ns)| <= |ns|
  {
    if ns != [] { NormalListShrinks(ns[1..]); }
  }

  lemma {:induction false} ListStableCons(ns: seq<Node>)
    requires ns != []
    ensures ListStable(ns) <==>
      NodeStable(ns[0]) && !(IsPlainText(ns[0]) && AllSpace(ns[0].value)) && ListStable(ns[1..])
  {
    hide NodeStable, AllSpace;
    assert forall i :: 0 < i < |ns| ==> ns[i] == ns[1..][i - 1];
  }

  lemma {:induction false} NormalListFix(ns: seq<Node>)
    ensures NormalList(ns) == ns <==> ListStable(ns)
    decreases ns, 0
  {
    if ns != [] {
      hide NormalNode, NodeStable, AllSpace, ListStable;
      ListStableCons(ns);
      if IsPlainText(ns[0]) && AllSpace(ns[0].value) {
        NormalListShrinks(ns[1..]);
      } else {
        NormalNodeFix(ns[0]);
        NormalListFix(ns[1..]);
        SplitHead(NormalNode(ns[0]), NormalList(ns[1..]), ns);
      }
    }
  }

  // ----- printed text is a C string -----

  lemma {:induction false} CharNulFree(c: char, restricted: bool)
    requires c != '\0'
    ensures '\0' !in EscapeChar(c, restricted)
  {
  }

  lemma {:induction false} EscapeNulFree(v: string, restricted: bool)
    requires '\0' !in v
    ensures '\0' !in Escape(v, restricted)
  {
    if v != "" {
      EscapeNulFree(v[1..], restricted);
      assert '\0' !in EscapeChar(v[0], restricted) by { CharNulFree(v[0], restricted); }
      hide EscapeChar;
    }
  }

  lemma {:induction false} NameNulFree(name: string)
    requires ValidName(name)
    ensures '\0' !in name
  {
  }

  lemma {:induction false} AttributesPrintNulFree(attributes: seq<Attribute>)
    requires AttributesShape(attributes) && ValuesNulFree(attributes)
    ensures '\0' !in PrintAttributes(attributes)
  {
    if attributes != [] {
      var a := attributes[0];
      AttributesPrintNulFree(attributes[1..]);
      EscapeNulFree(a.value, false);
      NameNulFree(a.name);
      hide Escape;
    }
  }

  lemma {:induction false} NodePrintNulFree(n: Node, depth: nat)
    requires NodeShape(n, depth) && NodeNulFree(n)
    ensures '\0' !in PrintNode(n)
    decreases n, 1
  {
    if n.Element? {
      NameNulFree(n.name);
      AttributesPrintNulFree(n.attributes);
      if n.children != [] { ListPrintNulFree(n.children, depth + 1, false); }
      hide PrintAttributes, PrintNodes;
    } else if IsPlainText(n) {
      EscapeNulFree(n.value, true);
    }
  }

  lemma {:induction false} ListPrintNulFree(ns: seq<Node>, depth: nat, isDocument: bool)
    requires ListShape(ns, depth, isDocument) && ListNulFree(ns)
    ensures '\0' !in PrintNodes(ns)
    decreases ns, 0
  {
    if ns != [] {
      ListTail(ns, depth, isDocument);
      hide NodeShape, NodeNulFree, ListShape, ListNulFree, PrintNode;
      NodePrintNulFree(ns[0], depth);
      ListPrintNulFree(ns[1..], depth, isDocument);
    }
  }

  // ----- plain text at the end of a document -----

  lemma {:induction false} LastTextFails(v: string, depth: nat, acc: seq<Node>)
    requires !AllSpace(v)
    ensures ParseList(Escape(v, true), depth, true, acc) == ListFail(ParsingText)
  {
    var t := Escape(v, true);
    assert t + "" == t;
    TextNotSkipped(v, "");
    hide SkipSpace, Escape, AllSpace;
    TextItem(t, depth);
    LacksChar(t, '<');
    hide ParseItem, FindTag;
  }

  lemma {:induction false} TrailingTextFails(ns: seq<Node>, depth: nat, acc: seq<Node>)
    requires ListShape(ns, depth, true) && ListNulFree(ns) && depth < MAX_ELEMENT_DEPTH && EndsInText(ns)
    requires ns[0].Declaration? ==> AllDeclarations(acc)
    ensures ParseList(SpellList(ns, ""), depth, true, acc).ListFail?
    decreases |ns|
  {
    hide ParseItem, SkipSpace, NodeShape, NodeNulFree, ListShape, ListNulFree, SpellNode, NormalNode, Escape, AllSpace;
    var n, tail, rest := ns[0], ns[1..], SpellList(ns[1..], "");
    ListTail(ns, depth, true);
    if |ns| == 1 {
      SpellText(n, "");
      assert Escape(n.value, true) + "" == Escape(n.value, true);
      LastTextFails(n.value, depth, acc);
    } else if IsPlainText(n) && AllSpace(n.value) {
      AfterText(ns, depth, true, "", "");
      SpellText(n, rest);
      SpaceDrops(n.value, rest, depth, true, acc);
      TrailingTextFails(tail, depth, acc);
    } else {
      ItemParses(ns, depth, true, "", "");
      ListStep(SpellNode(n, rest), NormalNode(n), rest, depth, true, acc);
      TrailingTextFails(tail, depth, acc + [NormalNode(n)]);
    }
  }

  // ----- the start of a document -----

  /** Without a byte order mark, leading plain text must not look like white space or a mark. */
  predicate StartsClean(doc: Document) {
    doc.bom || doc.children == [] || !IsPlainText(doc.children[0]) ||
    var v := doc.children[0].value;
    v != "" && !IsSpace(v[0]) && !(BOM <= v)
  }

  predicate EscapeFree(p: string) {
    '&' !in p && '<' !in p && '>' !in p
  }

  lemma {:induction false} EscapeReflectsPrefix(p: string, v: string, k: string)
    requires EscapeFree(p) && (k == "" || k[0] == '<') && p <= Escape(v, true) + k
    ensures p <= v
  {
    if p != "" {
      assert p[0] in p && p[0] == (Escape(v, true) + k)[0];
      assert v != "" by { EscapeEmpty(k); }
      var e, x := EscapeChar(v[0], true), Escape(v[1..], true) + k;
      EscapeCons(v, k);
      assert (e + x)[0] == e[0];
      assert e == [v[0]];
      Cat(e, x);
      assert p[1..] <= x;
      EscapeReflectsPrefix(p[1..], v[1..], k);
      assert p == [p[0]] + p[1..] && v == [v[0]] + v[1..];
    }
  }

  lemma {:induction false} EscapeKeepsPrefix(p: string, v: string, k: string)
    requires EscapeFree(p) && p <= v
    ensures p <= Escape(v, true) + k
  {
    if p != "" {
      var e, x := EscapeChar(v[0], true), Escape(v[1..], true) + k;
      assert v[0] == p[0] && p[0] in p;
      EscapeCons(v, k);
      assert e == [v[0]];
      EscapeKeepsPrefix(p[1..], v[1..], k);
      PrefixJoins(e, p[1..], x);
      assert p == e + p[1..];
    }
  }

  lemma {:induction false} BomIsPlain()
    ensures EscapeFree(BOM) && '\0' !in BOM && |BOM| == 3 && !IsSpace(BOM[0]) && BOM[0] != '<'
  {
  }

  /** The list with the white space in front of its leading plain text taken off. */
  function Stripped(ns: seq<Node>): seq<Node> {
    if ns == [] || !IsPlainText(ns[0]) then ns
    else
      var v := SkipSpace(ns[0].value);
      if v == "" then ns[1..] else [Text(v, false)] + ns[1..]
  }

  lemma {:induction false} NothingToSkip(k: string)
    requires k == "" || k[0] == '<'
    ensures SkipSpace(k) == k && Escape("", true) == "" && "" + k == k && SkipSpace("") == ""
  {
  }

  lemma {:induction false} SkipEscaped(v: string, k: string)
    requires k == "" || k[0] == '<'
    ensures SkipSpace(Escape(v, true) + k) == Escape(SkipSpace(v), true) + k
  {
    hide *;
    if v == "" {
      NothingToSkip(k);
    } else {
      var e, x := EscapeChar(v[0], true), Escape(v[1..], true) + k;
      EscapeCons(v, k);
      SkipCons(v);
      CharHead(v[0]);
      if IsSpace(v[0]) {
        SkipEscaped(v[1..], k);
        OneSpaceSkips(v[0], x);
      } else {
        HeadSkips(e, x);
      }
    }
  }

  lemma {:induction false} OneSpaceSkips(c: char, x: string)
    requires IsSpace(c)
    ensures SkipSpace([c] + x) == SkipSpace(x)
  {
    assert ([c] + x)[1..] == x;
  }

  lemma {:induction false} SkipCons(v: string)
    ensures SkipSpace(v) == if v != "" && IsSpace(v[0]) then SkipSpace(v[1..]) else v
  {
  }

  lemma {:induction false} SkipToStripped(ns: seq<Node>)
    requires ListShape(ns, 1, true) && ListNulFree(ns)
    ensures SkipSpace(SpellList(ns, "")) == SpellList(Stripped(ns), "")
    ensures ListShape(Stripped(ns), 1, true) && ListNulFree(Stripped(ns))
  {
    if ns != [] {
      ListTail(ns, 1, true);
      var rest := SpellList(ns[1..], "");
      if IsPlainText(ns[0]) {
        AfterText(ns, 1, true, "", "");
        SpellText(ns[0], rest);
        var v := SkipSpace(ns[0].value);
        SkipEscaped(ns[0].value, rest);
        StrippedShape(ns);
        hide SkipSpace, SpellNode, Escape, ListShape, ListNulFree;
        if v != "" {
          SpellText(Text(v, false), rest);
          assert Stripped(ns)[1..] == ns[1..];
        } else {
          EscapeEmpty(rest);
        }
      } else {
        MarkupStarts(ns[0], rest);
        hide SpellNode;
        assert SpellList(ns, "")[0] == '<';
      }
    }
  }

  lemma {:induction false} EscapeEmpty(k: string)
    ensures Escape("", true) + k == k
  {
  }

  lemma {:induction false} StrippedShape(ns: seq<Node>)
    requires ns != [] && IsPlainText(ns[0]) && ListShape(ns, 1, true) && ListNulFree(ns)
    ensures ListShape(Stripped(ns), 1, true) && ListNulFree(Stripped(ns))
  {
    ListTail(ns, 1, true);
    var v := SkipSpace(ns[0].value);
    if v != "" {
      assert '\0' !in v;
      assert NodeShape(Text(v, false), 1) && NodeNulFree(Text(v, false));
      hide SkipSpace, ListShape, ListNulFree, NodeShape, NodeNulFree;
      NoDeclarations(ns);
      ReplaceText(Text(v, false), ns);
    }
  }

  lemma {:induction false} NoDeclarations(ns: seq<Node>)
    requires ns != [] && IsPlainText(ns[0]) && ListShape(ns, 1, true)
    ensures forall i :: 0 <= i < |ns| ==> !ns[i].Declaration?
  {
    hide NodeShape;
    forall i | 0 < i < |ns| ensures !ns[i].Declaration? {
      assert ns[..i][0] == ns[0];
    }
  }

  lemma {:induction false} ReplaceText(n: Node, ns: seq<Node>)
    requires IsPlainText(n) && NodeShape(n, 1) && NodeNulFree(n)
    requires ns != [] && IsPlainText(ns[0]) && ListShape(ns, 1, true) && ListNulFree(ns)
    requires forall i :: 0 <= i < |ns| ==> !ns[i].Declaration?
    ensures ListShape([n] + ns[1..], 1, true) && ListNulFree([n] + ns[1..])
  {
    hide NodeShape, NodeNulFree, AllDeclarations;
    var ms := [n] + ns[1..];
    assert forall i :: 0 < i < |ms| ==> ms[i] == ns[i];
  }

  // ----- the main theorems -----

  /** What a parse sees of a printed document. */
  lemma {:induction false} PrintedInput(doc: Document)
    requires ListShape(doc.children, 1, true) && ListNulFree(doc.children)
    ensures SpellList(doc.children, "") == PrintNodes(doc.children)
    ensures CString(Print(doc)) == Print(doc)
    ensures doc.bom ==> SkipSpace(Print(doc)) == BOM + PrintNodes(doc.children)
    ensures !doc.bom ==> SkipSpace(Print(doc)) == SpellList(Stripped(doc.children), "")
  {
    var p := PrintNodes(doc.children);
    SpellListIsPrint(doc.children, "");
    assert p + "" == p;
    ListPrintNulFree(doc.children, 1, true);
    BomIsPlain();
    hide SpellList, PrintNodes, SkipSpace, ListShape, ListNulFree;
    if doc.bom {
      HeadSkips(BOM, p);
    } else {
      assert Print(doc) == p;
      SkipToStripped(doc.children);
    }
  }

  /** The children a parse recovers from a printed document. */
  function Seen(doc: Document): seq<Node> {
    if doc.bom then doc.children else Stripped(doc.children)
  }

  lemma {:induction false} SeenShape(doc: Document)
    requires ListShape(doc.children, 1, true) && ListNulFree(doc.children)
    ensures ListShape(Seen(doc), 1, true) && ListNulFree(Seen(doc))
  {
    SkipToStripped(doc.children);
  }

  /** How `Parse` goes on after the start of its input. */
  lemma {:induction false} ParseAfter(buffer: string, bom: bool, u: string)
    requires CString(buffer) == buffer
    requires if bom then SkipSpace(buffer) == BOM + u else SkipSpace(buffer) == u && !(BOM <= u)
    ensures u == "" ==> Parse(buffer) == ParseFail(EmptyDocument)
    ensures u != "" ==> Parse(buffer) == match ParseList(u, 1, true, [])
                          case ListFail(e) => ParseFail(e)
                          case ListDone(nodes) => ParseOk(Document(bom, nodes))
                          case ListEnd(nodes, _, _) => ParseOk(Document(bom, nodes))
  {
    hide CString, SkipSpace, ParseList;
    BomIsPlain();
    Cat(BOM, u);
  }

  lemma {:induction false} SeenParses(doc: Document)
    requires ListShape(doc.children, 1, true) && ListNulFree(doc.children)
    requires !EndsInText(Seen(doc))
    ensures ParseList(SpellList(Seen(doc), ""), 1, true, []) == ListDone(NormalList(Seen(doc)))
  {
    hide ParseList, SpellList, ListShape, ListNulFree, EndsInText, Seen, NormalList;
    SeenShape(doc);
    ListParses(Seen(doc), 1, true, [], "", "");
    assert [] + NormalList(Seen(doc)) == NormalList(Seen(doc));
  }

  lemma {:induction false} CleanStart(doc: Document)
    requires ListShape(doc.children, 1, true) && ListNulFree(doc.children) && StartsClean(doc)
    ensures Seen(doc) == doc.children
    ensures !doc.bom ==> !(BOM <= SpellList(doc.children, ""))
  {
    BomIsPlain();
    var ns := doc.children;
    if !doc.bom && ns != [] {
      ListTail(ns, 1, true);
      var rest := SpellList(ns[1..], "");
      hide ListShape, ListNulFree, NodeShape;
      if IsPlainText(ns[0]) {
        var v := ns[0].value;
        AfterText(ns, 1, true, "", "");
        SpellText(ns[0], rest);
        assert SkipSpace(v) == v;
        assert ns == [ns[0]] + ns[1..];
        hide Escape, SpellNode;
        if BOM <= Escape(v, true) + rest { EscapeReflectsPrefix(BOM, v, rest); }
      } else {
        MarkupStarts(ns[0], rest);
        hide SpellNode;
      }
    }
  }

  /** Printing and parsing again normalises: newlines become LF and blank plain text vanishes; all
      names, attributes, structure and other text survive. */
  lemma {:induction false} PrintThenParse(doc: Document)
    requires ListShape(doc.children, 1, true) && ListNulFree(doc.children)
    requires StartsClean(doc) && !EndsInText(doc.children) && PrintNodes(doc.children) != ""
    ensures Parse(Print(doc)) == ParseOk(Document(doc.bom, NormalList(doc.children)))
  {
    hide ListShape, ListNulFree, ParseList, SpellList, CString, SkipSpace, Seen, StartsClean, EndsInText, Stripped;
    hide NormalList, Parse, PrintNodes, Print;
    CleanStart(doc);
    PrintedInput(doc);
    SeenParses(doc);
    SeenIsStripped(doc);
    ParseAfter(Print(doc), doc.bom, PrintNodes(doc.children));
  }

  lemma {:induction false} SeenIsStripped(doc: Document)
    ensures Seen(doc) == if doc.bom then doc.children else Stripped(doc.children)
  {
  }

  /** The documents that survive a round trip unchanged. */
  predicate Printable(doc: Document) {
    && doc.children != []
    && ListShape(doc.children, 1, true)
    && ListStable(doc.children)
    && !IsPlainText(doc.children[|doc.children| - 1])
    && StartsClean(doc)
  }

  lemma {:induction false} NormalizeShrinks(v: string)
    ensures |Normalize(v)| <= |v|
  {
    if v != "" { NormalizeShrinks(v[HeadLen(v)..]); }
  }

  /** Taking something off the front always shows in the result. */
  lemma {:induction false} StrippedShows(ns: seq<Node>)
    requires ns != [] && IsPlainText(ns[0])
    requires ns[0].value == "" || IsSpace(ns[0].value[0])
    ensures NormalList(Stripped(ns)) != ns
  {
    var v := ns[0].value;
    var w := SkipSpace(v);
    NormalListShrinks(ns[1..]);
    if w != "" {
      assert |w| < |v|;
      NormalizeShrinks(w);
      assert !AllSpace(w);
      assert ([Text(w, false)] + ns[1..])[1..] == ns[1..];
      hide SkipSpace, AllSpace, Normalize;
      assert NormalList(Stripped(ns))[0] == Text(Normalize(w), false);
    }
  }

  /** What a successful round trip tells about the parse inside it. */
  lemma {:induction false} RoundTripInside(doc: Document)
    requires ListNulFree(doc.children) && Parse(Print(doc)) == ParseOk(doc)
    ensures ListShape(doc.children, 1, true)
    ensures !doc.bom ==> !(BOM <= SpellList(Stripped(doc.children), ""))
    ensures SpellList(Seen(doc), "") != "" && !EndsInText(Seen(doc)) && NormalList(Seen(doc)) == doc.children
  {
    ParseHasShape(Print(doc));
    hide ListShape, ListNulFree, ParseList, SpellList, CString, SkipSpace, EndsInText, Stripped, NormalList;
    hide PrintNodes, Print;
    PrintedInput(doc);
    SeenShape(doc);
    BomExact(doc);
    hide Parse;
    var u := SpellList(Seen(doc), "");
    ParseAfter(Print(doc), doc.bom, u);
    if EndsInText(Seen(doc)) {
      TrailingTextFails(Seen(doc), 1, []);
    } else {
      SeenParses(doc);
    }
  }

  /** Without a mark in the document, the printed text does not start with one. */
  lemma {:induction false} BomExact(doc: Document)
    requires Parse(Print(doc)) == ParseOk(doc) && CString(Print(doc)) == Print(doc)
    ensures !doc.bom ==> !(BOM <= SkipSpace(Print(doc)))
  {
    hide ParseList, CString, SkipSpace, Print;
  }

  /** Every document that survives a round trip is printable. */
  lemma {:induction false} RoundTripOnlyIf(doc: Document)
    requires ListNulFree(doc.children) && Parse(Print(doc)) == ParseOk(doc)
    ensures Printable(doc)
  {
    hide Parse, ListShape, ListNulFree, SpellList, NormalList, Print, ListStable, AllSpace;
    RoundTripInside(doc);
    var ns := doc.children;
    NoChildren();
    if ns != [] {
      CleanNeeded(doc);
      NormalListFix(ns);
      LastStable(ns);
    }
  }

  lemma {:induction false} NoChildren()
    ensures SpellList([], "") == ""
  {
  }

  lemma {:induction false} LastStable(ns: seq<Node>)
    requires ns != [] && ListStable(ns) && !EndsInText(ns)
    ensures !IsPlainText(ns[|ns| - 1])
  {
    hide NodeStable, AllSpace;
  }

  lemma {:induction false} CleanNeeded(doc: Document)
    requires doc.children != [] && ListShape(doc.children, 1, true) && ListNulFree(doc.children)
    requires NormalList(Seen(doc)) == doc.children
    requires !doc.bom ==> !(BOM <= SpellList(Stripped(doc.children), ""))
    ensures StartsClean(doc) && Seen(doc) == doc.children
  {
    var ns := doc.children;
    if !doc.bom && IsPlainText(ns[0]) {
      var v := ns[0].value;
      hide ListShape, ListNulFree, NormalList;
      if v == "" || IsSpace(v[0]) {
        StrippedShows(ns);
        assert false;
      } else {
        assert SkipSpace(v) == v && ns == [ns[0]] + ns[1..];
        assert Stripped(ns) == ns;
        var rest := SpellList(ns[1..], "");
        SpellText(ns[0], rest);
        BomIsPlain();
        hide SpellNode, Escape, SkipSpace;
        if BOM <= v { EscapeKeepsPrefix(BOM, v, rest); }
      }
    }
  }

  /** The round trip law, exactly: printing compactly and parsing again returns the same document
      if and only if the document is printable. */
  lemma {:induction false} RoundTripIff(doc: Document)
    requires ListNulFree(doc.children)
    ensures Parse(Print(doc)) == ParseOk(doc) <==> Printable(doc)
  {
    hide Parse, Print, ListShape, ListNulFree, ListStable, StartsClean, NormalList, PrintNodes;
    if Printable(doc) {
      PrintableParts(doc);
      PrintThenParse(doc);
      NormalListFix(doc.children);
    } else if Parse(Print(doc)) == ParseOk(doc) {
      RoundTripOnlyIf(doc);
    }
  }

  lemma {:induction false} PrintableParts(doc: Document)
    requires Printable(doc)
    ensures !EndsInText(doc.children) && PrintNodes(doc.children) != ""
  {
    var ns := doc.children;
    if IsPlainText(ns[0]) {
      assert ns[0].value != "" by { assert !AllSpace(ns[0].value); }
    } else {
      assert NodeShape(ns[0], 1);
      hide NodeShape, ListShape;
      assert PrintNode(ns[0]) != "";
    }
  }
}
