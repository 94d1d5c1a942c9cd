/** Every document the parser delivers, for any input at all, has document shape. */
module XmlOutput {
  import opened Common
  import opened XmlText
  import opened XmlDoc
  import opened XmlRoundTrip

  // ----- what scanning leaves in a value -----

  lemma {:induction false} FoundLater(t: string, tag: string)
    requires tag != "" && FindTag(t, tag).Some? && FindTag(t, tag).value > 0
    ensures t != "" && !(tag <= t) && FindTag(t[1..], tag) == Some(FindTag(t, tag).value - 1)
  {
  }

  lemma {:induction false} FirstOccurrence(t: string, tag: string)
    requires tag != "" && FindTag(t, tag).Some?
    ensures Lacks(t[..FindTag(t, tag).value], tag)
  {
    hide FindTag, Lacks;
    var k := FindTag(t, tag).value;
    if k > 0 {
      FoundLater(t, tag);
      FirstOccurrence(t[1..], tag);
      assert t[..k][1..] == t[1..][..k - 1];
      NotInPrefix(t, t[..k], tag);
    }
    LacksCons(t[..k], tag);
  }

  lemma {:induction false} LacksCons(s: string, tag: string)
    requires tag != "" && (s != "" ==> !(tag <= s) && Lacks(s[1..], tag))
    ensures Lacks(s, tag)
  {
  }

  lemma {:induction false} NotInPrefix(t: string, p: string, tag: string)
    requires p <= t && !(tag <= t)
    ensures !(tag <= p)
  {
    assert |tag| <= |p| ==> t[..|tag|] == p[..|tag|];
  }

  lemma {:induction false} LacksPrefix(x: string, p: string, tag: string)
    requires tag != "" && p <= x && Lacks(x, tag)
    ensures Lacks(p, tag)
  {
    if |tag| <= |p| {
      NotInPrefix(x, p, tag);
      LacksPrefix(x[1..], p[1..], tag);
    }
  }

  predicate NewlineFree(s: string) {
    CR !in s && LF !in s
  }

  /** Normalisation neither creates nor moves text without newlines. */
  lemma {:induction false} NormalizeKeepsPrefix(p: string, raw: string)
    requires NewlineFree(p) && p <= Normalize(raw)
    ensures p <= raw
  {
    if p != "" {
      assert p[0] == Normalize(raw)[0] && p[0] in p;
      assert Normalize(raw)[1..] == Normalize(raw[1..]);
      assert p[1..] <= Normalize(raw[1..]);
      NormalizeKeepsPrefix(p[1..], raw[1..]);
      assert p == [p[0]] + p[1..] && raw == [raw[0]] + raw[1..];
    }
  }

  lemma {:induction false} LacksSuffix(s: string, n: nat, tag: string)
    requires tag != "" && n <= |s| && Lacks(s, tag)
    ensures Lacks(s[n..], tag)
  {
    if n > 0 {
      if |tag| <= |s| {
        LacksSuffix(s[1..], n - 1, tag);
        assert s[1..][n - 1..] == s[n..];
      }
    } else {
      assert s[0..] == s;
    }
  }

  lemma {:induction false} NormalizeLacks(raw: string, tag: string)
    requires tag != "" && NewlineFree(tag) && Lacks(raw, tag)
    ensures Lacks(Normalize(raw), tag)
  {
    if raw != "" {
      var n := HeadLen(raw);
      LacksSuffix(raw, n, tag);
      NormalizeLacks(raw[n..], tag);
      assert Normalize(raw)[1..] == Normalize(raw[n..]);
      if tag <= Normalize(raw) { NormalizeKeepsPrefix(tag, raw); }
    }
  }

  /** A value scanned up to an end tag does not contain that tag. */
  lemma {:induction false} ValueLacks(t: string, tag: string)
    requires tag != "" && NewlineFree(tag) && FindTag(t, tag).Some?
    ensures Lacks(ValueOf(t[..FindTag(t, tag).value], false), tag)
  {
    var raw := t[..FindTag(t, tag).value];
    hide FindTag, Normalize;
    FirstOccurrence(t, tag);
    assert raw[0..] == raw;
    DecodeOfRaw(raw, 0, 0);
    NormalizeLacks(raw, tag);
    LacksPrefix(Normalize(raw), ValueOf(raw, false), tag);
  }

  lemma {:induction false} ValuePrefix(p: string, raw: string, x: string)
    requires NewlineFree(p) && raw <= x && p <= ValueOf(raw, false)
    ensures p <= x
  {
    assert raw[0..] == raw;
    DecodeOfRaw(raw, 0, 0);
    hide Normalize;
    assert p <= Normalize(raw);
    NormalizeKeepsPrefix(p, raw);
  }

  // ----- attributes and tags -----

  lemma {:induction false} AttributeAdds(acc: seq<Attribute>, a: Attribute)
    requires AttributesShape(acc) && ValuesNulFree(acc) && ValidName(a.name) && '\0' !in a.value
    requires !HasAttribute(acc, a.name)
    ensures AttributesShape(acc + [a]) && ValuesNulFree(acc + [a])
  {
    hide ValidName;
  }

  lemma {:induction false} AttributesHaveShape(t: string, acc: seq<Attribute>)
    requires AttributesShape(acc) && ValuesNulFree(acc) && ParseAttributes(t, acc).AttributesOk?
    ensures var r := ParseAttributes(t, acc); AttributesShape(r.attributes) && ValuesNulFree(r.attributes)
    decreases |t|
  {
    hide ParseAttribute, SkipSpace, AttributesShape, ValuesNulFree, HasAttribute, ValidName, IsNameStart;
    var u := SkipSpace(t);
    if IsNameStart(u[0]) {
      var a := ParseAttribute(u).attribute;
      AttributeAdds(acc, a);
      AttributesHaveShape(ParseAttribute(u).rest, acc + [a]);
    }
  }

  lemma {:induction false} NoAttributes()
    ensures AttributesShape([]) && ValuesNulFree([])
  {
  }

  lemma {:induction false} TagHasShape(t: string)
    requires ParseTag(t).TagOk?
    ensures var r := ParseTag(t); ValidName(r.name) && AttributesShape(r.attributes) && ValuesNulFree(r.attributes)
  {
    hide SkipSpace, ScanName, ParseAttributes, AttributesShape, ValidName;
    var u := SkipSpace(t);
    var v := if u != "" && u[0] == '/' then u[1..] else u;
    NoAttributes();
    AttributesHaveShape(v[|ScanName(v)|..], []);
  }

  // ----- nodes -----

  lemma {:induction false} ScanHasShape(t: string, tag: string, error: XmlError, make: string -> Node)
    returns (v: string)
    requires tag != "" && NewlineFree(tag) && ScanNode(t, tag, error, make).ItemNode?
    ensures FindTag(t, tag).Some? && v == ValueOf(t[..FindTag(t, tag).value], false)
    ensures Lacks(v, tag) && '\0' !in v && ScanNode(t, tag, error, make).node == make(v)
  {
    v := ValueOf(t[..FindTag(t, tag).value], false);
    hide FindTag, ValueOf;
    ValueLacks(t, tag);
  }

  /** A value does not start with something that would make its markup another kind. */
  lemma {:induction false} NotStart(p: string, raw: string, x: string)
    requires NewlineFree(p) && raw <= x && !("<!" + p <= "<!" + x)
    ensures !(p <= ValueOf(raw, false))
  {
    hide ValueOf, NewlineFree;
    if p <= ValueOf(raw, false) {
      ValuePrefix(p, raw, x);
      PrefixJoins("<!", p, x);
    }
  }

  lemma {:induction false} UnknownIs(u: string)
    requires u != "" && Identify(u) == IsUnknown
    ensures |u| >= 2 && u == "<!" + u[2..] && !("<!" + "--" <= u) && !("<!" + "[CDATA[" <= u)
  {
    assert "<!" + "--" == "<!--" && "<!" + "[CDATA[" == "<![CDATA[";
  }

  lemma {:induction false} UnknownStart(u: string, v: string)
    requires u != "" && Identify(u) == IsUnknown && FindTag(u[2..], ">").Some?
    requires v == ValueOf(u[2..][..FindTag(u[2..], ">").value], false)
    ensures !("--" <= v) && !("[CDATA[" <= v)
  {
    hide FindTag, ValueOf, Identify;
    UnknownIs(u);
    var x := u[2..];
    NotStart("--", x[..FindTag(x, ">").value], x);
    NotStart("[CDATA[", x[..FindTag(x, ">").value], x);
  }

  lemma {:induction false} PrefixJoins(a: string, b: string, x: string)
    requires b <= x
    ensures a + b <= a + x
  {
    assert a + x == (a + b) + x[|b|..];
  }

  lemma {:induction false} LeafHasShape(u: string, depth: nat)
    requires u != "" && SkipSpace(u) == u && Identify(u) != IsElement && Identify(u) != IsText
    requires ParseItem(u, depth).ItemNode?
    ensures var n := ParseItem(u, depth).node; NodeShape(n, depth) && NodeNulFree(n) && !IsPlainText(n)
  {
    hide ScanNode, FindTag, ValueOf, SkipSpace, ParseElement;
    match Identify(u)
    case IsDeclaration =>
      var v := ScanHasShape(u[2..], "?>", ParsingDeclaration, v => Declaration(v));
    case IsComment =>
      var v := ScanHasShape(u[4..], "-->", ParsingComment, v => Comment(v));
    case IsCData =>
      var v := ScanHasShape(u[9..], "]]>", ParsingCData, v => Text(v, true));
    case IsUnknown =>
      var v := ScanHasShape(u[2..], ">", ParsingUnknown, v => Unknown(v));
      UnknownStart(u, v);
  }

  lemma {:induction false} TextHasShape(t: string, depth: nat)
    requires SkipSpace(t) != "" && SkipSpace(t)[0] != '<' && ParseItem(t, depth).ItemNode?
    ensures var r := ParseItem(t, depth);
      IsPlainText(r.node) && NodeShape(r.node, depth) && NodeNulFree(r.node) && "<" <= r.rest
  {
    hide ParseItem, SkipSpace, ScanText, ValueOf;
    SkipHead(t);
    TextItem(t, depth);
  }

  lemma {:induction false} SkipHead(t: string)
    requires SkipSpace(t) != "" && SkipSpace(t)[0] != '<'
    ensures t[0] != '<'
  {
  }

  /** The result of one round of the list loop. */
  lemma {:induction false} ItemHasShape(t: string, depth: nat)
    requires SkipSpace(t) != "" && ParseItem(t, depth).ItemNode? && depth < MAX_ELEMENT_DEPTH
    ensures var r := ParseItem(t, depth);
            && NodeShape(r.node, depth)
            && NodeNulFree(r.node)
            && (IsPlainText(r.node) ==> r.rest != "" && r.rest[0] == '<')
    ensures IsPlainText(ParseItem(t, depth).node) ==> SkipSpace(t)[0] != '<'
    decreases |t|, 1
  {
    hide ParseItem, SkipSpace, NodeShape, NodeNulFree;
    var u := SkipSpace(t);
    if u[0] != '<' {
      TextHasShape(t, depth);
    } else {
      SkipSpaceTwice(t);
      SameItem(t, u, depth);
      if Identify(u) == IsElement {
        ElementHasShape(u, depth);
      } else {
        LeafHasShape(u, depth);
      }
    }
  }

  lemma {:induction false} ElementHasShape(u: string, depth: nat)
    requires u != "" && u[0] == '<' && SkipSpace(u) == u && Identify(u) == IsElement && depth < MAX_ELEMENT_DEPTH
    requires ParseItem(u, depth).ItemNode?
    ensures var n := ParseItem(u, depth).node; NodeShape(n, depth) && NodeNulFree(n) && !IsPlainText(n)
    decreases |u|, 0
  {
    hide SkipSpace, ParseTag, ScanNode, ParsePlainText;
    assert ParseItem(u, depth) == ParseElement(u, depth);
    TagHasShape(u[1..]);
    var tag := ParseTag(u[1..]);
    if tag.closing == Open {
      ListHasShape(tag.rest, depth + 1, false, []);
    }
  }

  /** The children read so far have list shape, and plain text among them stops at markup. */
  predicate SoFar(t: string, depth: nat, isDocument: bool, acc: seq<Node>) {
    && ListShape(acc, depth, isDocument) && ListNulFree(acc)
    && (acc != [] && IsPlainText(acc[|acc| - 1]) ==> t != "" && t[0] == '<')
  }

  lemma {:induction false} MarkupIsNotSkipped(t: string)
    requires t != "" && t[0] == '<'
    ensures SkipSpace(t) == t
  {
  }

  lemma {:induction false} DeclarationsStayFirst(n: Node, isDocument: bool, acc: seq<Node>)
    requires forall i :: 0 <= i < |acc| && acc[i].Declaration? ==> isDocument && AllDeclarations(acc[..i])
    requires n.Declaration? ==> DeclarationAllowed(isDocument, acc)
    ensures var ns := acc + [n];
      forall i :: 0 <= i < |ns| && ns[i].Declaration? ==> isDocument && AllDeclarations(ns[..i])
  {
    var ns := acc + [n];
    if n.Declaration? && acc != [] {
      assert acc[..|acc| - 1] + [acc[|acc| - 1]] == acc;
      assert AllDeclarations(acc[..|acc| - 1]);
      assert AllDeclarations(acc);
    }
    forall i | 0 <= i < |ns| && ns[i].Declaration? ensures isDocument && AllDeclarations(ns[..i]) {
      if i < |acc| { assert ns[..i] == acc[..i]; } else { assert ns[..i] == acc; }
    }
  }

  lemma {:induction false} ShapeGrows(t: string, n: Node, rest: string, depth: nat, isDocument: bool, acc: seq<Node>)
    requires SoFar(t, depth, isDocument, acc) && NodeShape(n, depth) && NodeNulFree(n)
    requires IsPlainText(n) ==> SkipSpace(t) != "" && SkipSpace(t)[0] != '<' && rest != "" && rest[0] == '<'
    requires n.Declaration? ==> DeclarationAllowed(isDocument, acc)
    ensures SoFar(rest, depth, isDocument, acc + [n])
  {
    hide NodeShape, NodeNulFree, SkipSpace, AllDeclarations, DeclarationAllowed;
    if t != "" && t[0] == '<' { MarkupIsNotSkipped(t); }
    DeclarationsStayFirst(n, isDocument, acc);
    var ns := acc + [n];
    assert forall i :: 0 <= i < |acc| ==> ns[i] == acc[i];
    assert ns[|acc|] == n;
  }

  lemma {:induction false} ListHasShape(t: string, depth: nat, isDocument: bool, acc: seq<Node>)
    requires SoFar(t, depth, isDocument, acc) && depth < MAX_ELEMENT_DEPTH
    ensures var r := ParseList(t, depth, isDocument, acc);
            !r.ListFail? ==> ListShape(r.nodes, depth, isDocument) && ListNulFree(r.nodes)
    decreases |t|, 2
  {
    hide ParseItem, SkipSpace, ListShape, ListNulFree;
    if SkipSpace(t) != "" && ParseItem(t, depth).ItemNode? {
      ItemHasShape(t, depth);
      var ItemNode(n, rest) := ParseItem(t, depth);
      if n.Declaration? ==> DeclarationAllowed(isDocument, acc) {
        ShapeGrows(t, n, rest, depth, isDocument, acc);
        ListHasShape(rest, depth, isDocument, acc + [n]);
      }
    }
  }

  /** The parser's promise about its output: any accepted input yields a document of proper shape. */
  lemma {:induction false} ParseHasShape(buffer: string)
    requires Parse(buffer).ParseOk?
    ensures var d := Parse(buffer).document; ListShape(d.children, 1, true) && ListNulFree(d.children)
  {
    hide ParseList, SkipSpace, CString, ListShape, ListNulFree, SoFar;
    var t := SkipSpace(CString(buffer));
    var u := if BOM <= t then t[3..] else t;
    EmptySoFar(u);
    ListHasShape(u, 1, true, []);
  }

  lemma {:induction false} EmptySoFar(t: string)
    ensures SoFar(t, 1, true, [])
  {
  }
}
