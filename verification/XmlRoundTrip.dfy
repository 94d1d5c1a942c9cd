/** Printing a document and parsing it again. The main results are that this normalises the
    document, whatever it is, and that it gives the document back exactly under a condition that is
    both sufficient and necessary. */
module XmlRoundTrip {
  import opened Common
  import opened XmlText
  import opened XmlDoc

  // ----- the documents a parser can deliver -----

  predicate Lacks(s: string, tag: string)
    requires tag != ""
  {
    FindTag(s, tag).None?
  }

  predicate AttributesShape(attributes: seq<Attribute>) {
    && (forall i :: 0 <= i < |attributes| ==> ValidName(attributes[i].name))
    && (forall i, j :: 0 <= i < j < |attributes| ==> attributes[i].name != attributes[j].name)
  }

  /** Names are names, attribute names are unique, bodies do not contain what ends them, and the
      nesting of elements with content stays below the limit. */
  predicate NodeShape(n: Node, depth: nat)
    decreases n, 1
  {
    match n
    case Element(name, attributes, children) =>
      && ValidName(name) && AttributesShape(attributes)
      && (children == [] || (depth + 1 < MAX_ELEMENT_DEPTH && ListShape(children, depth + 1, false)))
    case Text(value, cdata) => cdata ==> Lacks(value, "]]>")
    case Comment(value) => Lacks(value, "-->")
    case Declaration(value) => Lacks(value, "?>")
    case Unknown(value) => Lacks(value, ">") && !("--" <= value) && !("[CDATA[" <= value)
  }

  /** Plain texts are never adjacent; declarations stand at the front of a document. */
  predicate ListShape(ns: seq<Node>, depth: nat, isDocument: bool)
    decreases ns, 0
  {
    && (forall i :: 0 <= i < |ns| ==> NodeShape(ns[i], depth))
    && (forall i :: 0 <= i < |ns| - 1 ==> !(IsPlainText(ns[i]) && IsPlainText(ns[i + 1])))
    && (forall i :: 0 <= i < |ns| && ns[i].Declaration? ==> isDocument && AllDeclarations(ns[..i]))
  }

  predicate AllDeclarations(ns: seq<Node>) {
    forall i :: 0 <= i < |ns| ==> ns[i].Declaration?
  }

  /** Values are C strings. */
  predicate NodeNulFree(n: Node)
    decreases n, 1
  {
    match n
    case Element(_, attributes, children) =>
      (forall i :: 0 <= i < |attributes| ==> '\0' !in attributes[i].value) && ListNulFree(children)
    case _ => '\0' !in n.value
  }

  predicate ListNulFree(ns: seq<Node>)
    decreases ns, 0
  {
    forall i :: 0 <= i < |ns| ==> NodeNulFree(ns[i])
  }

  // ----- what one round of printing and parsing makes of a document -----

  function NormalAttributes(attributes: seq<Attribute>): (r: seq<Attribute>)
    ensures |r| == |attributes| && forall i :: 0 <= i < |r| ==> r[i].name == attributes[i].name
  {
    if attributes == [] then []
    else [Attribute(attributes[0].name, Normalize(attributes[0].value))] + NormalAttributes(attributes[1..])
  }

  function NormalNode(n: Node): Node
    decreases n, 1
  {
    match n
    case Element(name, attributes, children) => Element(name, NormalAttributes(attributes), NormalList(children))
    case Text(value, cdata) => Text(Normalize(value), cdata)
    case Comment(value) => Comment(Normalize(value))
    case Declaration(value) => Declaration(Normalize(value))
    case Unknown(value) => Unknown(Normalize(value))
  }

  /** Newlines are normalised and plain text that is only white space disappears. */
  function NormalList(ns: seq<Node>): seq<Node>
    decreases ns, 0
  {
    if ns == [] then []
    else if IsPlainText(ns[0]) && AllSpace(ns[0].value) then NormalList(ns[1..])
    else [NormalNode(ns[0])] + NormalList(ns[1..])
  }

  // ----- scanning lemmas -----

  predicate Borderless(tag: string) {
    forall k :: 0 < k < |tag| ==> tag[k..] != tag[..|tag| - k]
  }

  lemma {:induction false} TagsAreBorderless()
    ensures Borderless("]]>") && Borderless("-->") && Borderless("?>") && Borderless(">") && Borderless("<")
    ensures Borderless("\"")
  {
    forall k | 0 < k < 3 ensures "]]>"[k..] != "]]>"[..3 - k] && "-->"[k..] != "-->"[..3 - k] {
      assert "]]>"[k..][2 - k] == '>' && "-->"[k..][2 - k] == '>';
      assert "]]>"[..3 - k][2 - k] == ']' && "-->"[..3 - k][2 - k] == '-';
    }
    assert "?>"[1..] == ">" && "?>"[..1] == "?";
  }

  lemma {:induction false} FindAfter(body: string, tag: string, rest: string)
    requires tag != "" && Borderless(tag) && Lacks(body, tag)
    ensures FindTag(body + tag + rest, tag) == Some(|body|)
  {
    var t := body + tag + rest;
    if body == "" {
      assert t == tag + rest;
    } else {
      assert t[1..] == body[1..] + tag + rest;
      NotAtHead(body, tag, rest);
      FindAfter(body[1..], tag, rest);
    }
  }

  lemma {:induction false} NotAtHead(body: string, tag: string, rest: string)
    requires tag != "" && Borderless(tag) && Lacks(body, tag) && body != ""
    ensures !(tag <= body + tag + rest) && Lacks(body[1..], tag)
  {
    var t, k := body + tag + rest, |body|;
    if |tag| <= k {
      assert t[..|tag|] == body[..|tag|];
    } else {
      var i :| 0 <= i < |tag| - k && tag[k..][i] != tag[..|tag| - k][i];
      assert t[k + i] == tag[i] != tag[k + i];
    }
  }

  lemma {:induction false} LacksChar(s: string, c: char)
    requires c !in s
    ensures Lacks(s, [c])
  {
    if s != "" {
      assert [c][0] != s[0];
      LacksChar(s[1..], c);
    }
  }

  lemma {:induction false} NameStops(name: string, rest: string)
    requires (forall i :: 0 <= i < |name| ==> IsNameChar(name[i])) && (rest == "" || !IsNameChar(rest[0]))
    ensures NameLen(name + rest) == |name|
  {
    if name == "" {
      assert name + rest == rest;
    } else {
      assert (name + rest)[1..] == name[1..] + rest;
      NameStops(name[1..], rest);
    }
  }

  lemma {:induction false} NameScans(name: string, rest: string)
    requires ValidName(name) && (rest == "" || !IsNameChar(rest[0]))
    ensures ScanName(name + rest) == name && (name + rest)[|name|..] == rest && SkipSpace(name + rest) == name + rest
  {
    NameStops(name, rest);
    assert (name + rest)[..|name|] == name;
  }

  lemma {:induction false} SpaceSkips(v: string, rest: string)
    requires AllSpace(v)
    ensures SkipSpace(v + rest) == SkipSpace(rest)
  {
    if v == "" {
      assert v + rest == rest;
    } else {
      assert (v + rest)[1..] == v[1..] + rest;
      SpaceSkips(v[1..], rest);
    }
  }

  lemma {:induction false} NormalizeNulFree(v: string)
    requires '\0' !in v
    ensures '\0' !in Normalize(v)
  {
    if v != "" { NormalizeNulFree(v[HeadLen(v)..]); }
  }

  lemma {:induction false} RawValue(v: string)
    requires '\0' !in v
    ensures ValueOf(v, false) == Normalize(v)
  {
    assert v[0..] == v;
    DecodeOfRaw(v, 0, 0);
    NormalizeNulFree(v);
  }

  lemma {:induction false} EscapedValue(v: string, restricted: bool)
    requires '\0' !in v
    ensures ValueOf(Escape(v, restricted), true) == Normalize(v)
  {
    DecodeOfEscape(v, restricted);
    NormalizeNulFree(v);
  }

  // ----- concatenation -----

  lemma {:induction false} Cat(a: string, b: string)
    ensures (a + b)[..|a|] == a && (a + b)[|a|..] == b
    ensures a <= a + b
  {
  }

  // ----- attributes and tags -----

  lemma {:induction false} ScansTo(body: string, tag: string, rest: string)
    requires tag != "" && Borderless(tag) && Lacks(body, tag)
    ensures ScanText(body + (tag + rest), tag) == Found(body, rest)
  {
    FindAfter(body, tag, rest);
    Assoc(body, tag, rest);
    Cat(body, tag + rest);
    Cat(body + tag, rest);
  }

  /** The text of an attribute after its name, followed by `k`. */
  function SpellValue(value: string, k: string): string {
    "=" + ("\"" + (Escape(value, false) + ("\"" + k)))
  }

  lemma {:induction false} QuotedScans(body: string, k: string)
    requires '\"' !in body
    ensures ScanText(body + ("\"" + k), "\"") == Found(body, k)
  {
    LacksChar(body, '\"');
    TagsAreBorderless();
    ScansTo(body, "\"", k);
  }

  lemma {:induction false} NoSkip(c: string, k: string)
    requires |c| == 1 && !IsSpace(c[0])
    ensures SkipSpace(c + k) == c + k && (c + k)[0] == c[0] && (c + k)[1..] == k
  {
    Cat(c, k);
  }

  lemma {:induction false} ValueScans(value: string, k: string)
    ensures ScanValue(SpellValue(value, k)) == Found(Escape(value, false), k)
  {
    var body := Escape(value, false);
    var inner := body + ("\"" + k);
    var quoted := "\"" + inner;
    QuotedScans(body, k);
    hide ScanText, SkipSpace, Escape;
    NoSkip("=", quoted);
    NoSkip("\"", inner);
    assert [quoted[0]] == "\"";
  }

  lemma {:induction false} SpellValueHead(value: string, k: string)
    ensures SpellValue(value, k) != "" && !IsNameChar(SpellValue(value, k)[0])
  {
  }

  lemma {:induction false} AttributeParses(a: Attribute, k: string)
    requires ValidName(a.name) && '\0' !in a.value
    ensures ParseAttribute(a.name + SpellValue(a.value, k)) == AttributeOk(Attribute(a.name, Normalize(a.value)), k)
  {
    hide Escape, ScanValue, ScanName, Normalize, ValueOf, SkipSpace, SpellValue, IsNameChar;
    SpellValueHead(a.value, k);
    ValueScans(a.value, k);
    EscapedValue(a.value, false);
    NameScans(a.name, SpellValue(a.value, k));
  }

  /** Attributes followed by `k`, the way they are printed. */
  function SpellAttributes(attributes: seq<Attribute>, k: string): string {
    if attributes == [] then k
    else " " + (attributes[0].name + SpellValue(attributes[0].value, SpellAttributes(attributes[1..], k)))
  }

  predicate DistinctFrom(attributes: seq<Attribute>, acc: seq<Attribute>) {
    forall i, j :: 0 <= i < |attributes| && 0 <= j < |acc| ==> attributes[i].name != acc[j].name
  }

  predicate ValuesNulFree(attributes: seq<Attribute>) {
    forall i :: 0 <= i < |attributes| ==> '\0' !in attributes[i].value
  }

  function TagEnd(sealed: bool): string {
    if sealed then "/>" else ">"
  }

  lemma {:induction false} AppendOne<T>(acc: seq<T>, x: T, tail: seq<T>)
    ensures (acc + [x]) + tail == acc + ([x] + tail)
  {
  }

  lemma {:induction false} AttributesEnd(sealed: bool, k: string, acc: seq<Attribute>)
    ensures ParseAttributes(TagEnd(sealed) + k, acc) == AttributesOk(acc, sealed, k)
  {
    hide ParseAttribute, HasAttribute, SkipSpace;
    Cat(TagEnd(sealed), k);
    if sealed {
      assert "/" + ">" == "/>";
      Assoc("/", ">", k);
      NoSkip("/", ">" + k);
    } else {
      NoSkip(">", k);
    }
  }

  lemma {:induction false} AttributesStep(a: Attribute, k: string, acc: seq<Attribute>)
    requires ValidName(a.name) && '\0' !in a.value && !HasAttribute(acc, a.name)
    ensures ParseAttributes(" " + (a.name + SpellValue(a.value, k)), acc) ==
            ParseAttributes(k, acc + [Attribute(a.name, Normalize(a.value))])
  {
    var u := a.name + SpellValue(a.value, k);
    AttributeParses(a, k);
    hide SpellValue, ParseAttribute, Normalize, HasAttribute, SkipSpace;
    assert u[0] == a.name[0];
    BlankSkips(u);
  }

  lemma {:induction false} BlankSkips(u: string)
    requires u != "" && !IsSpace(u[0])
    ensures SkipSpace(" " + u) == u
  {
    Cat(" ", u);
  }

  lemma {:induction false} AttributesParse(attributes: seq<Attribute>, sealed: bool, k: string, acc: seq<Attribute>)
    requires AttributesShape(attributes) && ValuesNulFree(attributes) && DistinctFrom(attributes, acc)
    ensures ParseAttributes(SpellAttributes(attributes, TagEnd(sealed) + k), acc) ==
            AttributesOk(acc + NormalAttributes(attributes), sealed, k)
    decreases |attributes|
  {
    hide ParseAttributes, TagEnd, SpellValue, Normalize;
    if attributes == [] {
      AttributesEnd(sealed, k, acc);
      assert acc + [] == acc;
    } else {
      var a, tail := attributes[0], attributes[1..];
      var b := Attribute(a.name, Normalize(a.value));
      AttributesStep(a, SpellAttributes(tail, TagEnd(sealed) + k), acc);
      AttributesParse(tail, sealed, k, acc + [b]);
      AppendOne(acc, b, NormalAttributes(tail));
    }
  }

  lemma {:induction false} AfterName(attributes: seq<Attribute>, sealed: bool, k: string)
    ensures var after := SpellAttributes(attributes, TagEnd(sealed) + k);
            after != "" && !IsNameChar(after[0])
  {
    hide SpellValue;
  }

  lemma {:induction false} TagFromParts(name: string, after: string, attributes: seq<Attribute>, sealed: bool,
      k: string)
    requires ValidName(name) && after != "" && !IsNameChar(after[0])
    requires ParseAttributes(after, []) == AttributesOk(attributes, sealed, k)
    ensures ParseTag(name + after) == TagOk(name, attributes, if sealed then Closed else Open, k)
  {
    hide ParseAttributes, ScanName, SkipSpace;
    NameScans(name, after);
    assert (name + after)[0] == name[0] != '/';
  }

  lemma {:induction false} TagParses(name: string, attributes: seq<Attribute>, sealed: bool, k: string)
    requires ValidName(name) && AttributesShape(attributes) && ValuesNulFree(attributes)
    ensures ParseTag(name + SpellAttributes(attributes, TagEnd(sealed) + k)) ==
            TagOk(name, NormalAttributes(attributes), if sealed then Closed else Open, k)
  {
    hide ParseAttributes, ParseTag, SpellAttributes, TagEnd, NormalAttributes;
    AfterName(attributes, sealed, k);
    AttributesParse(attributes, sealed, k, []);
    assert [] + NormalAttributes(attributes) == NormalAttributes(attributes);
    TagFromParts(name, SpellAttributes(attributes, TagEnd(sealed) + k), NormalAttributes(attributes), sealed, k);
  }

  lemma {:induction false} EndTagParses(name: string, k: string)
    requires ValidName(name)
    ensures ParseTag("/" + (name + (">" + k))) == TagOk(name, [], Closes, k)
  {
    AttributesEnd(false, k, []);
    hide ParseAttributes, ScanName, SkipSpace;
    NoSkip("/", name + (">" + k));
    NameScans(name, ">" + k);
  }

  // ----- nodes -----

  /** A node followed by `k`, and a list followed by `k`, the way they are printed. */
  function SpellNode(n: Node, k: string): string
    decreases n, 1
  {
    match n
    case Element(name, attributes, children) =>
      "<" + (name + SpellAttributes(attributes,
        if children == [] then TagEnd(true) + k else TagEnd(false) + SpellList(children, SpellEnd(name, k))))
    case Text(value, cdata) => if cdata then "<![CDATA[" + (value + ("]]>" + k)) else Escape(value, true) + k
    case Comment(value) => "<!--" + (value + ("-->" + k))
    case Declaration(value) => "<?" + (value + ("?>" + k))
    case Unknown(value) => "<!" + (value + (">" + k))
  }

  function SpellEnd(name: string, k: string): string {
    "<" + ("/" + (name + (">" + k)))
  }

  function SpellList(ns: seq<Node>, k: string): string
    decreases ns, 0
  {
    if ns == [] then k else SpellNode(ns[0], SpellList(ns[1..], k))
  }

  lemma {:induction false} LeafScans(value: string, tag: string, k: string, error: XmlError, make: string -> Node)
    requires tag != "" && Borderless(tag) && Lacks(value, tag) && '\0' !in value
    ensures ScanNode(value + (tag + k), tag, error, make) == ItemNode(make(Normalize(value)), k)
  {
    ScansTo(value, tag, k);
    RawValue(value);
  }

  lemma {:induction false} HeadSkips(head: string, x: string)
    requires head != "" && !IsSpace(head[0])
    ensures SkipSpace(head + x) == head + x && (head + x)[|head|..] == x
    ensures head <= head + x && (head + x)[0] == head[0]
  {
    Cat(head, x);
  }

  lemma {:induction false} IdentifiesDeclaration(x: string)
    ensures Identify("<?" + x) == IsDeclaration
  {
    Cat("<?", x);
  }

  lemma {:induction false} IdentifiesComment(x: string)
    ensures Identify("<!--" + x) == IsComment
  {
    Cat("<!--", x);
    assert ("<!--" + x)[1] == '!' && "<?"[1] == '?';
  }

  lemma {:induction false} IdentifiesCData(x: string)
    ensures Identify("<![CDATA[" + x) == IsCData
  {
    Cat("<![CDATA[", x);
    assert ("<![CDATA[" + x)[1] == '!' && "<?"[1] == '?';
    assert ("<![CDATA[" + x)[2] == '[' && "<!--"[2] == '-';
  }

  lemma {:induction false} NotPrefix(p: string, value: string, k: string)
    requires '>' !in p && !(p <= value)
    ensures !(p <= value + (">" + k))
  {
    var t := value + (">" + k);
    if |p| <= |value| {
      assert t[..|p|] == value[..|p|];
    } else {
      assert t[|value|] == '>' && p[|value|] in p;
    }
  }

  lemma {:induction false} PrefixSplits(a: string, b: string, x: string)
    ensures a + b <= a + x ==> b <= x
  {
    Cat(a, x);
    Cat(a, b);
    if a + b <= a + x {
      assert (a + x)[|a|..][..|b|] == (a + b)[|a|..];
    }
  }

  lemma {:induction false} IdentifiesUnknown(value: string, k: string)
    requires !("--" <= value) && !("[CDATA[" <= value)
    ensures Identify("<!" + (value + (">" + k))) == IsUnknown
  {
    var x := value + (">" + k);
    NotPrefix("--", value, k);
    NotPrefix("[CDATA[", value, k);
    assert "<!" + "--" == "<!--" && "<!" + "[CDATA[" == "<![CDATA[";
    PrefixSplits("<!", "--", x);
    PrefixSplits("<!", "[CDATA[", x);
    Cat("<!", x);
    assert ("<!" + x)[1] == '!' && "<?"[1] == '?';
  }

  lemma {:induction false} IdentifiesElement(x: string)
    requires x != "" && x[0] != '?' && x[0] != '!'
    ensures Identify("<" + x) == IsElement
  {
    Cat("<", x);
    assert ("<" + x)[1] == x[0];
    assert "<?"[1] == '?' && "<!"[1] == '!' && "<!--"[1] == '!' && "<![CDATA["[1] == '!';
  }

  lemma {:induction false} CDataItem(x: string, depth: nat)
    requires Identify("<![CDATA[" + x) == IsCData && SkipSpace("<![CDATA[" + x) == "<![CDATA[" + x
    ensures ParseItem("<![CDATA[" + x, depth) == ScanNode(x, "]]>", ParsingCData, v => Text(v, true))
  {
    hide ScanNode, SkipSpace, Identify, ParseElement, ParsePlainText;
    Cat("<![CDATA[", x);
  }

  lemma {:induction false} CDataParses(value: string, k: string, depth: nat)
    requires Lacks(value, "]]>") && '\0' !in value
    ensures var t := "<![CDATA[" + (value + ("]]>" + k));
      SkipSpace(t) != "" && ParseItem(t, depth) == ItemNode(Text(Normalize(value), true), k)
  {
    hide ParseItem, ScanNode, SkipSpace, Identify, Normalize, Lacks, Borderless;
    var x := value + ("]]>" + k);
    TagsAreBorderless();
    HeadSkips("<![CDATA[", x);
    IdentifiesCData(x);
    CDataItem(x, depth);
    LeafScans(value, "]]>", k, ParsingCData, v => Text(v, true));
  }

  lemma {:induction false} CommentItem(x: string, depth: nat)
    requires Identify("<!--" + x) == IsComment && SkipSpace("<!--" + x) == "<!--" + x
    ensures ParseItem("<!--" + x, depth) == ScanNode(x, "-->", ParsingComment, v => Comment(v))
  {
    hide ScanNode, SkipSpace, Identify, ParseElement, ParsePlainText;
    Cat("<!--", x);
  }

  lemma {:induction false} CommentParses(value: string, k: string, depth: nat)
    requires Lacks(value, "-->") && '\0' !in value
    ensures var t := "<!--" + (value + ("-->" + k));
      SkipSpace(t) != "" && ParseItem(t, depth) == ItemNode(Comment(Normalize(value)), k)
  {
    hide ParseItem, ScanNode, SkipSpace, Identify, Normalize, Lacks, Borderless;
    var x := value + ("-->" + k);
    TagsAreBorderless();
    HeadSkips("<!--", x);
    IdentifiesComment(x);
    CommentItem(x, depth);
    LeafScans(value, "-->", k, ParsingComment, v => Comment(v));
  }

  lemma {:induction false} DeclarationItem(x: string, depth: nat)
    requires Identify("<?" + x) == IsDeclaration && SkipSpace("<?" + x) == "<?" + x
    ensures ParseItem("<?" + x, depth) == ScanNode(x, "?>", ParsingDeclaration, v => Declaration(v))
  {
    hide ScanNode, SkipSpace, Identify, ParseElement, ParsePlainText;
    Cat("<?", x);
  }

  lemma {:induction false} DeclarationParses(value: string, k: string, depth: nat)
    requires Lacks(value, "?>") && '\0' !in value
    ensures var t := "<?" + (value + ("?>" + k));
      SkipSpace(t) != "" && ParseItem(t, depth) == ItemNode(Declaration(Normalize(value)), k)
  {
    hide ParseItem, ScanNode, SkipSpace, Identify, Normalize, Lacks, Borderless;
    var x := value + ("?>" + k);
    TagsAreBorderless();
    HeadSkips("<?", x);
    IdentifiesDeclaration(x);
    DeclarationItem(x, depth);
    LeafScans(value, "?>", k, ParsingDeclaration, v => Declaration(v));
  }

  lemma {:induction false} UnknownItem(x: string, depth: nat)
    requires Identify("<!" + x) == IsUnknown && SkipSpace("<!" + x) == "<!" + x
    ensures ParseItem("<!" + x, depth) == ScanNode(x, ">", ParsingUnknown, v => Unknown(v))
  {
    hide ScanNode, SkipSpace, Identify, ParseElement, ParsePlainText;
    Cat("<!", x);
  }

  lemma {:induction false} UnknownParses(value: string, k: string, depth: nat)
    requires Lacks(value, ">") && '\0' !in value && !("--" <= value) && !("[CDATA[" <= value)
    ensures var t := "<!" + (value + (">" + k));
      SkipSpace(t) != "" && ParseItem(t, depth) == ItemNode(Unknown(Normalize(value)), k)
  {
    hide ParseItem, ScanNode, SkipSpace, Identify, Normalize, Lacks, Borderless;
    var x := value + (">" + k);
    TagsAreBorderless();
    HeadSkips("<!", x);
    IdentifiesUnknown(value, k);
    UnknownItem(x, depth);
    LeafScans(value, ">", k, ParsingUnknown, v => Unknown(v));
  }

  /** Markup other than elements is read back as its normalised self. */
  lemma {:induction false} LeafParses(n: Node, k: string, depth: nat)
    requires !IsPlainText(n) && !n.Element? && NodeShape(n, depth) && NodeNulFree(n)
    ensures SkipSpace(SpellNode(n, k)) != ""
    ensures ParseItem(SpellNode(n, k), depth) == ItemNode(NormalNode(n), k)
  {
    hide ParseItem, SkipSpace, Normalize, Lacks;
    match n
    case Text(value, _) => CDataParses(value, k, depth);
    case Comment(value) => CommentParses(value, k, depth);
    case Declaration(value) => DeclarationParses(value, k, depth);
    case Unknown(value) => UnknownParses(value, k, depth);
  }

  lemma {:induction false} TextItem(t: string, depth: nat)
    requires SkipSpace(t) != "" && SkipSpace(t)[0] != '<' && t[0] != '<'
    ensures ParseItem(t, depth) == ParsePlainText(t)
  {
    hide ScanNode, ParseElement, SkipSpace, Identify, ParsePlainText;
  }

  /** Plain text that is more than white space, in front of markup. */
  lemma {:induction false} TextParses(v: string, k: string, depth: nat)
    requires !AllSpace(v) && '\0' !in v && |k| >= 2 && k[0] == '<'
    ensures SkipSpace(Escape(v, true) + k) != ""
    ensures ParseItem(Escape(v, true) + k, depth) == ItemNode(Text(Normalize(v), false), k)
  {
    hide ParseItem, ParsePlainText, SkipSpace, Normalize, Escape, ValueOf, AllSpace;
    TextNotSkipped(v, k);
    TextItem(Escape(v, true) + k, depth);
    PlainTextScans(Escape(v, true), k);
    EscapedValue(v, true);
  }

  lemma {:induction false} EscapeCons(v: string, k: string)
    requires v != ""
    ensures Escape(v, true) + k == EscapeChar(v[0], true) + (Escape(v[1..], true) + k)
    ensures Escape(v, true) != ""
  {
    hide EscapeChar;
    Assoc(EscapeChar(v[0], true), Escape(v[1..], true), k);
  }

  /** How an escaped character starts. */
  lemma {:induction false} CharHead(c: char)
    ensures var e := EscapeChar(c, true);
      e != "" && e[0] != '<' && (if IsSpace(c) then e == [c] else !IsSpace(e[0]))
  {
  }

  lemma {:induction false} TextNotSkipped(v: string, k: string)
    requires !AllSpace(v)
    ensures Escape(v, true) != ""
    ensures SkipSpace(Escape(v, true) + k) != "" && SkipSpace(Escape(v, true) + k)[0] != '<'
    ensures (Escape(v, true) + k)[0] != '<'
  {
    hide Escape, SkipSpace, EscapeChar, IsSpace;
    var e, x := EscapeChar(v[0], true), Escape(v[1..], true) + k;
    EscapeCons(v, k);
    CharHead(v[0]);
    assert (e + x)[0] == e[0];
    if IsSpace(v[0]) {
      TailNotSpace(v);
      TextNotSkipped(v[1..], k);
      SpaceSkips(e, x);
    } else {
      HeadSkips(e, x);
    }
  }

  lemma {:induction false} TailNotSpace(v: string)
    requires !AllSpace(v) && IsSpace(v[0])
    ensures !AllSpace(v[1..])
  {
    var i :| 0 <= i < |v| && !IsSpace(v[i]);
    assert v[1..][i - 1] == v[i];
  }

  lemma {:induction false} PlainTextScans(body: string, k: string)
    requires '<' !in body && |k| >= 2 && k[0] == '<' && body != ""
    ensures ParsePlainText(body + k) == ItemNode(Text(ValueOf(body, true), false), k)
  {
    LacksChar(body, '<');
    TagsAreBorderless();
    ScansTo(body, "<", k[1..]);
    assert "<" + k[1..] == k;
    Cat(body, k);
  }

  lemma {:induction false} SpaceNotEscaped(v: string)
    requires AllSpace(v)
    ensures Escape(v, true) == v
  {
    if v != "" { SpaceNotEscaped(v[1..]); }
  }

  lemma {:induction false} SkipSpaceTwice(t: string)
    ensures SkipSpace(SkipSpace(t)) == SkipSpace(t)
  {
    if t != "" && IsSpace(t[0]) { SkipSpaceTwice(t[1..]); }
  }

  lemma {:induction false} SameItem(t: string, k: string, depth: nat)
    requires k != "" && k[0] == '<' && SkipSpace(t) == k && SkipSpace(k) == k
    ensures ParseItem(t, depth) == ParseItem(k, depth)
  {
    hide SkipSpace, ScanNode, ParseElement, ParsePlainText;
    assert Identify(k) != IsText;
    hide Identify;
  }

  lemma {:induction false} SameList(t: string, k: string, depth: nat, isDocument: bool, acc: seq<Node>)
    requires SkipSpace(t) == SkipSpace(k)
    requires SkipSpace(k) != "" ==> ParseItem(t, depth) == ParseItem(k, depth)
    ensures ParseList(t, depth, isDocument, acc) == ParseList(k, depth, isDocument, acc)
  {
    hide ParseItem, SkipSpace;
  }

  /** White space in front of markup, or of the end of the input, is dropped. */
  lemma {:induction false} SpaceDrops(v: string, k: string, depth: nat, isDocument: bool, acc: seq<Node>)
    requires AllSpace(v) && (k == "" || k[0] == '<')
    ensures ParseList(Escape(v, true) + k, depth, isDocument, acc) == ParseList(k, depth, isDocument, acc)
  {
    SpaceNotEscaped(v);
    SpaceSkips(v, k);
    assert SkipSpace(k) == k;
    hide SkipSpace, ParseList, ParseItem, Escape;
    if k != "" { SameItem(v + k, k, depth); }
    SameList(v + k, k, depth, isDocument, acc);
  }

  lemma {:induction false} MarkupStarts(n: Node, k: string)
    requires !IsPlainText(n) && (n.Element? ==> ValidName(n.name))
    ensures |SpellNode(n, k)| >= 2 && SpellNode(n, k)[0] == '<'
  {
    hide SpellAttributes, SpellList;
  }

  // ----- elements and lists -----

  /** What a list is followed by: nothing at document level, the end tag of its element elsewhere. */
  function Tail(isDocument: bool, name: string, k: string): string {
    if isDocument then "" else SpellEnd(name, k)
  }

  function ListResult(isDocument: bool, nodes: seq<Node>, name: string, k: string): List {
    if isDocument then ListDone(nodes) else ListEnd(nodes, name, k)
  }

  lemma {:induction false} EndParses(name: string, k: string, depth: nat, acc: seq<Node>)
    requires ValidName(name)
    ensures ParseList(SpellEnd(name, k), depth, false, acc) == ListEnd(acc, name, k)
  {
    var x := "/" + (name + (">" + k));
    assert x[0] == '/';
    hide Identify, ParseTag, SkipSpace, ParseItem, ParseList;
    EndTagParses(name, k);
    HeadSkips("<", x);
    IdentifiesElement(x);
    EndItem(x, name, k, depth);
    EndStep("<" + x, name, k, depth, acc);
  }

  lemma {:induction false} EndStep(t: string, name: string, k: string, depth: nat, acc: seq<Node>)
    requires SkipSpace(t) != "" && ParseItem(t, depth) == ItemEnd(name, k)
    ensures ParseList(t, depth, false, acc) == ListEnd(acc, name, k)
  {
    hide SkipSpace, ParseItem;
  }

  lemma {:induction false} EndItem(x: string, name: string, k: string, depth: nat)
    requires ParseTag(x) == TagOk(name, [], Closes, k)
    requires SkipSpace("<" + x) == "<" + x && Identify("<" + x) == IsElement
    ensures ParseItem("<" + x, depth) == ItemEnd(name, k)
  {
    hide Identify, ParseTag, SkipSpace, ParseList;
    Cat("<", x);
  }

  /** An element whose tag and children parse as expected parses as expected. */
  lemma {:induction false} ElementFromParts(name: string, after: string, attributes: seq<Attribute>, rest: string,
      children: seq<Node>,
      k: string, depth: nat)
    requires ValidName(name) && ParseTag(name + after) == TagOk(name, attributes, Open, rest)
    requires rest != "" && depth + 1 < MAX_ELEMENT_DEPTH
    requires ParseList(rest, depth + 1, false, []) == ListEnd(children, name, k)
    ensures SkipSpace("<" + (name + after)) != ""
    ensures ParseItem("<" + (name + after), depth) == ItemNode(Element(name, attributes, children), k)
  {
    hide ParseTag, ParseList, Identify, SkipSpace;
    HeadSkips("<", name + after);
    assert (name + after)[0] == name[0];
    IdentifiesElement(name + after);
  }

  lemma {:induction false} SealedFromParts(name: string, after: string, attributes: seq<Attribute>, k: string,
      depth: nat)
    requires ValidName(name) && ParseTag(name + after) == TagOk(name, attributes, Closed, k)
    ensures SkipSpace("<" + (name + after)) != ""
    ensures ParseItem("<" + (name + after), depth) == ItemNode(Element(name, attributes, []), k)
  {
    hide ParseTag, ParseList, Identify, SkipSpace;
    HeadSkips("<", name + after);
    assert (name + after)[0] == name[0];
    IdentifiesElement(name + after);
  }

  lemma {:induction false} ElementUnfolds(n: Node, k: string, depth: nat)
    requires n.Element? && NodeShape(n, depth) && NodeNulFree(n)
    ensures ValidName(n.name) && AttributesShape(n.attributes) && ValuesNulFree(n.attributes) && ListNulFree(n.children)
    ensures n.children != [] ==> depth + 1 < MAX_ELEMENT_DEPTH && ListShape(n.children, depth + 1, false)
    ensures n.children != [] ==> !n.children[0].Declaration?
    ensures NormalNode(n) == Element(n.name, NormalAttributes(n.attributes), NormalList(n.children))
    ensures SpellNode(n, k) == "<" + (n.name + SpellAttributes(n.attributes,
        if n.children == [] then TagEnd(true) + k else TagEnd(false) + SpellList(n.children, SpellEnd(n.name, k))))
  {
  }

  lemma {:induction false} ElementParses(n: Node, k: string, depth: nat)
    requires n.Element? && NodeShape(n, depth) && NodeNulFree(n) && depth < MAX_ELEMENT_DEPTH
    ensures SkipSpace(SpellNode(n, k)) != ""
    ensures ParseItem(SpellNode(n, k), depth) == ItemNode(NormalNode(n), k)
    decreases n, 1
  {
    var Element(name, attributes, children) := n;
    ElementUnfolds(n, k, depth);
    hide *;
    if children == [] {
      TagParses(name, attributes, true, k);
      SealedFromParts(name, SpellAttributes(attributes, TagEnd(true) + k), NormalAttributes(attributes), k, depth);
      NormalEmpty();
    } else {
      var inner := SpellList(children, SpellEnd(name, k));
      TagParses(name, attributes, false, inner);
      ElementChildren(n, k, depth);
      ListNotEmpty(children, name, k);
      ElementFromParts(name, SpellAttributes(attributes, TagEnd(false) + inner), NormalAttributes(attributes), inner,
                       NormalList(children), k, depth);
    }
  }

  lemma {:induction false} NormalEmpty()
    ensures NormalList([]) == []
  {
  }

  lemma {:induction false} ElementChildren(n: Node, k: string, depth: nat)
    requires n.Element? && n.children != [] && ValidName(n.name) && ListNulFree(n.children)
    requires depth + 1 < MAX_ELEMENT_DEPTH && ListShape(n.children, depth + 1, false)
    ensures ParseList(SpellList(n.children, SpellEnd(n.name, k)), depth + 1, false, []) ==
      ListEnd(NormalList(n.children), n.name, k)
    decreases n, 0
  {
    hide ParseList, SpellList, SpellEnd, NormalList, ListShape, ListNulFree;
    ListParses(n.children, depth + 1, false, [], n.name, k);
    assert [] + NormalList(n.children) == NormalList(n.children);
  }

  lemma {:induction false} ListTail(ns: seq<Node>, depth: nat, isDocument: bool)
    requires ns != [] && ListShape(ns, depth, isDocument) && ListNulFree(ns)
    ensures NodeShape(ns[0], depth) && NodeNulFree(ns[0]) && ListShape(ns[1..], depth, isDocument)
    ensures ListNulFree(ns[1..])
    ensures ns[0].Declaration? ==> isDocument
    ensures |ns| > 1 && IsPlainText(ns[0]) ==> !IsPlainText(ns[1])
    ensures |ns| > 1 && ns[1].Declaration? ==> ns[0].Declaration?
    ensures |ns| > 1 && ns[1].Element? ==> ValidName(ns[1].name)
  {
    var tail := ns[1..];
    assert forall i :: 0 <= i < |tail| ==> tail[i] == ns[i + 1];
    forall i | 0 <= i < |tail| && tail[i].Declaration? ensures isDocument && AllDeclarations(tail[..i]) {
      assert ns[i + 1].Declaration?;
      assert forall j :: 0 <= j < i ==> tail[..i][j] == ns[..i + 1][j + 1];
    }
    if |ns| > 1 && ns[1].Declaration? { assert ns[..1][0] == ns[0]; }
  }

  lemma {:induction false} ListStep(t: string, n: Node, rest: string, depth: nat, isDocument: bool, acc: seq<Node>)
    requires SkipSpace(t) != "" && ParseItem(t, depth) == ItemNode(n, rest)
    requires n.Declaration? ==> isDocument && AllDeclarations(acc)
    ensures ParseList(t, depth, isDocument, acc) == ParseList(rest, depth, isDocument, acc + [n])
  {
    hide ParseItem, SkipSpace;
  }

  /** What follows a plain text is the end of the document, or markup. */
  lemma {:induction false} AfterText(ns: seq<Node>, depth: nat, isDocument: bool, name: string, k: string)
    requires ns != [] && ListShape(ns, depth, isDocument) && ListNulFree(ns) && IsPlainText(ns[0])
    ensures var rest := SpellList(ns[1..], Tail(isDocument, name, k));
            (|ns| == 1 && isDocument && rest == "") || (|rest| >= 2 && rest[0] == '<')
  {
    ListTail(ns, depth, isDocument);
    hide SpellNode;
    if |ns| > 1 {
      MarkupStarts(ns[1], SpellList(ns[1..][1..], Tail(isDocument, name, k)));
    }
  }

  /** A list of document shape parses to its normal form. */
  lemma {:induction false} ListParses(ns: seq<Node>, depth: nat, isDocument: bool, acc: seq<Node>, name: string,
      k: string)
    requires ListShape(ns, depth, isDocument) && ListNulFree(ns) && depth < MAX_ELEMENT_DEPTH
    requires isDocument || ValidName(name)
    requires ns != [] && ns[0].Declaration? ==> AllDeclarations(acc)
    requires isDocument ==> !EndsInText(ns)
    ensures ParseList(SpellList(ns, Tail(isDocument, name, k)), depth, isDocument, acc) ==
            ListResult(isDocument, acc + NormalList(ns), name, k)
    decreases ns, 0
  {
    hide ParseItem, SkipSpace, NodeShape, NodeNulFree, ListShape, ListNulFree, SpellNode, NormalNode, Escape, SpellEnd;
    if ns == [] {
      assert acc + [] == acc;
      if !isDocument { EndParses(name, k, depth, acc); } else { EmptyParses(depth, acc); }
    } else {
      var n, tail, rest := ns[0], ns[1..], SpellList(ns[1..], Tail(isDocument, name, k));
      ListTail(ns, depth, isDocument);
      if IsPlainText(n) && AllSpace(n.value) {
        AfterText(ns, depth, isDocument, name, k);
        SpellText(n, rest);
        SpaceDrops(n.value, rest, depth, isDocument, acc);
        ListParses(tail, depth, isDocument, acc, name, k);
      } else {
        var m := NormalNode(n);
        ItemParses(ns, depth, isDocument, name, k);
        ListStep(SpellNode(n, rest), m, rest, depth, isDocument, acc);
        ListParses(tail, depth, isDocument, acc + [m], name, k);
        AppendOne(acc, m, NormalList(tail));
      }
    }
  }

  /** A document that ends in plain text which is more than white space. */
  predicate EndsInText(ns: seq<Node>) {
    ns != [] && IsPlainText(ns[|ns| - 1]) && !AllSpace(ns[|ns| - 1].value)
  }

  lemma {:induction false} EmptyParses(depth: nat, acc: seq<Node>)
    ensures ParseList("", depth, true, acc) == ListDone(acc)
  {
  }

  lemma {:induction false} SpellText(n: Node, k: string)
    requires IsPlainText(n)
    ensures SpellNode(n, k) == Escape(n.value, true) + k && NormalNode(n) == Text(Normalize(n.value), false)
    ensures NodeNulFree(n) ==> '\0' !in n.value
  {
  }

  lemma {:induction false} ItemParses(ns: seq<Node>, depth: nat, isDocument: bool, name: string, k: string)
    requires ns != [] && ListShape(ns, depth, isDocument) && ListNulFree(ns) && depth < MAX_ELEMENT_DEPTH
    requires !(IsPlainText(ns[0]) && AllSpace(ns[0].value))
    requires isDocument && EndsInText(ns) ==> |ns| > 1
    ensures var t, rest := SpellList(ns, Tail(isDocument, name, k)), SpellList(ns[1..], Tail(isDocument, name, k));
            SkipSpace(t) != "" && ParseItem(t, depth) == ItemNode(NormalNode(ns[0]), rest)
    ensures NormalNode(ns[0]).Declaration? <==> ns[0].Declaration?
    decreases ns[0], 2
  {
    var n, rest := ns[0], SpellList(ns[1..], Tail(isDocument, name, k));
    assert NormalNode(n).Declaration? <==> n.Declaration?;
    hide ParseItem, SkipSpace, NodeShape, NodeNulFree, ListShape, ListNulFree, SpellNode, NormalNode, Escape;
    ListTail(ns, depth, isDocument);
    if IsPlainText(n) {
      AfterText(ns, depth, isDocument, name, k);
      SpellText(n, rest);
      TextParses(n.value, rest, depth);
    } else if n.Element? {
      ElementParses(n, rest, depth);
    } else {
      LeafParses(n, rest, depth);
    }
  }

  // ----- spelling is printing -----

  lemma {:induction false} SpellAttributesIsPrint(attributes: seq<Attribute>, k: string)
    ensures SpellAttributes(attributes, k) == PrintAttributes(attributes) + k
  {
    if attributes != [] {
      SpellAttributesIsPrint(attributes[1..], k);
      var name, value, tail := attributes[0].name, Escape(attributes[0].value, false), PrintAttributes(attributes[1..]);
      hide Escape;
      SevenParts(name, value, tail, k);
    } else {
      assert "" + k == k;
    }
  }

  lemma {:induction false} SevenParts(name: string, value: string, tail: string, k: string)
    ensures " " + (name + ("=" + ("\"" + (value + ("\"" + (tail + k)))))) ==
      (" " + name + "=\"" + value + "\"" + tail) + k
  {
    assert "=\"" == "=" + "\"";
  }

  lemma {:induction false} SpellNodeIsPrint(n: Node, k: string)
    ensures SpellNode(n, k) == PrintNode(n) + k
    decreases n, 1
  {
    match n
    case Element(name, attributes, children) =>
      var pa := PrintAttributes(attributes);
      hide PrintAttributes, SpellAttributes, Escape, PrintNodes;
      if children == [] {
        SpellAttributesIsPrint(attributes, "/>" + k);
        ThreeParts(name, pa, k);
      } else {
        var pc, end := PrintNodes(children), SpellEnd(name, k);
        SpellListIsPrint(children, end);
        SpellAttributesIsPrint(attributes, ">" + (pc + end));
        FiveParts(name, pa, pc, k);
      }
    case Text(value, cdata) => if cdata { LeafParts("<![CDATA[", value, "]]>", k); }
    case Comment(value) => LeafParts("<!--", value, "-->", k);
    case Declaration(value) => LeafParts("<?", value, "?>", k);
    case Unknown(value) => LeafParts("<!", value, ">", k);
  }

  lemma {:induction false} LeafParts(head: string, value: string, tag: string, k: string)
    ensures head + (value + (tag + k)) == (head + value + tag) + k
  {
  }

  lemma {:induction false} ThreeParts(name: string, pa: string, k: string)
    ensures "<" + (name + (pa + ("/>" + k))) == ("<" + name + pa + "/>") + k
  {
  }

  lemma {:induction false} FiveParts(name: string, pa: string, pc: string, k: string)
    ensures "<" + (name + (pa + (">" + (pc + ("<" + ("/" + (name + (">" + k)))))))) ==
            ("<" + name + pa + (">" + pc + "</" + name + ">")) + k
  {
    assert "</" == "<" + "/";
  }

  lemma {:induction false} SpellListIsPrint(ns: seq<Node>, k: string)
    ensures SpellList(ns, k) == PrintNodes(ns) + k
    decreases ns, 0
  {
    hide PrintNode, SpellNode;
    if ns == [] {
      assert "" + k == k;
    } else {
      SpellListIsPrint(ns[1..], k);
      SpellNodeIsPrint(ns[0], PrintNodes(ns[1..]) + k);
      Assoc(PrintNode(ns[0]), PrintNodes(ns[1..]), k);
    }
  }

  lemma {:induction false} ListNotEmpty(ns: seq<Node>, name: string, k: string)
    ensures SpellList(ns, SpellEnd(name, k)) != ""
  {
    SpellListIsPrint(ns, SpellEnd(name, k));
  }
}