/** The tinyxml2 document tree, its compact printer and its recursive-descent parser.

    The parser works on the rest of the input, a string that the C code sees as the bytes up to the
    terminating '\0'. Entity processing is on and white space is preserved, the defaults. */
module XmlDoc {
  import opened Common
  import opened XmlText

  datatype Attribute = Attribute(name: string, value: string)

  datatype Node =
    | Element(name: string, attributes: seq<Attribute>, children: seq<Node>)
    | Text(value: string, cdata: bool)
    | Comment(value: string)
    | Declaration(value: string)
    | Unknown(value: string)

  datatype Document = Document(bom: bool, children: seq<Node>)

  datatype XmlError =
    | ParsingElement | ParsingAttribute | ParsingText | ParsingCData | ParsingComment | ParsingDeclaration
    | ParsingUnknown | EmptyDocument | MismatchedElement | Parsing | ElementDepthExceeded

  const MAX_ELEMENT_DEPTH: nat := 100

  /** The three UTF-8 lead bytes. */
  const BOM: string := [239 as char, 187 as char, 191 as char]

  predicate IsPlainText(n: Node) {
    n.Text? && !n.cdata
  }

  // ----- printing, compact -----

  function PrintAttributes(attributes: seq<Attribute>): string {
    if attributes == [] then ""
    else " " + attributes[0].name + "=\"" + Escape(attributes[0].value, false) + "\"" + PrintAttributes(attributes[1..])
  }

  function PrintNode(n: Node): string
    decreases n, 1
  {
    match n
    case Element(name, attributes, children) =>
      "<" + name + PrintAttributes(attributes) +
      (if children == [] then "/>" else ">" + PrintNodes(children) + "</" + name + ">")
    case Text(value, cdata) => if cdata then "<![CDATA[" + value + "]]>" else Escape(value, true)
    case Comment(value) => "<!--" + value + "-->"
    case Declaration(value) => "<?" + value + "?>"
    case Unknown(value) => "<!" + value + ">"
  }

  function PrintNodes(ns: seq<Node>): string
    decreases ns, 0
  {
    if ns == [] then "" else PrintNode(ns[0]) + PrintNodes(ns[1..])
  }

  function Print(doc: Document): string {
    (if doc.bom then BOM else "") + PrintNodes(doc.children)
  }

  // ----- scanning -----

  /** Where `StrPair::ParseText` stops: the first occurrence of the end tag. */
  function FindTag(t: string, tag: string): (r: Option<nat>)
    requires tag != ""
    ensures r.Some? ==> r.value + |tag| <= |t| && t[r.value..r.value + |tag|] == tag
  {
    if |t| < |tag| then None
    else if tag <= t then Some(0)
    else match FindTag(t[1..], tag)
      case None => None
      case Some(k) => assert t[1..][k..k + |tag|] == t[k + 1..k + 1 + |tag|]; Some(k + 1)
  }

  predicate TagAt(t: string, tag: string, k: nat) {
    k + |tag| <= |t| && t[k..k + |tag|] == tag
  }

  lemma {:induction false} SliceOfRest(t: string, i: nat, j: nat)
    requires 0 < i <= j <= |t|
    ensures t[1..][i - 1..j - 1] == t[i..j]
  {
  }

  /** `FindTag` finds the first occurrence, and fails only if there is none. */
  lemma {:induction false} FindTagIsFirst(t: string, tag: string)
    requires tag != ""
    ensures match FindTag(t, tag)
      case None => forall j: nat :: !TagAt(t, tag, j)
      case Some(k) => TagAt(t, tag, k) && forall j: nat :: j < k ==> !TagAt(t, tag, j)
  {
    if |t| >= |tag| && !(tag <= t) {
      FindTagIsFirst(t[1..], tag);
      assert !TagAt(t, tag, 0) by { assert t[0..|tag|] == t[..|tag|]; }
      forall j: nat | j > 0 ensures TagAt(t, tag, j) == TagAt(t[1..], tag, j - 1) {
        if j + |tag| <= |t| { SliceOfRest(t, j, j + |tag|); }
      }
    }
  }

  /** The raw text up to an end tag, and the input after the tag. */
  datatype Scan = NotFound | Found(raw: string, rest: string)

  function ScanText(t: string, tag: string): (r: Scan)
    requires tag != ""
    ensures r.Found? ==> t == r.raw + tag + r.rest
  {
    match FindTag(t, tag)
    case None => NotFound
    case Some(k) => Found(t[..k], t[k + |tag|..])
  }

  function NameLen(t: string): (n: nat)
    ensures n <= |t| && (forall i :: 0 <= i < n ==> IsNameChar(t[i])) && (n < |t| ==> !IsNameChar(t[n]))
  {
    if t != "" && IsNameChar(t[0]) then 1 + NameLen(t[1..]) else 0
  }

  predicate ValidName(name: string) {
    name != "" && IsNameStart(name[0]) && forall i :: 0 <= i < |name| ==> IsNameChar(name[i])
  }

  /** `StrPair::ParseName`: the longest name at the head of the input, empty if there is none. */
  function ScanName(t: string): (name: string)
    ensures name <= t && (name != "" ==> ValidName(name))
  {
    if t != "" && IsNameStart(t[0]) then t[..NameLen(t)] else ""
  }

  /** The value that `GetStr` will deliver for a raw piece of the buffer. */
  function ValueOf(raw: string, entities: bool): (v: string)
    ensures '\0' !in v
  {
    CString(Decode(raw, 0, 0, entities))
  }

  // ----- attributes -----

  datatype AttributeResult = AttributeFail | AttributeOk(attribute: Attribute, rest: string)

  /** The part of an attribute after its name: an equals sign and a quoted text. */
  function ScanValue(t: string): (r: Scan)
    ensures r.Found? ==> |r.rest| < |t|
  {
    var t1 := SkipSpace(t);
    if t1 == "" || t1[0] != '=' then NotFound
    else
      var t2 := SkipSpace(t1[1..]);
      if t2 == "" || (t2[0] != '\"' && t2[0] != '\'') then NotFound else ScanText(t2[1..], [t2[0]])
  }

  /** `XMLAttribute::ParseDeep`. */
  function ParseAttribute(t: string): (r: AttributeResult)
    ensures r.AttributeOk? ==> ValidName(r.attribute.name) && '\0' !in r.attribute.value && |r.rest| < |t|
  {
    var name := ScanName(t);
    if name == "" then AttributeFail
    else match ScanValue(t[|name|..])
      case NotFound => AttributeFail
      case Found(raw, rest) => AttributeOk(Attribute(name, ValueOf(raw, true)), rest)
  }

  datatype AttributesResult =
    | AttributesFail(error: XmlError)
    | AttributesOk(attributes: seq<Attribute>, sealed: bool, rest: string)

  predicate HasAttribute(attributes: seq<Attribute>, name: string) {
    exists i :: 0 <= i < |attributes| && attributes[i].name == name
  }

  /** `XMLElement::ParseAttributes`, with the attributes read so far. */
  function ParseAttributes(t: string, acc: seq<Attribute>): (r: AttributesResult)
    ensures r.AttributesOk? ==> |r.rest| < |t|
    decreases |t|
  {
    var u := SkipSpace(t);
    if u == "" then AttributesFail(ParsingElement)
    else if IsNameStart(u[0]) then
      match ParseAttribute(u)
      case AttributeFail => AttributesFail(ParsingAttribute)
      case AttributeOk(a, rest) =>
        if HasAttribute(acc, a.name) then AttributesFail(ParsingAttribute) else ParseAttributes(rest, acc + [a])
    else if u[0] == '>' then AttributesOk(acc, false, u[1..])
    else if "/>" <= u then AttributesOk(acc, true, u[2..])
    else AttributesFail(ParsingElement)
  }

  // ----- nodes -----

  datatype Closing = Open | Closed | Closes

  /** An element up to the end of its own tag. A failure without an error code is reported by the
      caller. Note that "</a/>" counts as sealed: the attribute loop overwrites the closing type. */
  datatype Tag =
    | TagFail(error: XmlError)
    | TagOk(name: string, attributes: seq<Attribute>, closing: Closing, rest: string)

  function ParseTag(t: string): (r: Tag)
    ensures r.TagOk? ==> ValidName(r.name) && |r.rest| < |t|
  {
    var u := SkipSpace(t);
    var closes := u != "" && u[0] == '/';
    var v := if closes then u[1..] else u;
    var name := ScanName(v);
    if name == "" then TagFail(Parsing)
    else match ParseAttributes(v[|name|..], [])
      case AttributesFail(e) => TagFail(e)
      case AttributesOk(attributes, sealed, rest) =>
        TagOk(name, attributes, if sealed then Closed else if closes then Closes else Open, rest)
  }

  /** One round of the `XMLNode::ParseDeep` loop: an error, a node, or an end tag for the caller. */
  datatype Item = ItemFail(error: XmlError) | ItemNode(node: Node, rest: string) | ItemEnd(name: string, rest: string)

  /** How a child list ends: at an end tag, at the end of the input, or with an error. */
  datatype List = ListEnd(nodes: seq<Node>, name: string,
    rest: string) | ListDone(nodes: seq<Node>) | ListFail(error: XmlError)

  function ScanNode(t: string, tag: string, error: XmlError, make: string -> Node): (r: Item)
    requires tag != ""
    ensures !r.ItemEnd? && (r.ItemNode? ==> |r.rest| < |t|)
  {
    match ScanText(t, tag)
    case NotFound => ItemFail(error)
    case Found(raw, rest) => ItemNode(make(ValueOf(raw, false)), rest)
  }

  /** `XMLText::ParseDeep` for plain text: the "<" that ends it is left in the input. */
  function ParsePlainText(t: string): (r: Item)
    requires t != "" && t[0] != '<'
    ensures !r.ItemEnd? && (r.ItemNode? ==> |r.rest| < |t| && IsPlainText(r.node) && "<" <= r.rest)
  {
    match ScanText(t, "<")
    case NotFound => ItemFail(ParsingText)
    case Found(raw, rest) =>
      if rest == "" then ItemFail(Parsing) else ItemNode(Text(ValueOf(raw, true), false), t[|raw|..])
  }

  datatype Kind = IsDeclaration | IsComment | IsCData | IsUnknown | IsElement | IsText

  /** `XMLDocument::Identify`, on input without leading white space; the order matters. */
  function Identify(u: string): (k: Kind)
    requires u != ""
    ensures k == IsText <==> u[0] != '<'
  {
    if "<?" <= u then IsDeclaration
    else if "<!--" <= u then IsComment
    else if "<![CDATA[" <= u then IsCData
    else if "<!" <= u then IsUnknown
    else if "<" <= u then IsElement
    else IsText
  }

  /** The node at the head of the input: `Identify` and the `ParseDeep` it selects, for input with
      something besides white space. `depth` is the parsing depth of the surrounding list. */
  function ParseItem(t: string, depth: nat): (r: Item)
    requires SkipSpace(t) != ""
    ensures r.ItemNode? ==> |r.rest| < |t|
    ensures r.ItemEnd? ==> |r.rest| < |t|
    decreases |t|, 1
  {
    var u := SkipSpace(t);
    match Identify(u)
    case IsDeclaration => ScanNode(u[2..], "?>", ParsingDeclaration, v => Declaration(v))
    case IsComment => ScanNode(u[4..], "-->", ParsingComment, v => Comment(v))
    case IsCData => ScanNode(u[9..], "]]>", ParsingCData, v => Text(v, true))
    case IsUnknown => ScanNode(u[2..], ">", ParsingUnknown, v => Unknown(v))
    case IsElement => ParseElement(u, depth)
    case IsText => assert t[0] != '<'; ParsePlainText(t)
  }

  function ParseElement(u: string, depth: nat): (r: Item)
    requires u != "" && u[0] == '<'
    ensures r.ItemNode? ==> |r.rest| < |u|
    ensures r.ItemEnd? ==> |r.rest| < |u|
    decreases |u|, 0
  {
    match ParseTag(u[1..])
    case TagFail(e) => ItemFail(e)
    case TagOk(name, attributes, closing, rest) =>
      if closing == Closes then ItemEnd(name, rest)
      else if closing == Closed then ItemNode(Element(name, attributes, []), rest)
      else if rest == "" then ItemFail(MismatchedElement)
      else if depth + 1 == MAX_ELEMENT_DEPTH then ItemFail(ElementDepthExceeded)
      else match ParseList(rest, depth + 1, false, [])
        case ListFail(e) => ItemFail(e)
        case ListDone(_) => ItemFail(Parsing)
        case ListEnd(children, end, rest') =>
          if end == name then ItemNode(Element(name, attributes, children), rest') else ItemFail(MismatchedElement)
  }

  /** Whether a declaration may follow: only at document level, after nothing but declarations. */
  predicate DeclarationAllowed(isDocument: bool, acc: seq<Node>) {
    isDocument && (acc == [] || (acc[0].Declaration? && acc[|acc| - 1].Declaration?))
  }

  /** The loop of `XMLNode::ParseDeep`, with the children read so far. */
  function ParseList(t: string, depth: nat, isDocument: bool, acc: seq<Node>): (r: List)
    ensures r.ListEnd? ==> |r.rest| < |t|
    decreases |t|, 2
  {
    if SkipSpace(t) == "" then ListDone(acc)
    else match ParseItem(t, depth)
      case ItemFail(e) => ListFail(e)
      case ItemEnd(name, rest) => ListEnd(acc, name, rest)
      case ItemNode(node, rest) =>
        if node.Declaration? && !DeclarationAllowed(isDocument, acc) then ListFail(ParsingDeclaration)
        else ParseList(rest, depth, isDocument, acc + [node])
  }

  datatype ParseResult = ParseOk(document: Document) | ParseFail(error: XmlError)

  /** `XMLDocument::Parse`. An end tag at document level ends the parse without an error. */
  function Parse(buffer: string): (r: ParseResult) {
    var t := SkipSpace(CString(buffer));
    var bom := BOM <= t;
    var u := if bom then t[3..] else t;
    if u == "" then ParseFail(EmptyDocument)
    else match ParseList(u, 1, true, [])
      case ListFail(e) => ParseFail(e)
      case ListDone(nodes) => ParseOk(Document(bom, nodes))
      case ListEnd(nodes, _, _) => ParseOk(Document(bom, nodes))
  }
}
