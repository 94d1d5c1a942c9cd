/** The tinyxml2 parser as the C++ code runs it: a cursor into the character buffer, loops that scan
    and collect, a parsing depth and an error code in the document. Each method is proved against the
    parsing functions of `XmlDoc`. The buffer is the C string without its terminator; a cursor at its
    end is a pointer to the terminator. */
module XmlParser {
  import opened Common
  import opened XmlText
  import opened XmlDoc
  import opened XmlBuffer
  import opened XmlSpans

  lemma {:induction false} SkipOne(t: string)
    requires t != ""
    ensures SkipSpace(t) == if IsSpace(t[0]) then SkipSpace(t[1..]) else t
  {
  }

  lemma {:induction false} FindTagStep(t: string, tag: string)
    requires tag != "" && t != ""
    ensures FindTag(t, tag) ==
      if |t| < |tag| then None else if tag <= t then Some(0)
      else match FindTag(t[1..], tag) case None => None case Some(k) => Some(k + 1)
  {
  }

  lemma {:induction false} FindTagShort(t: string, tag: string)
    requires |t| < |tag|
    ensures FindTag(t, tag) == None
  {
  }

  class Parser {
    const buffer: CText
    var depth: nat
    var error: Option<XmlError>

    constructor (text: string)
      ensures buffer == CString(text) && depth == 0 && error == None
    {
      buffer := CString(text);
      depth, error := 0, None;
    }

    /** The input at a cursor. */
    ghost function Rest(p: nat): string
      requires p <= |buffer|
    {
      buffer[p..]
    }

    /** The first place for a string of a node that starts at a cursor: not the "<" itself. */
    ghost function Low(p: nat): nat
      requires p <= |buffer|
    {
      if p < |buffer| && buffer[p] == '<' then p + 1 else p
    }

    /** The first place for an attribute behind a cursor. */
    ghost function From(p: nat): nat
      requires p <= |buffer|
    {
      if p < |buffer| && IsNameStart(buffer[p]) then p else p + 1
    }

    /** `XMLUtil::SkipWhiteSpace`. */
    method SkipWhiteSpace(p: nat) returns (q: nat)
      requires p <= |buffer|
      ensures p <= q <= |buffer| && Rest(q) == SkipSpace(Rest(p))
    {
      hide SkipSpace;
      q := p;
      while q < |buffer| && IsSpace(buffer[q])
        invariant p <= q <= |buffer| && SkipSpace(Rest(q)) == SkipSpace(Rest(p))
      {
        SkipOne(Rest(q));
        assert Rest(q)[1..] == Rest(q + 1);
        q := q + 1;
      }
      if q < |buffer| { SkipOne(Rest(q)); } else { SkipNothing(); }
    }

    lemma {:induction false} SkipNothing()
      ensures SkipSpace("") == ""
    {
    }

    /** `StrPair::ParseText`: where the end tag starts, if there is one. */
    method ParseText(p: nat, tag: string) returns (k: Option<nat>)
      requires p <= |buffer| && tag != ""
      ensures k == None ==> ScanText(Rest(p), tag) == NotFound
      ensures k.Some? ==> p <= k.value && k.value + |tag| <= |buffer| && buffer[k.value..k.value + |tag|] == tag
      ensures k.Some? ==> ScanText(Rest(p), tag) == Found(buffer[p..k.value], Rest(k.value + |tag|))
    {
      hide *;
      var q := p;
      while q < |buffer|
        invariant p <= q <= |buffer|
        invariant FindTag(Rest(p), tag) == match FindTag(Rest(q), tag) case None => None case Some(j) => Some(q - p + j)
      {
        TextStep(q, tag);
        if q + |tag| <= |buffer| && buffer[q] == tag[0] && buffer[q..q + |tag|] == tag {
          FoundHere(p, q, tag);
          return Some(q);
        }
        q := q + 1;
      }
      NotFoundAnywhere(p, tag);
      return None;
    }

    lemma {:induction false} TextStep(q: nat, tag: string)
      requires q < |buffer| && tag != ""
      ensures FindTag(Rest(q), tag) ==
        if q + |tag| <= |buffer| && buffer[q] == tag[0] && buffer[q..q + |tag|] == tag then Some(0)
        else match FindTag(Rest(q + 1), tag) case None => None case Some(k) => Some(k + 1)
    {
      FindTagStep(Rest(q), tag);
      TagHere(buffer, q, tag);
      assert Rest(q)[1..] == Rest(q + 1);
      hide FindTag;
      if |Rest(q)| < |tag| { FindTagShort(Rest(q + 1), tag); }
    }

    lemma {:induction false} NotFoundAnywhere(p: nat, tag: string)
      requires p <= |buffer| && tag != ""
      requires FindTag(Rest(p), tag) ==
        match FindTag(Rest(|buffer|), tag) case None => None case Some(j) => Some(|buffer| - p + j)
      ensures ScanText(Rest(p), tag) == NotFound
    {
      hide FindTag;
      FindTagShort(Rest(|buffer|), tag);
    }

    lemma {:induction false} FoundHere(p: nat, q: nat, tag: string)
      requires p <= q && q + |tag| <= |buffer| && tag != "" && FindTag(Rest(p), tag) == Some(q - p)
      ensures ScanText(Rest(p), tag) == Found(buffer[p..q], Rest(q + |tag|))
    {
      assert Rest(p)[..q - p] == buffer[p..q];
      assert Rest(p)[q - p + |tag|..] == Rest(q + |tag|);
    }

    /** `StrPair::ParseName`: the end of the name, or the start if there is none. */
    method ParseName(p: nat) returns (q: nat)
      requires p <= |buffer|
      ensures p <= q <= |buffer| && ScanName(Rest(p)) == buffer[p..q]
      ensures p < q ==> From(q) == q + 1
    {
      hide NameLen;
      if p == |buffer| || !IsNameStart(buffer[p]) { return p; }
      q := p + 1;
      while q < |buffer| && IsNameChar(buffer[q])
        invariant p < q <= |buffer| && forall i :: p <= i < q ==> IsNameChar(buffer[i])
      {
        q := q + 1;
      }
      NameEnds(p, q);
    }

    lemma {:induction false} NameEnds(p: nat, q: nat)
      requires p < q <= |buffer| && (forall i :: p <= i < q ==> IsNameChar(buffer[i]))
      requires q < |buffer| ==> !IsNameChar(buffer[q])
      ensures NameLen(Rest(p)) == q - p && Rest(p)[..q - p] == buffer[p..q]
    {
      hide NameLen, IsNameChar;
      var t, n := Rest(p), NameLen(Rest(p));
      assert forall i :: 0 <= i < |t| ==> t[i] == buffer[p + i];
    }

    lemma {:induction false} Head(p: nat)
      requires p < |buffer|
      ensures Rest(p) != "" && Rest(p)[0] == buffer[p] && Rest(p)[1..] == Rest(p + 1)
    {
    }

    lemma {:induction false} Drop(p: nat, n: nat)
      requires p + n <= |buffer|
      ensures Rest(p)[n..] == Rest(p + n)
    {
    }

    /** The value of an attribute: an equals sign and a quoted text. */
    method ParseValue(p: nat) returns (r: Option<(string, nat)>, s: Span)
      requires p <= |buffer|
      ensures r == None ==> ScanValue(Rest(p)) == NotFound
      ensures r.Some? ==> p <= r.value.1 <= |buffer| && ScanValue(Rest(p)) == Found(r.value.0, Rest(r.value.1))
      ensures r.Some? ==> SpanAt(buffer, s, p + 2, r.value.1 - 1, ValueOf(r.value.0, true))
    {
      hide *;
      r, s := None, Span(0, 0, NoProcessing);
      var q := SkipWhiteSpace(p);
      NoValue(p, q);
      if q == |buffer| || buffer[q] != '=' { return; }
      var q2 := SkipWhiteSpace(q + 1);
      QuotedValue(p, q, q2);
      if q2 == |buffer| || (buffer[q2] != '\"' && buffer[q2] != '\'') { return; }
      var k := ParseText(q2 + 1, [buffer[q2]]);
      if k == None { return; }
      ValueSpan(buffer, q2 + 1, k.value, true, p + 2, k.value);
      return Some((buffer[q2 + 1..k.value], k.value + 1)), Span(q2 + 1, k.value, NewlinesAndEntities);
    }

    lemma {:induction false} NoValue(p: nat, q: nat)
      requires p <= q <= |buffer| && Rest(q) == SkipSpace(Rest(p))
      ensures q == |buffer| || buffer[q] != '=' ==> ScanValue(Rest(p)) == NotFound
    {
      hide SkipSpace, ScanText;
      if q < |buffer| { Head(q); }
    }

    lemma {:induction false} QuotedValue(p: nat, q: nat, q2: nat)
      requires p <= q < q2 <= |buffer| && Rest(q) == SkipSpace(Rest(p)) && buffer[q] == '='
      requires Rest(q2) == SkipSpace(Rest(q + 1))
      ensures ScanValue(Rest(p)) ==
        if q2 == |buffer| || (buffer[q2] != '\"' && buffer[q2] != '\'') then NotFound
        else ScanText(Rest(q2 + 1), [buffer[q2]])
    {
      hide SkipSpace, ScanText;
      Head(q);
      if q2 < |buffer| { Head(q2); }
      hide Rest;
    }

    /** `XMLAttribute::ParseDeep`. */
    method ParseAttribute(p: nat) returns (r: Option<(Attribute, nat)>, spans: seq<Span>)
      requires p <= |buffer|
      ensures r == None ==> XmlDoc.ParseAttribute(Rest(p)) == AttributeFail
      ensures r.Some? ==>
        p < r.value.1 <= |buffer| && XmlDoc.ParseAttribute(Rest(p)) == AttributeOk(r.value.0, Rest(r.value.1))
      ensures r.Some? ==> Laid(buffer, spans, p, r.value.1 - 1, [r.value.0.name, r.value.0.value])
    {
      hide ScanName, ScanValue, ValueOf, Laid, SpanAt, From;
      r, spans := None, [];
      var n := ParseName(p);
      if n == p { return; }
      Drop(p, n - p);
      var v, s := ParseValue(n);
      if v == None { return; }
      NameSpan(buffer, p, n, p, n);
      AttributeLaid(buffer, Span(p, n, NoProcessing), s, p, n, n + 2, v.value.1 - 1, buffer[p..n],
        ValueOf(v.value.0, true));
      return Some((Attribute(buffer[p..n], ValueOf(v.value.0, true)), v.value.1)), [Span(p, n, NoProcessing), s];
    }

    /** `XMLElement::ParseAttributes`: the attributes, and the end of the tag with whether it was sealed. */
    method ParseAttributes(start: nat) returns (attributes: seq<Attribute>, r: Option<(bool, nat)>, spans: seq<Span>)
      requires start <= |buffer| && error == None
      modifies `error
      ensures match XmlDoc.ParseAttributes(Rest(start), [])
        case AttributesFail(e) => r == None && error == Some(e)
        case AttributesOk(found, sealed, rest) =>
          && error == None
          && r.Some?
          && r.value.0 == sealed
          && start < r.value.1 <= |buffer|
          && attributes == found
          && rest == Rest(r.value.1)
      ensures r.Some? ==> Laid(buffer, spans, From(start), r.value.1 - 1, AttributeLeaves(attributes))
    {
      hide *;
      attributes, r, spans := [], None, [];
      var p := start;
      ghost var last := From(start) - 1;
      LaidNone(buffer, From(start), last);
      while true
        invariant start <= p <= |buffer| && error == None && r == None
        invariant XmlDoc.ParseAttributes(Rest(p), attributes) == XmlDoc.ParseAttributes(Rest(start), [])
        invariant last == if p == start then From(start) - 1 else p - 1
        invariant Laid(buffer, spans, From(start), last, AttributeLeaves(attributes))
        decreases |buffer| - p
      {
        var q := SkipWhiteSpace(p);
        AttributesStep(p, q, attributes);
        NextAttribute(start, p, q);
        if q == |buffer| {
          error := Some(ParsingElement);
          return;
        }
        if IsNameStart(buffer[q]) {
          var a, s := ParseAttribute(q);
          if a == None || HasAttribute(attributes, a.value.0.name) {
            error := Some(ParsingAttribute);
            return;
          }
          MoreAttributes(buffer, spans, s, From(start), last, q, a.value.1 - 1, attributes, a.value.0);
          attributes, spans := attributes + [a.value.0], spans + s;
          p, last := a.value.1, a.value.1 - 1;
        } else if buffer[q] == '>' {
          LaidWiden(buffer, spans, From(start), last, AttributeLeaves(attributes), From(start), q);
          r := Some((false, q + 1));
          return;
        } else if buffer[q] == '/' && q + 1 < |buffer| && buffer[q + 1] == '>' {
          LaidWiden(buffer, spans, From(start), last, AttributeLeaves(attributes), From(start), q + 1);
          r := Some((true, q + 2));
          return;
        } else {
          error := Some(ParsingElement);
          return;
        }
      }
    }

    lemma {:induction false} NextAttribute(start: nat, p: nat, q: nat)
      requires start <= p <= q <= |buffer|
      ensures From(start) - 1 <= q && (q < |buffer| && IsNameStart(buffer[q]) ==> From(start) <= q)
    {
    }

    /** One round of that loop, in terms of the buffer. */
    lemma {:induction false} AttributesStep(p: nat, q: nat, acc: seq<Attribute>)
      requires p <= q <= |buffer| && Rest(q) == SkipSpace(Rest(p))
      ensures XmlDoc.ParseAttributes(Rest(p), acc) ==
        if q == |buffer| then AttributesFail(ParsingElement)
        else if IsNameStart(buffer[q]) then
          (match XmlDoc.ParseAttribute(Rest(q))
           case AttributeFail => AttributesFail(ParsingAttribute)
           case AttributeOk(a, rest) =>
             if HasAttribute(acc, a.name) then AttributesFail(ParsingAttribute)
             else XmlDoc.ParseAttributes(rest, acc + [a]))
        else if buffer[q] == '>' then AttributesOk(acc, false, Rest(q + 1))
        else if buffer[q] == '/' && q + 1 < |buffer| && buffer[q + 1] == '>' then AttributesOk(acc, true, Rest(q + 2))
        else AttributesFail(ParsingElement)
    {
      hide SkipSpace, XmlDoc.ParseAttribute, HasAttribute;
      if q < |buffer| {
        Head(q);
        TagHere(buffer, q, "/>");
        if q + 2 <= |buffer| {
          Drop(q, 2);
          SealHere(q);
        }
      }
    }

    lemma {:induction false} SealHere(q: nat)
      requires q + 2 <= |buffer|
      ensures buffer[q..q + 2] == "/>" <==> buffer[q] == '/' && buffer[q + 1] == '>'
    {
      var t := buffer[q..q + 2];
      assert t[0] == buffer[q] && t[1] == buffer[q + 1];
    }

    // ----- nodes -----

    /** The first half of `XMLElement::ParseDeep`: the tag itself. Without a name it fails silently. */
    method ParseTag(p: nat) returns (r: Option<(string, seq<Attribute>, Closing, nat)>, spans: seq<Span>)
      requires p <= |buffer| && error == None
      modifies `error
      ensures match XmlDoc.ParseTag(Rest(p))
        case TagFail(e) => r == None && Reported(error, e)
        case TagOk(name, attributes, closing, rest) =>
          error == None && r.Some? && r.value.0 == name && r.value.1 == attributes && r.value.2 == closing
          && p < r.value.3 <= |buffer| && rest == Rest(r.value.3)
      ensures r.Some? ==> Laid(buffer, spans, p, r.value.3 - 1, [r.value.0] + AttributeLeaves(r.value.1))
    {
      hide *;
      r, spans := None, [];
      var q := SkipWhiteSpace(p);
      var closes := q < |buffer| && buffer[q] == '/';
      var v := if closes then q + 1 else q;
      var n := ParseName(v);
      if n == v {
        NamelessTag(p, q, v, n);
        return;
      }
      NamedTag(p, q, v, n);
      var attributes, end, s := ParseAttributes(n);
      if end == None {
        ReportedIs(error);
        return;
      }
      NameSpan(buffer, v, n, p, n);
      TagLaid(buffer, Span(v, n, NoProcessing), s, p, n, n + 1, end.value.1 - 1, buffer[v..n], attributes);
      return Some((buffer[v..n], attributes,
                   if end.value.0 then Closed else if closes then Closes else Open, end.value.1)),
             [Span(v, n, NoProcessing)] + s;
    }

    lemma {:induction false} ReportedIs(error: Option<XmlError>)
      requires error.Some?
      ensures Reported(error, error.value)
    {
    }

    lemma {:induction false} NamelessTag(p: nat, q: nat, v: nat, n: nat)
      requires p <= q <= v == n <= |buffer| && Rest(q) == SkipSpace(Rest(p))
      requires v == if q < |buffer| && buffer[q] == '/' then q + 1 else q
      requires ScanName(Rest(v)) == buffer[v..n]
      ensures XmlDoc.ParseTag(Rest(p)) == TagFail(Parsing) && Reported(None, Parsing)
    {
      TagIs(p, q, v);
      hide ScanName, XmlDoc.ParseTag;
    }

    lemma {:induction false} NamedTag(p: nat, q: nat, v: nat, n: nat)
      requires p <= q <= v < n <= |buffer| && Rest(q) == SkipSpace(Rest(p))
      requires v == if q < |buffer| && buffer[q] == '/' then q + 1 else q
      requires ScanName(Rest(v)) == buffer[v..n]
      ensures XmlDoc.ParseTag(Rest(p)) == match XmlDoc.ParseAttributes(Rest(n), [])
        case AttributesFail(e) => TagFail(e)
        case AttributesOk(attributes, sealed, rest) =>
          TagOk(buffer[v..n], attributes,
            if sealed then Closed else if q < |buffer| && buffer[q] == '/' then Closes else Open, rest)
    {
      hide *;
      TagIs(p, q, v);
      Drop(v, n - v);
    }

    lemma {:induction false} TagIs(p: nat, q: nat, v: nat)
      requires p <= q <= v <= |buffer| && Rest(q) == SkipSpace(Rest(p))
      requires v == if q < |buffer| && buffer[q] == '/' then q + 1 else q
      ensures XmlDoc.ParseTag(Rest(p)) ==
        if ScanName(Rest(v)) == "" then TagFail(Parsing)
        else match XmlDoc.ParseAttributes(Rest(v)[|ScanName(Rest(v))|..], [])
          case AttributesFail(e) => TagFail(e)
          case AttributesOk(attributes, sealed, rest) =>
            TagOk(ScanName(Rest(v)), attributes,
              if sealed then Closed else if q < |buffer| && buffer[q] == '/' then Closes else Open, rest)
    {
      hide SkipSpace, ScanName, XmlDoc.ParseAttributes;
      if q < |buffer| { Head(q); }
    }

    /** The nodes that are just text up to an end tag; `fault` is their error. */
    method ParseRaw(p: nat, tag: string, fault: XmlError) returns (r: Option<(string, nat)>, s: Span)
      requires p <= |buffer| && tag != "" && error == None
      modifies `error
      ensures match ScanText(Rest(p), tag)
        case NotFound => r == None && error == Some(fault)
        case Found(raw, rest) =>
          && error == None
          && r.Some?
          && r.value.0 == ValueOf(raw, false)
          && p < r.value.1 <= |buffer|
          && rest == Rest(r.value.1)
      ensures r.Some? ==> SpanAt(buffer, s, p, r.value.1 - 1, r.value.0)
    {
      hide *;
      r, s := None, Span(0, 0, NoProcessing);
      var k := ParseText(p, tag);
      if k == None {
        error := Some(fault);
        return;
      }
      ValueSpan(buffer, p, k.value, false, p, k.value + |tag| - 1);
      return Some((ValueOf(buffer[p..k.value], false), k.value + |tag|)), Span(p, k.value, Newlines);
    }

    /** `XMLText::ParseDeep` for plain text; the cursor is put back on the "<". */
    method ParsePlain(p: nat) returns (r: Option<(Node, nat)>, s: Span)
      requires p < |buffer| && buffer[p] != '<' && error == None
      modifies `error
      ensures Rest(p) != "" && Rest(p)[0] != '<'
      ensures match ParsePlainText(Rest(p))
        case ItemFail(e) => r == None && Reported(error, e)
        case ItemNode(node, rest) =>
          error == None && r.Some? && r.value.0 == node && p < r.value.1 <= |buffer| && rest == Rest(r.value.1)
      ensures r.Some? ==>
        r.value.0.Text? && SpanAt(buffer, s, p, r.value.1, r.value.0.value) && Low(r.value.1) == r.value.1 + 1
    {
      Head(p);
      hide ScanText, ValueOf, SpanAt;
      r, s := None, Span(0, 0, NoProcessing);
      var k := ParseText(p, "<");
      if k == None {
        error := Some(ParsingText);
        return;
      }
      Drop(p, k.value - p);
      if k.value + 1 == |buffer| { return; }
      ValueSpan(buffer, p, k.value, true, p, k.value);
      assert buffer[k.value..k.value + 1][0] == buffer[k.value];
      return Some((Text(ValueOf(buffer[p..k.value], true), false), k.value)), Span(p, k.value, NewlinesAndEntities);
    }

    /** The outcome of one node against the function. */
    ghost predicate IsItem(item: Item, p: nat, r: Option<(Piece, nat)>)
      requires p <= |buffer|
      reads this`error
    {
      match item
      case ItemFail(e) => r == None && Reported(error, e)
      case ItemNode(node, rest) =>
        error == None && r.Some? && r.value.0 == PieceNode(node) && p < r.value.1 <= |buffer| && rest == Rest(r.value.1)
      case ItemEnd(name, rest) =>
        error == None && r.Some? && r.value.0 == PieceEnd(name) && p < r.value.1 <= |buffer| && rest == Rest(r.value.1)
    }

    /** The strings of the node, if it is one, lie between the cursors. */
    ghost predicate NodeLaid(r: Option<(Piece, nat)>, spans: seq<Span>, lo: nat, inside: bool) {
      r.Some? && r.value.0.PieceNode? ==>
        && r.value.1 <= |buffer|
        && Laid(buffer, spans, lo, if inside then r.value.1 - 1 else Low(r.value.1) - 1, Leaves(r.value.0.node))
    }

    /** `Identify` and the `ParseDeep` of the node it creates. `q` is the cursor after the white space. */
    method ParseNode(p: nat, q: nat) returns (r: Option<(Piece, nat)>, spans: seq<Span>)
      requires p <= q < |buffer| && Rest(q) == SkipSpace(Rest(p)) && SkipSpace(Rest(p)) != "" && error == None
      modifies `error, `depth
      ensures depth == old(depth) && IsItem(ParseItem(Rest(p), depth), p, r)
      ensures NodeLaid(r, spans, Low(p), false)
      decreases |buffer| - q, 1
    {
      hide Identify, ParseItem, XmlDoc.ParseElement, SkipSpace, ScanText, ValueOf, ParsePlainText, StartsWith;
      hide SpanAt, Laid, Leaves, NodeLaid, Low;
      KindAt(q);
      NodeItem(p, q, depth);
      if StartsWith(q, "<?") {
        var raw, s := ParseRaw(q + 2, "?>", ParsingDeclaration);
        r := if raw == None then None else Some((PieceNode(Declaration(raw.value.0)), raw.value.1));
        spans := [s];
        LeafBetween(p, q + 2, r, s);
      } else if StartsWith(q, "<!--") {
        var raw, s := ParseRaw(q + 4, "-->", ParsingComment);
        r := if raw == None then None else Some((PieceNode(Comment(raw.value.0)), raw.value.1));
        spans := [s];
        LeafBetween(p, q + 4, r, s);
      } else if StartsWith(q, "<![CDATA[") {
        var raw, s := ParseRaw(q + 9, "]]>", ParsingCData);
        r := if raw == None then None else Some((PieceNode(Text(raw.value.0, true)), raw.value.1));
        spans := [s];
        LeafBetween(p, q + 9, r, s);
      } else if StartsWith(q, "<!") {
        var raw, s := ParseRaw(q + 2, ">", ParsingUnknown);
        r := if raw == None then None else Some((PieceNode(Unknown(raw.value.0)), raw.value.1));
        spans := [s];
        LeafBetween(p, q + 2, r, s);
      } else if StartsWith(q, "<") {
        r, spans := ParseElement(q);
        ElementBetween(p, q, r, spans);
      } else {
        var text, s := ParsePlain(p);
        r := if text == None then None else Some((PieceNode(text.value.0), text.value.1));
        spans := [s];
        TextBetween(p, r, s);
      }
    }

    lemma {:induction false} LeafBetween(p: nat, lo: nat, r: Option<(Piece, nat)>, s: Span)
      requires p < lo <= |buffer|
      requires r.Some? ==> r.value.0.PieceNode? && !r.value.0.node.Element? && lo < r.value.1 <= |buffer|
      requires r.Some? ==> SpanAt(buffer, s, lo, r.value.1 - 1, r.value.0.node.value)
      ensures NodeLaid(r, [s], Low(p), false)
    {
      hide SpanAt, Laid, Leaves;
      if r.Some? {
        var n, hi := r.value.0.node, r.value.1 - 1;
        LeafLaid(buffer, s, lo, hi, n);
        LaidWiden(buffer, [s], lo, hi, Leaves(n), Low(p), Low(r.value.1) - 1);
      }
    }

    lemma {:induction false} TextBetween(p: nat, r: Option<(Piece, nat)>, s: Span)
      requires p < |buffer| && buffer[p] != '<'
      requires r.Some? ==>
        r.value.0.PieceNode? && r.value.0.node.Text? && r.value.1 <= |buffer| && Low(r.value.1) == r.value.1 + 1
      requires r.Some? ==> SpanAt(buffer, s, p, r.value.1, r.value.0.node.value)
      ensures NodeLaid(r, [s], Low(p), false)
    {
      hide SpanAt, Laid, Leaves;
      if r.Some? { LeafLaid(buffer, s, p, r.value.1, r.value.0.node); }
    }

    lemma {:induction false} ElementBetween(p: nat, q: nat, r: Option<(Piece, nat)>, spans: seq<Span>)
      requires p <= q < |buffer| && NodeLaid(r, spans, q + 1, true)
      ensures NodeLaid(r, spans, Low(p), false)
    {
      hide Laid, Leaves;
      if r.Some? && r.value.0.PieceNode? {
        LaidWiden(buffer, spans, q + 1, r.value.1 - 1, Leaves(r.value.0.node), Low(p), Low(r.value.1) - 1);
      }
    }

    lemma {:induction false} PrefixAt(q: nat, tag: string)
      requires q <= |buffer|
      ensures tag <= Rest(q) <==> StartsWith(q, tag)
    {
      if q + |tag| <= |buffer| { assert Rest(q)[..|tag|] == buffer[q..q + |tag|]; }
    }

    /** `Identify`, read off the buffer. */
    lemma {:induction false} KindAt(q: nat)
      requires q < |buffer|
      ensures Rest(q) != ""
      ensures Identify(Rest(q)) ==
        if StartsWith(q, "<?") then IsDeclaration
        else if StartsWith(q, "<!--") then IsComment
        else if StartsWith(q, "<![CDATA[") then IsCData
        else if StartsWith(q, "<!") then IsUnknown
        else if StartsWith(q, "<") then IsElement
        else IsText
    {
      PrefixAt(q, "<?");
      PrefixAt(q, "<!--");
      PrefixAt(q, "<![CDATA[");
      PrefixAt(q, "<!");
      PrefixAt(q, "<");
      hide StartsWith, Rest;
    }

    lemma {:induction false} Long(q: nat, tag: string)
      requires q <= |buffer| && tag <= Rest(q)
      ensures q + |tag| <= |buffer| && Rest(q)[|tag|..] == Rest(q + |tag|)
    {
    }

    /** What `ParseItem` does for each kind, in terms of the buffer. */
    lemma {:induction false} NodeItem(p: nat, q: nat, depth: nat)
      requires p <= q < |buffer| && Rest(q) == SkipSpace(Rest(p)) && Rest(q) != ""
      ensures match Identify(Rest(q))
        case IsDeclaration =>
          && q + 2 <= |buffer|
          && ParseItem(Rest(p), depth) == ScanNode(Rest(q + 2), "?>", ParsingDeclaration, v => Declaration(v))
        case IsComment =>
          && q + 4 <= |buffer|
          && ParseItem(Rest(p), depth) == ScanNode(Rest(q + 4), "-->", ParsingComment, v => Comment(v))
        case IsCData =>
          && q + 9 <= |buffer|
          && ParseItem(Rest(p), depth) == ScanNode(Rest(q + 9), "]]>", ParsingCData, v => Text(v, true))
        case IsUnknown =>
          q + 2 <= |buffer| && ParseItem(Rest(p), depth) == ScanNode(Rest(q + 2), ">", ParsingUnknown, v => Unknown(v))
        case IsElement => Rest(q)[0] == '<' && ParseItem(Rest(p), depth) == XmlDoc.ParseElement(Rest(q), depth)
        case IsText => Rest(p) != "" && Rest(p)[0] != '<' && ParseItem(Rest(p), depth) == ParsePlainText(Rest(p))
    {
      hide SkipSpace, ScanNode, ParsePlainText, XmlDoc.ParseElement;
      match Identify(Rest(q))
      case IsDeclaration => Long(q, "<?");
      case IsComment => Long(q, "<!--");
      case IsCData => Long(q, "<![CDATA[");
      case IsUnknown => Long(q, "<!");
      case IsElement =>
      case IsText => TextStart(Rest(p));
    }

    lemma {:induction false} TextStart(t: string)
      requires SkipSpace(t) != "" && SkipSpace(t)[0] != '<'
      ensures t != "" && t[0] != '<'
    {
    }

    /** `XMLElement::ParseDeep`, with what the parent's loop makes of its end tag. */
    method ParseElement(q: nat) returns (r: Option<(Piece, nat)>, spans: seq<Span>)
      requires q < |buffer| && Rest(q) != "" && Rest(q)[0] == '<' && error == None
      modifies `error, `depth
      ensures depth == old(depth) && IsItem(XmlDoc.ParseElement(Rest(q), depth), q, r)
      ensures NodeLaid(r, spans, q + 1, true)
      decreases |buffer| - q, 0
    {
      hide XmlDoc.ParseElement, XmlDoc.ParseTag, Content, Rest, ParseItem, ParseList, SkipSpace, Laid, Leaves;
      hide AttributeLeaves, ListLeaves, Low;
      ElementIs(q, depth);
      r, spans := None, [];
      var tag, s := ParseTag(q + 1);
      if tag == None { return; }
      var name, attributes, closing, end := tag.value.0, tag.value.1, tag.value.2, tag.value.3;
      if closing == Closes { return Some((PieceEnd(name), end)), []; }
      if closing == Closed {
        EmptyElementLaid(buffer, s, q + 1, end - 1, name, attributes);
        return Some((PieceNode(Element(name, attributes, [])), end)), s;
      }
      var inner;
      r, inner := ParseContent(name, attributes, end);
      spans := s + inner;
      WithContent(q, end, r, s, inner, name, attributes);
    }

    lemma {:induction false} WithContent(q: nat, end: nat, r: Option<(Piece, nat)>, s: seq<Span>, inner: seq<Span>,
        name: string, attributes: seq<Attribute>)
      requires q + 1 < end <= |buffer| && Laid(buffer, s, q + 1, end - 1, [name] + AttributeLeaves(attributes))
      requires ContentLaid(r, inner, end, name, attributes)
      ensures NodeLaid(r, s + inner, q + 1, true)
    {
      hide Laid, Leaves, AttributeLeaves, ListLeaves;
      if r.Some? && r.value.0.PieceNode? {
        ElementLaid(buffer, s, inner, q + 1, end - 1, Low(end), r.value.1 - 1, name, attributes,
          r.value.0.node.children);
      }
    }

    /** The strings of the children of an element, whose start tag ends at `end`. */
    ghost predicate ContentLaid(r: Option<(Piece, nat)>, spans: seq<Span>, end: nat, name: string,
        attributes: seq<Attribute>)
      requires end <= |buffer|
    {
      r.Some? && r.value.0.PieceNode? ==>
        && end < r.value.1 <= |buffer|
        && r.value.0.node.Element? && r.value.0.node.name == name && r.value.0.node.attributes == attributes
        && Laid(buffer, spans, Low(end), r.value.1 - 1, ListLeaves(r.value.0.node.children))
    }

    /** The rest of an element whose start tag is open. */
    method ParseContent(name: string, attributes: seq<Attribute>, end: nat)
      returns (r: Option<(Piece, nat)>, spans: seq<Span>)
      requires 0 < end <= |buffer| && error == None
      modifies `error, `depth
      ensures depth == old(depth) && IsItem(Content(name, attributes, Rest(end), depth), end - 1, r)
      ensures ContentLaid(r, spans, end, name, attributes)
      decreases |buffer| - end, 4
    {
      hide ParseList, Laid, ListLeaves, Low;
      r, spans := None, [];
      if end == |buffer| {
        error := Some(MismatchedElement);
        return;
      }
      var children, ended, after, s := ParseChildren(end, false);
      assert Rest(end) != "";
      hide Rest;
      if ended == None { return; }
      if ended.value != name {
        error := Some(MismatchedElement);
        return;
      }
      return Some((PieceNode(Element(name, attributes, children)), after)), s;
    }

    lemma {:induction false} ElementIs(q: nat, depth: nat)
      requires q < |buffer| && Rest(q) != "" && Rest(q)[0] == '<'
      ensures XmlDoc.ParseElement(Rest(q), depth) == match XmlDoc.ParseTag(Rest(q + 1))
        case TagFail(e) => ItemFail(e)
        case TagOk(name, attributes, closing, rest) =>
          if closing == Closes then ItemEnd(name, rest)
          else if closing == Closed then ItemNode(Element(name, attributes, []), rest)
          else Content(name, attributes, rest, depth)
    {
      hide XmlDoc.ParseTag, ParseList, ParseItem, SkipSpace, Rest;
      Drop(q, 1);
      Unfolded(Rest(q), depth);
    }

    /** The outcome of a child list against the function. */
    ghost predicate IsList(list: List, p: nat, nodes: seq<Node>, ended: Option<string>, after: nat)
      requires p <= |buffer|
      reads this`error
    {
      match list
      case ListFail(e) => ended == None && error == Some(e)
      case ListDone(found) => ended == None && error == None && nodes == found
      case ListEnd(found, name, rest) =>
        error == None && nodes == found && ended == Some(name) && p < after <= |buffer| && rest == Rest(after)
    }

    /** `XMLNode::ParseDeep`: the loop over the children. The depth is raised for its duration, and
        whatever happens it is the old one afterwards. */
    method ParseChildren(start: nat, isDocument: bool)
      returns (nodes: seq<Node>, ended: Option<string>, after: nat, spans: seq<Span>)
      requires start <= |buffer| && error == None
      modifies `error, `depth
      ensures depth == old(depth)
      ensures depth + 1 == MAX_ELEMENT_DEPTH ==> ended == None && error == Some(ElementDepthExceeded)
      ensures depth + 1 != MAX_ELEMENT_DEPTH ==>
        IsList(ParseList(Rest(start), depth + 1, isDocument, []), start, nodes, ended, after)
      ensures error == None ==> ListLaid(nodes, ended, after, spans, start)
      decreases |buffer| - start, 3
    {
      hide ParseList, Rest, ListLaid;
      depth := depth + 1;
      nodes, ended, after, spans := [], None, start, [];
      if depth == MAX_ELEMENT_DEPTH {
        error := Some(ElementDepthExceeded);
        depth := depth - 1;
        return;
      }
      nodes, ended, after, spans := ParseLoop(start, isDocument);
      depth := depth - 1;
    }

    /** The strings of a child list lie between its start and its end tag, or the end. */
    ghost predicate ListLaid(nodes: seq<Node>, ended: Option<string>, after: nat, spans: seq<Span>, start: nat)
      requires start <= |buffer|
    {
      Laid(buffer, spans, Low(start), if ended.Some? then after - 1 else |buffer|, ListLeaves(nodes))
    }

    lemma {:induction false} ListEnds(nodes: seq<Node>, ended: Option<string>, after: nat, spans: seq<Span>,
        start: nat, p: nat)
      requires start <= p <= |buffer| && (ended.Some? ==> p < after)
      requires Laid(buffer, spans, Low(start), Low(p) - 1, ListLeaves(nodes))
      ensures ListLaid(nodes, ended, after, spans, start)
    {
      hide Laid, ListLeaves;
      LaidWiden(buffer, spans, Low(start), Low(p) - 1, ListLeaves(nodes), Low(start),
        if ended.Some? then after - 1 else |buffer|);
    }

    lemma {:induction false} ListGrows(nodes: seq<Node>, node: Node, spans: seq<Span>, s: seq<Span>, start: nat,
        p: nat, p': nat)
      requires start <= p < p' <= |buffer| && Laid(buffer, spans, Low(start), Low(p) - 1, ListLeaves(nodes))
      requires NodeLaid(Some((PieceNode(node), p')), s, Low(p), false)
      ensures Laid(buffer, spans + s, Low(start), Low(p') - 1, ListLeaves(nodes + [node]))
    {
      hide Laid, ListLeaves, Leaves;
      MoreNodes(buffer, spans, s, Low(start), Low(p) - 1, Low(p), Low(p') - 1, nodes, node);
    }

    method ParseLoop(start: nat, isDocument: bool)
      returns (nodes: seq<Node>, ended: Option<string>, after: nat, spans: seq<Span>)
      requires start <= |buffer| && error == None
      modifies `error, `depth
      ensures depth == old(depth) && IsList(ParseList(Rest(start), depth, isDocument, []), start, nodes, ended, after)
      ensures error == None ==> ListLaid(nodes, ended, after, spans, start)
      decreases |buffer| - start, 2
    {
      hide ParseItem, SkipSpace, Rest, ParseList, DeclarationAllowed, ListLaid, NodeLaid, Laid, ListLeaves, Low;
      nodes, ended, after, spans := [], None, start, [];
      LaidNone(buffer, Low(start), Low(start) - 1);
      var p := start;
      while true
        invariant start <= p <= |buffer| && error == None && depth == old(depth)
        invariant ParseList(Rest(p), depth, isDocument, nodes) == ParseList(Rest(start), depth, isDocument, [])
        invariant ended == None && Laid(buffer, spans, Low(start), Low(p) - 1, ListLeaves(nodes))
        decreases |buffer| - p
      {
        var q := SkipWhiteSpace(p);
        ListStep(p, q, depth, isDocument, nodes);
        if q == |buffer| {
          ListEnds(nodes, ended, after, spans, start, p);
          return;
        }
        var piece, s := ParseNode(p, q);
        if piece == None {
          if error == None { error := Some(Parsing); }
          return;
        }
        match piece.value.0 {
          case PieceEnd(name) =>
            ended, after := Some(name), piece.value.1;
            ListEnds(nodes, ended, after, spans, start, p);
            return;
          case PieceNode(node) =>
            if node.Declaration? && !DeclarationAllowed(isDocument, nodes) {
              error := Some(ParsingDeclaration);
              return;
            }
            ListGrows(nodes, node, spans, s, start, p, piece.value.1);
            nodes, spans := nodes + [node], spans + s;
            p := piece.value.1;
        }
      }
    }

    /** One round of the loop. */
    lemma {:induction false} ListStep(p: nat, q: nat, depth: nat, isDocument: bool, acc: seq<Node>)
      requires p <= q <= |buffer| && Rest(q) == SkipSpace(Rest(p))
      ensures q == |buffer| ==> ParseList(Rest(p), depth, isDocument, acc) == ListDone(acc)
      ensures q < |buffer| ==> SkipSpace(Rest(p)) != ""
      ensures q < |buffer| ==> ParseList(Rest(p), depth, isDocument, acc) == match ParseItem(Rest(p), depth)
        case ItemFail(e) => ListFail(e)
        case ItemEnd(name, rest) => ListEnd(acc, name, rest)
        case ItemNode(node, rest) =>
          if node.Declaration? && !DeclarationAllowed(isDocument, acc) then ListFail(ParsingDeclaration)
          else ParseList(rest, depth, isDocument, acc + [node])
    {
      hide ParseItem, SkipSpace, DeclarationAllowed;
    }

    /** `XMLDocument::Parse` on a fresh document. */
    method ParseDocument(ghost text: string) returns (document: Document, spans: seq<Span>)
      requires buffer == CString(text) && depth == 0 && error == None
      modifies this
      ensures depth == 0
      ensures match XmlDoc.Parse(text)
        case ParseFail(e) => error == Some(e)
        case ParseOk(parsed) => error == None && document == parsed
      ensures error == None ==> Laid(buffer, spans, 0, |buffer|, ListLeaves(document.children))
    {
      hide ParseList, CString, SkipSpace, ListLaid, Laid, ListLeaves;
      spans := [];
      assert Rest(0) == buffer;
      var p := SkipWhiteSpace(0);
      PrefixAt(p, BOM);
      var bom := StartsWith(p, BOM);
      document := Document(bom, []);
      if bom {
        Long(p, BOM);
        p := p + 3;
      }
      if p == |buffer| {
        error := Some(EmptyDocument);
        return;
      }
      var nodes, ended, after, s := ParseChildren(p, true);
      document, spans := Document(bom, nodes), s;
      if error == None { AllLaid(nodes, ended, after, s, p); }
    }

    lemma {:induction false} AllLaid(nodes: seq<Node>, ended: Option<string>, after: nat, spans: seq<Span>, start: nat)
      requires start <= |buffer| && (ended.Some? ==> after <= |buffer|) && ListLaid(nodes, ended, after, spans, start)
      ensures Laid(buffer, spans, 0, |buffer|, ListLeaves(nodes))
    {
      hide Laid, ListLeaves;
      LaidWiden(buffer, spans, Low(start), if ended.Some? then after - 1 else |buffer|, ListLeaves(nodes), 0, |buffer|);
    }

    /** `XMLUtil::StringEqual` with a length. */
    predicate StartsWith(q: nat, tag: string)
      requires q <= |buffer|
    {
      q + |tag| <= |buffer| && buffer[q..q + |tag|] == tag
    }
  }

  /** An element after its open start tag. */
  function Content(name: string, attributes: seq<Attribute>, rest: string, depth: nat): Item {
    if rest == "" then ItemFail(MismatchedElement)
    else if depth + 1 == MAX_ELEMENT_DEPTH then ItemFail(ElementDepthExceeded)
    else match ParseList(rest, depth + 1, false, [])
      case ListFail(e) => ItemFail(e)
      case ListDone(_) => ItemFail(Parsing)
      case ListEnd(children, end, rest') =>
        if end == name then ItemNode(Element(name, attributes, children), rest') else ItemFail(MismatchedElement)
  }

  lemma {:induction false} Unfolded(u: string, depth: nat)
    requires u != "" && u[0] == '<'
    ensures XmlDoc.ParseElement(u, depth) == match XmlDoc.ParseTag(u[1..])
      case TagFail(e) => ItemFail(e)
      case TagOk(name, attributes, closing, rest) =>
        if closing == Closes then ItemEnd(name, rest)
        else if closing == Closed then ItemNode(Element(name, attributes, []), rest)
        else Content(name, attributes, rest, depth)
  {
    hide XmlDoc.ParseTag, ParseList, ParseItem, SkipSpace;
  }

  /** What one round of the child loop finds: a node, or an end tag for the parent. */
  datatype Piece = PieceNode(node: Node) | PieceEnd(name: string)

  /** A failure is recorded, or it is the general parse error that the caller will record. */
  predicate Reported(error: Option<XmlError>, e: XmlError) {
    error == Some(e) || (error == None && e == Parsing)
  }

  lemma {:induction false} TagHere(b: string, q: nat, tag: string)
    requires q < |b| && tag != ""
    ensures tag <= b[q..] <==> q + |tag| <= |b| && b[q] == tag[0] && b[q..q + |tag|] == tag
  {
    if q + |tag| <= |b| {
      assert b[q..][..|tag|] == b[q..q + |tag|];
      if b[q..q + |tag|] == tag { assert b[q..q + |tag|][0] == b[q]; }
    }
  }
}
