/** Character data of tinyxml2: character classes, escaping as the printer writes it, and the
    decoding that `StrPair::GetStr` performs.

    A C `char` is modelled as a Dafny `char`; a C string is a `string` without '\0'. */
module XmlText {
  import opened Common

  const CR: char := '\r'
  const LF: char := '\n'

  // ----- character classes (the C locale) -----

  predicate IsSpace(c: char) {
    c == ' ' || '\t' <= c <= '\r'
  }

  predicate IsNameStart(c: char) {
    c as int >= 128 || 'a' <= c <= 'z' || 'A' <= c <= 'Z' || c == ':' || c == '_'
  }

  predicate IsNameChar(c: char) {
    IsNameStart(c) || '0' <= c <= '9' || c == '.' || c == '-'
  }

  predicate AllSpace(s: string) {
    forall i :: 0 <= i < |s| ==> IsSpace(s[i])
  }

  /** `XMLUtil::SkipWhiteSpace`, on the rest of the input. */
  function SkipSpace(t: string): (r: string)
    ensures |r| <= |t| && r == t[|t| - |r|..]
    ensures AllSpace(t[..|t| - |r|])
    ensures r != "" ==> !IsSpace(r[0])
  {
    if t != "" && IsSpace(t[0]) then
      var r := SkipSpace(t[1..]);
      assert t[..|t| - |r|] == [t[0]] + t[1..][..|t[1..]| - |r|];
      r
    else t
  }

  /** What a C string function sees of a buffer: everything before the first '\0'. */
  function CString(s: string): (r: string)
    ensures r <= s && '\0' !in r
    ensures '\0' !in s ==> r == s
  {
    if s == "" || s[0] == '\0' then "" else [s[0]] + CString(s[1..])
  }

  /** `strchr`: the first position of `c`. */
  function IndexOf(t: string, c: char): (r: Option<nat>)
    ensures r.Some? ==> r.value < |t| && t[r.value] == c && c !in t[..r.value]
    ensures r.None? ==> c !in t
  {
    if t == "" then None
    else if t[0] == c then Some(0)
    else match IndexOf(t[1..], c)
      case None => None
      case Some(k) => assert t[..k + 1] == [t[0]] + t[1..][..k]; Some(k + 1)
  }

  // ----- numeric character references -----

  function DigitValue(c: char, base: nat): (r: Option<nat>)
    requires base == 10 || base == 16
    ensures r.Some? ==> r.value < base
  {
    if '0' <= c <= '9' then Some((c as int) - ('0' as int))
    else if base == 16 && 'a' <= c <= 'f' then Some((c as int) - ('a' as int) + 10)
    else if base == 16 && 'A' <= c <= 'F' then Some((c as int) - ('A' as int) + 10)
    else None
  }

  /** The release-build accumulation of `GetCharacterRef`: it walks backwards from index `i` until
      it meets `stop`, scaling in `unsigned` arithmetic and summing into an `unsigned long`. */
  function Accumulate(t: string, i: nat, stop: char, base: nat, mult: nat, ucs: nat): Option<nat>
    requires base == 10 || base == 16
    requires i < |t| && exists j :: 0 <= j <= i && t[j] == stop
    decreases i
  {
    if t[i] == stop then Some(ucs)
    else match DigitValue(t[i], base)
      case None => None
      case Some(d) =>
        Accumulate(t, i - 1, stop, base, mult * base % WORD32, (ucs + mult * d % WORD32) % WORD64)
  }

  function ByteOf(n: nat): char
    requires n < 256
  {
    n as char
  }

  /** `XMLUtil::ConvertUTF32ToUTF8`. Values from 0x200000 up are dropped. */
  function Utf8(n: nat): (r: string)
    ensures |r| <= 4
  {
    if n < 0x80 then [ByteOf(n)]
    else if n < 0x800 then [ByteOf(0xC0 + n / 64), ByteOf(0x80 + n % 64)]
    else if n < 0x10000 then [ByteOf(0xE0 + n / 4096), ByteOf(0x80 + n / 64 % 64), ByteOf(0x80 + n % 64)]
    else if n < 0x200000 then
      [ByteOf(0xF0 + n / 262144), ByteOf(0x80 + n / 4096 % 64), ByteOf(0x80 + n / 64 % 64), ByteOf(0x80 + n % 64)]
    else ""
  }

  /** The outcome of `GetCharacterRef`: a null return, or the bytes produced and the input consumed. */
  datatype CharRef = NotRef | Ref(bytes: string, consumed: nat)

  predicate StartsRef(t: string) {
    |t| >= 2 && t[0] == '&' && t[1] == '#'
  }

  /** `XMLUtil::GetCharacterRef` on input that starts with "&#". The bytes never outgrow the
      reference, which is what lets `GetStr` decode in place. */
  function CharacterRef(t: string): (r: CharRef)
    requires StartsRef(t)
    ensures r.Ref? ==> 0 < r.consumed <= |t| && |r.bytes| <= r.consumed
  {
    if |t| == 2 then Ref("", 1)
    else if t[2] == 'x' then
      match IndexOf(t[3..], ';')
      case None => NotRef
      case Some(k) => Finish(t, k + 3, 'x', 16)
    else
      match IndexOf(t[2..], ';')
      case None => NotRef
      case Some(k) => Finish(t, k + 2, '#', 10)
  }

  function Finish(t: string, semi: nat, stop: char, base: nat): (r: CharRef)
    requires StartsRef(t) && 2 <= semi < |t|
    requires (stop == '#' && base == 10) || (stop == 'x' && base == 16 && 3 <= semi && t[2] == 'x')
    ensures r.Ref? ==> r.consumed == semi + 1 && |r.bytes| <= r.consumed
  {
    assert t[if stop == '#' then 1 else 2] == stop;
    match Accumulate(t, semi - 1, stop, base, 1, 0)
    case None => NotRef
    case Some(ucs) => Ref(Utf8(ucs), semi + 1)
  }

  // ----- entities -----

  const NUM_ENTITIES: nat := 5

  /** The entity table: the characters in their order, and their names. */
  function EntityAt(i: nat): (c: char)
    requires i < NUM_ENTITIES
    ensures EntityName(c).Some?
  {
    if i == 0 then '\"' else if i == 1 then '&' else if i == 2 then '\'' else if i == 3 then '<' else '>'
  }

  function EntityName(c: char): (r: Option<string>) {
    if c == '\"' then Some("quot")
    else if c == '&' then Some("amp")
    else if c == '\'' then Some("apos")
    else if c == '<' then Some("lt")
    else if c == '>' then Some("gt")
    else None
  }

  function EntityText(c: char): (r: string)
    requires EntityName(c).Some?
    ensures |r| >= 4
  {
    "&" + EntityName(c).value + ";"
  }

  /** The table search of `GetStr`, from entry `i` on: the character, and how much input it takes. */
  function FindEntity(t: string, i: nat): (r: Option<(char, nat)>)
    requires i <= NUM_ENTITIES
    ensures r.Some? ==> 0 < r.value.1 <= |t|
    decreases NUM_ENTITIES - i
  {
    if i == NUM_ENTITIES then None
    else if EntityText(EntityAt(i)) <= t then Some((EntityAt(i), |EntityText(EntityAt(i))|))
    else FindEntity(t, i + 1)
  }

  // ----- StrPair::GetStr -----

  /** How far one newline at the head of `t` reaches: CR LF and LF CR count as one. */
  function NewlineLen(t: string): (n: nat)
    requires t != "" && (t[0] == CR || t[0] == LF)
    ensures 1 <= n <= |t|
  {
    if |t| >= 2 && t[1] == (if t[0] == CR then LF else CR) then 2 else 1
  }

  /** One round of the `GetStr` loop, as a function of the input at the read cursor: it either
      writes `bytes` for `consumed` characters of input, or, for an unknown named entity, steps
      over the ampersand without writing. */
  datatype Token = Emit(bytes: string, consumed: nat) | Fallback

  function NextToken(t: string, entities: bool): (k: Token)
    requires t != ""
    ensures k.Emit? ==> 0 < k.consumed <= |t| && |k.bytes| <= k.consumed
    ensures k.Fallback? ==> t[0] == '&'
  {
    if t[0] == CR || t[0] == LF then Emit([LF], NewlineLen(t))
    else if entities && StartsRef(t) then
      match CharacterRef(t)
      case NotRef => Emit(['&'], 1)
      case Ref(bytes, n) => Emit(bytes, n)
    else if entities && t[0] == '&' then
      match FindEntity(t, 0)
      case Some(found) => Emit([found.0], found.1)
      case None => Fallback
    else Emit([t[0]], 1)
  }

  /** How far one round moves the read cursor. */
  function Advance(t: string, entities: bool): (n: nat)
    requires t != ""
    ensures 0 < n <= |t|
  {
    match NextToken(t, entities)
    case Emit(_, n) => n
    case Fallback => 1
  }

  /** What one round leaves behind the write cursor, if `stale` is what stands there before. */
  function Written(t: string, stale: char, entities: bool): (r: string)
    requires t != ""
    ensures |r| <= Advance(t, entities)
  {
    match NextToken(t, entities)
    case Emit(bytes, _) => bytes
    case Fallback => [stale]
  }

  /** Exactly what `GetStr` leaves in the buffer, with the read cursor at `p` and the write cursor
      at `q`. The fallback for an unknown entity moves both cursors without writing, so the byte it
      keeps is the one that stood at `q`, not at `p`. */
  function Decode(s: string, p: nat, q: nat, entities: bool): (r: string)
    requires q <= p <= |s|
    decreases |s| - p
  {
    if p == |s| then ""
    else
      var w := Written(s[p..], s[q], entities);
      w + Decode(s, p + Advance(s[p..], entities), q + |w|, entities)
  }

  /** The decoding one would expect: an unknown entity keeps its ampersand. */
  function Intended(t: string, entities: bool): (r: string) {
    if t == "" then "" else Written(t, '&', entities) + Intended(t[Advance(t, entities)..], entities)
  }

  /** Every fallback happens while the byte at the write cursor is an ampersand; in particular when
      nothing has shrunk yet, and trivially when all named entities are known. */
  predicate FallbackKeepsAmpersand(s: string, p: nat, q: nat, entities: bool)
    requires q <= p <= |s|
    decreases |s| - p
  {
    p == |s| ||
    (var w := Written(s[p..], s[q], entities);
     && (NextToken(s[p..], entities).Fallback? ==> s[q] == '&')
     && FallbackKeepsAmpersand(s, p + Advance(s[p..], entities), q + |w|, entities))
  }

  /** One token, in the three definitions. */
  lemma {:induction false} IntendedStep(s: string, p: nat, q: nat, entities: bool)
    requires q <= p < |s|
    ensures p + Advance(s[p..], entities) <= |s|
    ensures q + |Written(s[p..], s[q], entities)| <= p + Advance(s[p..], entities)
    ensures Decode(s, p, q, entities) == Written(s[p..], s[q], entities)
      + Decode(s, p + Advance(s[p..], entities), q + |Written(s[p..], s[q], entities)|, entities)
    ensures Intended(s[p..], entities) ==
      Written(s[p..], '&', entities) + Intended(s[p + Advance(s[p..], entities)..], entities)
    ensures FallbackKeepsAmpersand(s, p, q, entities) <==>
      (&& (NextToken(s[p..], entities).Fallback? ==> s[q] == '&')
       && FallbackKeepsAmpersand(s, p + Advance(s[p..], entities), q + |Written(s[p..], s[q], entities)|, entities))
  {
    hide NextToken, Advance, Written;
    var n := Advance(s[p..], entities);
    assert s[p..][n..] == s[p + n..];
  }

  lemma {:induction false} IntendedEnd(s: string, q: nat, entities: bool)
    requires q <= |s|
    ensures Decode(s, |s|, q, entities) == Intended(s[|s|..], entities) && FallbackKeepsAmpersand(s, |s|, q, entities)
  {
  }

  /** `GetStr` meets the intended decoding exactly when no fallback picks up a stale byte. */
  lemma {:induction false} DecodeIsIntendedIff(s: string, p: nat, q: nat, entities: bool)
    requires q <= p <= |s|
    ensures Decode(s, p, q, entities) == Intended(s[p..], entities) <==> FallbackKeepsAmpersand(s, p, q, entities)
    decreases |s| - p
  {
    hide *;
    if p == |s| {
      IntendedEnd(s, q, entities);
    } else {
      IntendedStep(s, p, q, entities);
      var n, w, k := Advance(s[p..], entities), Written(s[p..], s[q], entities), Written(s[p..], '&', entities);
      WrittenDiffers(s[p..], s[q], entities);
      DecodeIsIntendedIff(s, p + n, q + |w|, entities);
      SplitEqual(w, Decode(s, p + n, q + |w|, entities), k, Intended(s[p + n..], entities));
    }
  }

  lemma {:induction false} WrittenDiffers(t: string, stale: char, entities: bool)
    requires t != ""
    ensures |Written(t, stale, entities)| == |Written(t, '&', entities)|
    ensures Written(t, stale, entities) == Written(t, '&', entities) <==>
      (NextToken(t, entities).Fallback? ==> stale == '&')
  {
  }

  lemma {:induction false} SplitEqual(a: string, x: string, b: string, y: string)
    requires |a| == |b|
    ensures a + x == b + y <==> a == b && x == y
  {
    assert (a + x)[..|a|] == a && (b + y)[..|b|] == b;
    assert (a + x)[|a|..] == x && (b + y)[|b|..] == y;
  }

  /** A stale byte does occur: in "&amp;&no;" the second ampersand turns into an 'a'. */
  lemma {:induction false} StaleByteExample()
    ensures Decode("&amp;&no;", 0, 0, true) != Intended("&amp;&no;", true)
  {
    var s := "&amp;&no;";
    assert s[0..] == s;
    assert s == EntityText('&') + "&no;";
    EntityAtHead('&', "&no;");
    assert Written(s, '&', true) == "&" && Advance(s, true) == 5;
    var u := s[5..];
    assert u == "&no;";
    FindsNoEntity(u, 0);
    assert !FallbackKeepsAmpersand(s, 5, 1, true);
    DecodeIsIntendedIff(s, 0, 0, true);
  }

  lemma {:induction false} FindsNoEntity(u: string, i: nat)
    requires i <= NUM_ENTITIES && |u| >= 2 && u[1] != 'q' && u[1] != 'a' && u[1] != 'l' && u[1] != 'g'
    ensures FindEntity(u, i) == None
    decreases NUM_ENTITIES - i
  {
    if i < NUM_ENTITIES {
      assert EntityText(EntityAt(i))[1] == EntityName(EntityAt(i)).value[0];
      FindsNoEntity(u, i + 1);
    }
  }

  // ----- escaping: XMLPrinter::PrintString -----

  /** The flag tables: text escapes three characters, attribute values all five. */
  predicate IsEscaped(c: char, restricted: bool) {
    c == '&' || c == '<' || c == '>' || (!restricted && (c == '\"' || c == '\''))
  }

  function EscapeChar(c: char, restricted: bool): (r: string)
    ensures r != "" && '<' !in r && (!restricted ==> '\"' !in r)
    ensures r[0] == if IsEscaped(c, restricted) then '&' else c
  {
    if IsEscaped(c, restricted) then EntityText(c) else [c]
  }

  function Escape(v: string, restricted: bool): (r: string)
    ensures '<' !in r && (!restricted ==> '\"' !in r)
    ensures |v| <= |r|
  {
    if v == "" then "" else EscapeChar(v[0], restricted) + Escape(v[1..], restricted)
  }

  /** CR, CR LF and LF CR all become LF. */
  function Normalize(v: string): (r: string)
    ensures CR !in r
    ensures r == "" <==> v == ""
  {
    if v == "" then ""
    else [if v[0] == CR then LF else v[0]] + Normalize(v[HeadLen(v)..])
  }

  /** Every named entity met while decoding is known. */
  predicate AllKnown(t: string, entities: bool) {
    t == "" || (!NextToken(t, entities).Fallback? && AllKnown(t[Advance(t, entities)..], entities))
  }

  lemma {:induction false} AllKnownDecodes(s: string, p: nat, q: nat, entities: bool)
    requires q <= p <= |s| && AllKnown(s[p..], entities)
    ensures FallbackKeepsAmpersand(s, p, q, entities)
    decreases |s| - p
  {
    hide NextToken, Advance, Written;
    if p < |s| {
      var n := Advance(s[p..], entities);
      assert s[p..][n..] == s[p + n..];
      AllKnownDecodes(s, p + n, q + |Written(s[p..], s[q], entities)|, entities);
    }
  }

  /** The head of an escaped string is one token. */
  lemma {:induction false} EscapeHead(v: string, restricted: bool)
    requires v != ""
    ensures var t := Escape(v, restricted);
            && NextToken(t, true).Emit?
            && NextToken(t, true).bytes == [if v[0] == CR then LF else v[0]]
            && t[Advance(t, true)..] == Escape(v[HeadLen(v)..], restricted)
  {
    var e := EscapeChar(v[0], restricted);
    var rest := Escape(v[1..], restricted);
    assert (e + rest)[|e|..] == rest;
    if IsEscaped(v[0], restricted) {
      EntityAtHead(v[0], rest);
    } else if v[0] == CR || v[0] == LF {
      EscapeNewline(v, restricted);
    } else {
      assert Escape(v, restricted)[0] == v[0];
    }
  }

  /** How much of `v` its first character, or newline, takes. */
  function HeadLen(v: string): (n: nat)
    requires v != ""
    ensures 0 < n <= |v|
  {
    if v[0] == CR || v[0] == LF then NewlineLen(v) else 1
  }

  lemma {:induction false} EscapeNewline(v: string, restricted: bool)
    requires v != "" && (v[0] == CR || v[0] == LF)
    ensures var t := Escape(v, restricted);
            && t != ""
            && t[0] == v[0]
            && NewlineLen(t) == NewlineLen(v)
            && t[NewlineLen(v)..] == Escape(v[NewlineLen(v)..], restricted)
  {
    var t, rest := Escape(v, restricted), Escape(v[1..], restricted);
    assert t == [v[0]] + rest && t[1..] == rest;
    if |v| >= 2 {
      var e1 := EscapeChar(v[1], restricted);
      assert v[1..][1..] == v[2..];
      assert rest == e1 + Escape(v[2..], restricted);
      assert t[1] == e1[0];
      if NewlineLen(v) == 2 {
        assert e1 == [v[1]] && t[2..] == rest[1..] == Escape(v[2..], restricted);
      }
    }
  }

  /** No entity text is a prefix of another one, so the search stops at the right entry. */
  lemma {:induction false} EntityDiffers(i: nat, j: nat, rest: string)
    requires i < NUM_ENTITIES && j < NUM_ENTITIES && i != j
    ensures !(EntityText(EntityAt(i)) <= EntityText(EntityAt(j)) + rest)
  {
    var a, t := EntityText(EntityAt(i)), EntityText(EntityAt(j)) + rest;
    assert t[1] == EntityName(EntityAt(j)).value[0] && t[2] == EntityName(EntityAt(j)).value[1];
    assert a[1] == EntityName(EntityAt(i)).value[0] && a[2] == EntityName(EntityAt(i)).value[1];
  }

  lemma {:induction false} FindsEntity(i: nat, j: nat, rest: string)
    requires i <= j < NUM_ENTITIES
    ensures FindEntity(EntityText(EntityAt(j)) + rest, i) == Some((EntityAt(j), |EntityText(EntityAt(j))|))
    decreases j - i
  {
    if i < j {
      EntityDiffers(i, j, rest);
      FindsEntity(i + 1, j, rest);
    }
  }

  lemma {:induction false} EntityAtHead(c: char, rest: string)
    requires EntityName(c).Some?
    ensures NextToken(EntityText(c) + rest, true) == Emit([c], |EntityText(c)|)
  {
    var j := if c == '\"' then 0 else if c == '&' then 1 else if c == '\'' then 2 else if c == '<' then 3 else 4;
    var t := EntityText(c) + rest;
    assert t[0] == '&' && t[1] == EntityName(c).value[0];
    hide FindEntity;
    FindsEntity(0, j, rest);
  }

  lemma {:induction false} EscapeDecodes(v: string, restricted: bool)
    ensures AllKnown(Escape(v, restricted), true)
    ensures Intended(Escape(v, restricted), true) == Normalize(v)
  {
    hide NextToken;
    if v != "" {
      EscapeHead(v, restricted);
      EscapeDecodes(v[HeadLen(v)..], restricted);
    }
  }

  /** `GetStr` undoes `PrintString` up to newline normalisation, in both escaping modes. */
  lemma {:induction false} DecodeOfEscape(v: string, restricted: bool)
    ensures Decode(Escape(v, restricted), 0, 0, true) == Normalize(v)
  {
    var t := Escape(v, restricted);
    EscapeDecodes(v, restricted);
    assert t[0..] == t;
    AllKnownDecodes(t, 0, 0, true);
    DecodeIsIntendedIff(t, 0, 0, true);
  }

  lemma {:induction false} NormalizeFixpoint(v: string)
    ensures Normalize(v) == v <==> CR !in v
  {
    if v != "" {
      if v[0] != CR && HeadLen(v) == 1 {
        NormalizeFixpoint(v[1..]);
        SplitEqual([v[0]], Normalize(v[1..]), [v[0]], v[1..]);
        assert v == [v[0]] + v[1..];
      } else if v[0] != CR {
        assert v[1] == CR;
      }
    }
  }

  lemma {:induction false} RawToken(t: string, stale: char)
    requires t != ""
    ensures Advance(t, false) == HeadLen(t) && Written(t, stale, false) == [if t[0] == CR then LF else t[0]]
  {
  }

  /** One character of raw data, in the two definitions. */
  lemma {:induction false} RawDecodeStep(s: string, p: nat, q: nat)
    requires q <= p < |s|
    ensures p + HeadLen(s[p..]) <= |s|
    ensures Decode(s, p, q, false) == [if s[p] == CR then LF else s[p]] + Decode(s, p + HeadLen(s[p..]), q + 1, false)
  {
    RawToken(s[p..], s[q]);
    hide NextToken, Advance, Written, HeadLen;
  }

  lemma {:induction false} RawNormalizeStep(s: string, p: nat)
    requires p < |s|
    ensures p + HeadLen(s[p..]) <= |s|
    ensures Normalize(s[p..]) == [if s[p] == CR then LF else s[p]] + Normalize(s[p + HeadLen(s[p..])..])
  {
    var n := HeadLen(s[p..]);
    assert s[p..][n..] == s[p + n..];
  }

  lemma {:induction false} NothingLeft(s: string, q: nat)
    requires q <= |s|
    ensures Decode(s, |s|, q, false) == Normalize(s[|s|..])
  {
  }

  /** Raw data (comments, CDATA, declarations, unknowns) is only newline-normalised. */
  lemma {:induction false} DecodeOfRaw(s: string, p: nat, q: nat)
    requires q <= p <= |s|
    ensures Decode(s, p, q, false) == Normalize(s[p..])
    decreases |s| - p
  {
    hide *;
    if p == |s| {
      NothingLeft(s, q);
    } else {
      RawDecodeStep(s, p, q);
      RawNormalizeStep(s, p);
      DecodeOfRaw(s, p + HeadLen(s[p..]), q + 1);
    }
  }
}
