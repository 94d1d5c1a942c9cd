/** The in-place loops of `StrPair::GetStr` and `XMLUtil::GetCharacterRef` on a shared character
    buffer, proved against the decoders of `XmlText`. */
module XmlBuffer {
  import opened Common
  import opened XmlText

  /** `strchr` within a terminated range. */
  method StrChr(buffer: array<char>, from: nat, end: nat, c: char) returns (r: Option<nat>)
    requires from <= end <= buffer.Length
    ensures r == match IndexOf(buffer[from..end], c) case None => None case Some(k) => Some(from + k)
  {
    hide IndexOf;
    var i := from;
    while i < end && buffer[i] != c
      invariant from <= i <= end
      invariant c !in buffer[from..i]
    {
      i := i + 1;
    }
    assert buffer[from..end][..i - from] == buffer[from..i];
    FirstIs(buffer[from..end], c, i - from);
    return if i < end then Some(i) else None;
  }

  lemma {:induction false} FirstIs(t: string, c: char, k: nat)
    requires k <= |t| && c !in t[..k] && (k < |t| ==> t[k] == c)
    ensures IndexOf(t, c) == if k < |t| then Some(k) else None
  {
    if k > 0 {
      assert t[..k][0] == t[0] && t[1..][..k - 1] == t[..k][1..];
      FirstIs(t[1..], c, k - 1);
    }
  }

  /** `XMLUtil::ConvertUTF32ToUTF8`: the bytes are produced from the last to the first. */
  method ConvertUTF32ToUTF8(ucs: nat) returns (output: string)
    ensures output == Utf8(ucs)
  {
    ShiftTwice(ucs);
    var input := ucs;
    output := "";
    if input < 0x80 { return [ByteOf(input)]; }
    var length: nat, mark: nat;
    if input < 0x800 { length, mark := 2, 0xC0; }
    else if input < 0x10000 { length, mark := 3, 0xE0; }
    else if input < 0x200000 { length, mark := 4, 0xF0; }
    else { return ""; }
    if length == 4 {
      output := [ByteOf(0x80 + input % 64)] + output;
      input := input / 64;
    }
    if length >= 3 {
      output := [ByteOf(0x80 + input % 64)] + output;
      input := input / 64;
    }
    output := [ByteOf(0x80 + input % 64)] + output;
    input := input / 64;
    output := [ByteOf(mark + input)] + output;
  }

  lemma {:induction false} ShiftTwice(n: nat)
    ensures n / 64 / 64 == n / 4096 && n / 64 / 64 / 64 == n / 262144
  {
  }

  /** The digit loop of `GetCharacterRef`, from the character before the semicolon down to `stop`. */
  method AccumulateBackwards(buffer: array<char>, p: nat, semi: nat, end: nat, stop: char, base: nat)
    returns (r: Option<nat>)
    requires base == 10 || base == 16
    requires p < semi < end <= buffer.Length
    requires exists j :: 0 <= j <= semi - 1 - p && buffer[p..end][j] == stop
    ensures r == Accumulate(buffer[p..end], semi - 1 - p, stop, base, 1, 0)
  {
    ghost var t := buffer[p..end];
    var i := semi - 1;
    var mult: nat, ucs: nat := 1, 0;
    while buffer[i] != stop
      invariant p <= i < semi
      invariant exists j :: 0 <= j <= i - p && t[j] == stop
      invariant Accumulate(t, semi - 1 - p, stop, base, 1, 0) == Accumulate(t, i - p, stop, base, mult, ucs)
      decreases i
    {
      assert t[i - p] == buffer[i];
      var d := DigitValue(buffer[i], base);
      if d.None? { return None; }
      ucs := (ucs + mult * d.value % WORD32) % WORD64;
      mult := mult * base % WORD32;
      i := i - 1;
    }
    assert t[i - p] == buffer[i];
    return Some(ucs);
  }

  /** `XMLUtil::GetCharacterRef` at `p`, on a reference start inside the range. */
  method GetCharacterRef(buffer: array<char>, p: nat, end: nat) returns (r: CharRef)
    requires p <= end <= buffer.Length && StartsRef(buffer[p..end])
    ensures r == CharacterRef(buffer[p..end])
  {
    hide Accumulate, Utf8, IndexOf;
    ghost var t := buffer[p..end];
    assert t[0] == buffer[p] && t[1] == buffer[p + 1];
    if p + 2 == end { return Ref("", 1); }
    assert t[2] == buffer[p + 2];
    var hex := buffer[p + 2] == 'x';
    var from := if hex then p + 3 else p + 2;
    assert t[from - p..] == buffer[from..end];
    var semi := StrChr(buffer, from, end, ';');
    if semi.None? { return NotRef; }
    assert t[if hex then 2 else 1] == if hex then 'x' else '#';
    var ucs := AccumulateBackwards(buffer, p, semi.value, end, if hex then 'x' else '#', if hex then 16 else 10);
    if ucs.None? { return NotRef; }
    var bytes := ConvertUTF32ToUTF8(ucs.value);
    return Ref(bytes, semi.value - p + 1);
  }

  /** The search of the entity table at `p`. */
  method MatchEntity(buffer: array<char>, p: nat, end: nat) returns (r: Option<(char, nat)>)
    requires p <= end <= buffer.Length
    ensures r == FindEntity(buffer[p..end], 0)
  {
    ghost var t := buffer[p..end];
    var i := 0;
    while i < NUM_ENTITIES
      invariant 0 <= i <= NUM_ENTITIES
      invariant FindEntity(t, 0) == FindEntity(t, i)
    {
      var text := EntityText(EntityAt(i));
      var same := p + |text| <= end && buffer[p..p + |text|] == text;
      PrefixInRange(buffer[..], p, end, text);
      if same { return Some((EntityAt(i), |text|)); }
      i := i + 1;
    }
    return None;
  }

  lemma {:induction false} PrefixInRange(b: string, p: nat, end: nat, text: string)
    requires p <= end <= |b|
    ensures text <= b[p..end] <==> p + |text| <= end && b[p..p + |text|] == text
  {
    if p + |text| <= end { assert b[p..end][..|text|] == b[p..p + |text|]; }
  }

  /** `memcpy` of a decoded piece behind the write cursor. */
  method Write(buffer: array<char>, q: nat, bytes: string)
    requires q + |bytes| <= buffer.Length
    modifies buffer
    ensures buffer[q..q + |bytes|] == bytes
    ensures forall i :: 0 <= i < buffer.Length && !(q <= i < q + |bytes|) ==> buffer[i] == old(buffer[i])
  {
    var i := 0;
    while i < |bytes|
      invariant 0 <= i <= |bytes|
      invariant forall j :: 0 <= j < i ==> buffer[q + j] == bytes[j]
      invariant forall j :: 0 <= j < buffer.Length && !(q <= j < q + i) ==> buffer[j] == old(buffer[j])
    {
      buffer[q + i] := bytes[i];
      i := i + 1;
    }
  }

  /** One round of the decoding loop: how far to read on, and what to write, if anything. */
  method ReadToken(buffer: array<char>, p: nat, end: nat, entities: bool) returns (k: Token)
    requires p < end <= buffer.Length
    ensures k == NextToken(buffer[p..end], entities)
  {
    hide CharacterRef, FindEntity;
    ghost var t := buffer[p..end];
    assert t[0] == buffer[p] && (p + 1 < end ==> t[1] == buffer[p + 1]);
    var c := buffer[p];
    if c == CR || c == LF {
      var pair := p + 1 < end && buffer[p + 1] == (if c == CR then LF else CR);
      return Emit([LF], if pair then 2 else 1);
    } else if entities && c == '&' {
      if p + 1 < end && buffer[p + 1] == '#' {
        var r := GetCharacterRef(buffer, p, end);
        match r
        case NotRef => return Emit(['&'], 1);
        case Ref(bytes, n) => return Emit(bytes, n);
      } else {
        var e := MatchEntity(buffer, p, end);
        match e
        case Some(found) => return Emit([found.0], found.1);
        case None => return Fallback;
      }
    } else {
      return Emit([c], 1);
    }
  }

  /** `b'` is `b` with `w` written at `q`. */
  ghost predicate Overwritten(b: string, b': string, q: nat, w: string) {
    && |b'| == |b|
    && q + |w| <= |b|
    && b'[q..q + |w|] == w
    && forall i :: 0 <= i < |b| && !(q <= i < q + |w|) ==> b'[i] == b[i]
  }

  /** One round: read a token at `p`, write its meaning at `q`. */
  method DecodeToken(buffer: array<char>, p: nat, q: nat, end: nat, entities: bool) returns (p': nat, q': nat)
    requires q <= p < end <= buffer.Length
    modifies buffer
    ensures p' == p + Advance(old(buffer[..])[p..end], entities)
    ensures q' == q + |Written(old(buffer[..])[p..end], old(buffer[..])[q], entities)|
    ensures Overwritten(old(buffer[..]), buffer[..], q, Written(old(buffer[..])[p..end], old(buffer[..])[q], entities))
  {
    assert buffer[..][p..end] == buffer[p..end];
    var k := ReadToken(buffer, p, end, entities);
    hide NextToken;
    match k {
      case Emit(bytes, n) =>
        Write(buffer, q, bytes);
        return p + n, q + |bytes|;
      case Fallback =>
        return p + 1, q + 1;
    }
  }

  /** Half way through: the decoded prefix stands before `q`, the rest of the range is untouched
      from `q` on, and so is everything outside the range. */
  ghost predicate Decoding(b0: string, b: string, start: nat, p: nat, q: nat, end: nat, entities: bool) {
    && start <= q <= p <= end <= |b0| == |b|
    && (forall i :: 0 <= i < |b| && !(start <= i < q) ==> b[i] == b0[i])
    && b[start..q] + Decode(b0[start..end], p - start, q - start, entities) == Decode(b0[start..end], 0, 0, entities)
  }

  lemma {:induction false} DecodingStep(b0: string, b: string, b': string, start: nat, p: nat, q: nat, end: nat,
      entities: bool)
    requires Decoding(b0, b, start, p, q, end, entities) && p < end
    requires Overwritten(b, b', q, Written(b[p..end], b[q], entities))
    ensures var w := Written(b[p..end], b[q], entities);
            Decoding(b0, b', start, p + Advance(b[p..end], entities), q + |w|, end, entities)
  {
    hide Advance, Written, Decode;
    var s, w := b0[start..end], Written(b[p..end], b[q], entities);
    assert s[p - start..] == b[p..end] && s[q - start] == b[q];
    DecodeStep(s, p - start, q - start, entities);
    assert b'[start..q + |w|] == b[start..q] + w;
    Assoc(b[start..q], w, Decode(s, p - start + Advance(s[p - start..], entities), q - start + |w|, entities));
  }

  /** `Decode`, unfolded once. */
  lemma {:induction false} DecodeStep(s: string, p: nat, q: nat, entities: bool)
    requires q <= p < |s|
    ensures var w := Written(s[p..], s[q], entities);
      Decode(s, p, q, entities) == w + Decode(s, p + Advance(s[p..], entities), q + |w|, entities)
  {
  }

  lemma {:induction false} DecodingBounds(b0: string, b: string, start: nat, p: nat, q: nat, end: nat, entities: bool)
    requires Decoding(b0, b, start, p, q, end, entities)
    ensures start <= q <= p <= end <= |b0| == |b|
  {
  }

  lemma {:induction false} DecodingDone(b0: string, b: string, start: nat, q: nat, end: nat, entities: bool)
    requires Decoding(b0, b, start, end, q, end, entities)
    ensures start <= q <= end && b[start..q] == Decode(b0[start..end], 0, 0, entities)
    ensures forall i :: 0 <= i < |b| && !(start <= i < end) ==> b[i] == b0[i]
  {
  }

  /** The decoding loop: the result is written over the text it is read from. */
  method DecodeInPlace(buffer: array<char>, start: nat, end: nat, entities: bool) returns (q: nat)
    requires start <= end <= buffer.Length
    modifies buffer
    ensures start <= q <= end && Decoding(old(buffer[..]), buffer[..], start, end, q, end, entities)
  {
    hide *;
    ghost var b0 := buffer[..];
    var p := start;
    q := start;
    DecodingStarts(b0, start, end, entities);
    while p < end
      invariant start <= q <= p <= end
      invariant Decoding(b0, buffer[..], start, p, q, end, entities)
    {
      ghost var b := buffer[..];
      var p0, q0 := p, q;
      p, q := DecodeToken(buffer, p, q, end, entities);
      DecodingStep(b0, b, buffer[..], start, p0, q0, end, entities);
      DecodingBounds(b0, buffer[..], start, p, q, end, entities);
    }
  }

  lemma {:induction false} DecodingStarts(b0: string, start: nat, end: nat, entities: bool)
    requires start <= end <= |b0|
    ensures Decoding(b0, b0, start, start, start, end, entities)
  {
    hide Decode;
  }

  /** `NEEDS_NEWLINE_NORMALIZATION` alone, together with `NEEDS_ENTITY_PROCESSING`, or neither:
      the combinations the parser hands out. */
  datatype Flags = NoProcessing | Newlines | NewlinesAndEntities

  /** What a raw range of the buffer stands for. */
  function Meaning(raw: string, flags: Flags): string {
    if flags == NoProcessing then raw else Decode(raw, 0, 0, flags == NewlinesAndEntities)
  }

  /** A string in the parse buffer, decoded in place when it is first asked for. */
  class StrPair {
    const buffer: array<char>
    const start: nat
    const end: nat
    const flags: Flags
    var needsFlush: bool

    ghost predicate Valid()
      reads this, buffer
    {
      && start <= end < buffer.Length
      && (needsFlush ==> '\0' !in buffer[start..end])
      && (!needsFlush ==> '\0' in buffer[start..end + 1])
    }

    /** The C string that starts where this pair starts. */
    ghost function View(): string
      requires Valid()
      reads this, buffer
    {
      CString(buffer[start..end + 1])
    }

    /** The value of the pair: pending, or already in the buffer. */
    ghost function Value(): string
      requires Valid()
      reads this, buffer
    {
      if needsFlush then CString(Meaning(buffer[start..end], flags)) else View()
    }

    constructor (buffer: array<char>, start: nat, end: nat, flags: Flags)
      requires start <= end < buffer.Length && '\0' !in buffer[start..end]
      ensures this.buffer == buffer && this.start == start && this.end == end && this.flags == flags && needsFlush
      ensures Valid()
    {
      this.buffer, this.start, this.end, this.flags := buffer, start, end, flags;
      needsFlush := true;
    }

    /** `StrPair::GetStr`. Its value does not change, afterwards it stands in the buffer as a C
        string, and nothing outside the pair's own range is touched. */
    method GetStr()
      requires Valid()
      modifies this, buffer
      ensures Valid() && !needsFlush
      ensures Value() == old(Value()) && View() == Value()
      ensures forall i :: 0 <= i < buffer.Length && !(start <= i <= end) ==> buffer[i] == old(buffer[i])
    {
      hide CString, Decode, Decoding;
      if !needsFlush { return; }
      ghost var s := buffer[start..end];
      buffer[end] := '\0';
      needsFlush := false;
      if flags == NoProcessing {
        Terminated(buffer[start..end + 1], s);
        return;
      }
      var entities := flags == NewlinesAndEntities;
      ghost var b := buffer[..];
      assert b[start..end] == s;
      var q := DecodeInPlace(buffer, start, end, entities);
      DecodingDone(b, buffer[..], start, q, end, entities);
      buffer[q] := '\0';
      assert buffer[start..end + 1][..q - start] == Decode(s, 0, 0, entities);
      Terminated(buffer[start..end + 1], Decode(s, 0, 0, entities));
    }
  }

  lemma {:induction false} Terminated(b: string, s: string)
    requires |s| < |b| && b[..|s|] == s && b[|s|] == '\0'
    ensures CString(b) == CString(s) && '\0' in b
  {
    if s != "" && s[0] != '\0' {
      assert b[1..][..|s| - 1] == s[1..];
      Terminated(b[1..], s[1..]);
    }
  }
}
