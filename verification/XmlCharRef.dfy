/** Numeric character references: what the backward-accumulating parser of `GetCharacterRef` makes
    of a digit string, and what bytes `ConvertUTF32ToUTF8` emits for it. */
module XmlCharRef {
  import opened Common
  import opened XmlText

  function Pow(base: nat, n: nat): (r: nat)
    ensures base > 0 ==> r > 0
  {
    if n == 0 then 1 else base * Pow(base, n - 1)
  }

  predicate AllDigits(ds: string, base: nat)
    requires base == 10 || base == 16
  {
    forall i :: 0 <= i < |ds| ==> DigitValue(ds[i], base).Some?
  }

  function Digits(ds: string, base: nat): (vs: seq<nat>)
    requires base == 10 || base == 16
    requires AllDigits(ds, base)
    ensures |vs| == |ds| && forall i :: 0 <= i < |ds| ==> vs[i] == DigitValue(ds[i], base).value
  {
    seq(|ds|, i requires 0 <= i < |ds| => DigitValue(ds[i], base).value)
  }

  /** The positional value of a digit sequence; the empty one counts as 0. */
  function Value(vs: seq<nat>, base: nat): nat {
    if vs == [] then 0 else vs[0] * Pow(base, |vs| - 1) + Value(vs[1..], base)
  }

  function Prefix(base: nat): string {
    if base == 16 then "&#x" else "&#"
  }

  function Stop(base: nat): char {
    if base == 16 then 'x' else '#'
  }

  /** The text of a reference with digits `ds`, followed by anything. */
  function Reference(ds: string, base: nat, post: string): string {
    Prefix(base) + ds + ";" + post
  }

  // ----- accumulation -----

  /** The parser's sum over digit values, last digit first. */
  function Sum(vs: seq<nat>, base: nat, mult: nat, ucs: nat): nat {
    if vs == [] then ucs
    else Sum(vs[..|vs| - 1], base, mult * base % WORD32, (ucs + mult * vs[|vs| - 1] % WORD32) % WORD64)
  }

  lemma {:induction false} AccumulateIsSum(t: string, ds: string, k: nat, base: nat, mult: nat, ucs: nat)
    requires base == 10 || base == 16
    requires AllDigits(ds, base) && k <= |ds|
    requires Prefix(base) + ds <= t
    ensures exists j :: 0 <= j <= |Prefix(base)| + k - 1 && t[j] == Stop(base)
    ensures Accumulate(t, |Prefix(base)| + k - 1, Stop(base), base, mult, ucs) ==
      Some(Sum(Digits(ds, base)[..k], base, mult, ucs))
    decreases k
  {
    var m, vs := |Prefix(base)|, Digits(ds, base);
    assert t[m - 1] == Prefix(base)[m - 1] == Stop(base);
    if k > 0 {
      assert t[m + k - 1] == ds[k - 1];
      assert vs[..k][..k - 1] == vs[..k - 1];
      DigitIsNotStop(ds[k - 1], base);
      AccumulateStep(t, m + k - 1, Stop(base), base, mult, ucs);
      hide Accumulate, DigitValue;
      AccumulateIsSum(t, ds, k - 1, base, mult * base % WORD32, (ucs + mult * vs[k - 1] % WORD32) % WORD64);
    }
  }

  lemma {:induction false} DigitIsNotStop(c: char, base: nat)
    requires (base == 10 || base == 16) && DigitValue(c, base).Some?
    ensures c != Stop(base)
  {
  }

  lemma {:induction false} AccumulateStep(t: string, i: nat, stop: char, base: nat, mult: nat, ucs: nat)
    requires (base == 10 || base == 16) && i < |t| && t[i] != stop && DigitValue(t[i], base).Some?
    requires exists j :: 0 <= j <= i && t[j] == stop
    ensures i > 0 && exists j :: 0 <= j <= i - 1 && t[j] == stop
    ensures Accumulate(t, i, stop, base, mult, ucs) ==
      Accumulate(t, i - 1, stop, base, mult * base % WORD32,
        (ucs + mult * DigitValue(t[i], base).value % WORD32) % WORD64)
  {
  }

  lemma {:induction false} ValueCons(d: nat, ds: seq<nat>, base: nat)
    ensures Value(ds, base) <= Value([d] + ds, base)
  {
    assert ([d] + ds)[1..] == ds;
    AtLeastZero(d, Pow(base, |ds|));
  }

  lemma {:induction false} AtLeastZero(x: nat, y: nat)
    ensures x * y >= 0
  {
  }

  lemma {:induction false} SuffixValue(hi: seq<nat>, lo: seq<nat>, base: nat)
    ensures Value(lo, base) <= Value(hi + lo, base)
  {
    hide Value, Pow;
    if hi == [] {
      assert hi + lo == lo;
    } else {
      SuffixValue(hi[1..], lo, base);
      ValueCons(hi[0], hi[1..] + lo, base);
      assert hi + lo == [hi[0]] + (hi[1..] + lo);
    }
  }

  lemma {:induction false} ModScale(x: nat, b: nat)
    ensures (x % WORD32) * b % WORD32 == b * x % WORD32
  {
    var q, r := x / WORD32, x % WORD32;
    assert b * x == b * r + (b * q) * WORD32 by { assert x == r + q * WORD32; }
    ModAdd(b * r, b * q);
  }

  lemma {:induction false} ModAdd(x: nat, k: nat)
    ensures (x + k * WORD32) % WORD32 == x % WORD32
  {
    if k > 0 {
      ModAdd(x, k - 1);
      assert x + k * WORD32 == (x + (k - 1) * WORD32) + WORD32;
    }
  }

  lemma {:induction false} ScaledDigit(d: nat, pow: nat)
    requires d * pow < WORD32
    ensures (pow % WORD32) * d % WORD32 == d * pow
  {
    if d == 0 {
      assert (pow % WORD32) * d == 0;
    } else {
      assert pow <= d * pow;
      assert pow % WORD32 == pow && pow * d == d * pow;
    }
  }

  /** Reading one more digit keeps the scale and the value of what has been read. */
  lemma {:induction false} SumStep(hi: seq<nat>, lo: seq<nat>, base: nat)
    requires hi != [] && Value([hi[|hi| - 1]] + lo, base) < WORD32
    ensures var lo' := [hi[|hi| - 1]] + lo;
            Sum(hi, base, Pow(base, |lo|) % WORD32, Value(lo, base)) ==
            Sum(hi[..|hi| - 1], base, Pow(base, |lo'|) % WORD32, Value(lo', base))
  {
    var d, pow, v := hi[|hi| - 1], Pow(base, |lo|), Value(lo, base);
    var lo', mult := [d] + lo, pow % WORD32;
    assert lo'[1..] == lo;
    assert Pow(base, |lo'|) == base * pow && Value(lo', base) == d * pow + v;
    assert Sum(hi, base, mult, v) == Sum(hi[..|hi| - 1], base, mult * base % WORD32, (v + mult * d % WORD32) % WORD64);
    hide *;
    StepArithmetic(d, pow, v, base);
  }

  lemma {:induction false} StepArithmetic(d: nat, pow: nat, v: nat, base: nat)
    requires d * pow + v < WORD32
    ensures (pow % WORD32) * base % WORD32 == base * pow % WORD32
    ensures (v + (pow % WORD32) * d % WORD32) % WORD64 == d * pow + v
  {
    ScaledDigit(d, pow);
    ModScale(pow, base);
  }

  /** With the digits `lo` already read, the rest brings in exactly what is missing. */
  lemma {:induction false} SumExact(hi: seq<nat>, lo: seq<nat>, base: nat)
    requires Value(hi + lo, base) < WORD32
    ensures Sum(hi, base, Pow(base, |lo|) % WORD32, Value(lo, base)) == Value(hi + lo, base)
    decreases |hi|
  {
    if hi == [] {
      assert hi + lo == lo;
    } else {
      var hi', d := hi[..|hi| - 1], hi[|hi| - 1];
      var lo' := [d] + lo;
      assert hi' + lo' == hi + lo;
      SuffixValue(hi', lo', base);
      SumStep(hi, lo, base);
      SumExact(hi', lo', base);
    }
  }

  lemma {:induction false} SemicolonAfter(ds: string, base: nat, post: string)
    requires base == 10 || base == 16
    requires AllDigits(ds, base)
    ensures IndexOf(Reference(ds, base, post)[|Prefix(base)|..], ';') == Some(|ds|)
  {
    var t := Reference(ds, base, post)[|Prefix(base)|..];
    assert t == ds + ";" + post;
    assert t[|ds|] == ';';
    assert forall i :: 0 <= i < |ds| ==> t[i] == ds[i] != ';';
    var r := IndexOf(t, ';').value;
    assert r == |ds|;
  }

  lemma {:induction false} ReferenceIsSum(ds: string, base: nat, post: string)
    requires base == 10 || base == 16
    requires AllDigits(ds, base)
    ensures CharacterRef(Reference(ds, base, post)) ==
      Ref(Utf8(Sum(Digits(ds, base), base, 1, 0)), |Prefix(base)| + |ds| + 1)
  {
    var t := Reference(ds, base, post);
    hide Sum, Utf8, Accumulate, Digits;
    SemicolonAfter(ds, base, post);
    AccumulateIsSum(t, ds, |ds|, base, 1, 0);
    assert Digits(ds, base)[..|ds|] == Digits(ds, base);
    assert t[2] == if base == 16 then 'x' else if ds == "" then ';' else ds[0];
  }

  /** A reference whose value fits 32 bits is consumed exactly and yields that value, however many
      leading zeros it has. */
  lemma {:induction false} ReferenceDecodes(ds: string, base: nat, post: string)
    requires base == 10 || base == 16
    requires AllDigits(ds, base) && Value(Digits(ds, base), base) < WORD32
    ensures CharacterRef(Reference(ds, base, post)) ==
            Ref(Utf8(Value(Digits(ds, base), base)), |Prefix(base)| + |ds| + 1)
  {
    hide CharacterRef, Utf8, Sum, Digits;
    ReferenceIsSum(ds, base, post);
    var vs := Digits(ds, base);
    assert vs + [] == vs;
    SumExact(vs, [], base);
  }

  /** Once the scale has wrapped to zero, further digits are ignored. */
  lemma {:induction false} SumWrapped(vs: seq<nat>, ucs: nat)
    requires ucs < WORD64
    ensures Sum(vs, 16, 0, ucs) == ucs
  {
    if vs != [] {
      NothingAdded(vs[|vs| - 1], ucs);
      SumWrapped(vs[..|vs| - 1], ucs);
    }
  }

  lemma {:induction false} NothingAdded(d: nat, ucs: nat)
    requires ucs < WORD64
    ensures 0 * 16 % WORD32 == 0 && (ucs + 0 * d % WORD32) % WORD64 == ucs
  {
    assert 0 * d == 0;
  }

  lemma {:induction false} ValueBelow(u: seq<nat>)
    requires HexDigits(u)
    ensures Value(u, 16) < Pow(16, |u|)
  {
    if u != [] {
      ValueBelow(u[1..]);
      DigitBelow(u[0], Pow(16, |u| - 1));
    }
  }

  lemma {:induction false} DigitBelow(d: nat, pow: nat)
    requires d < 16
    ensures d * pow + pow <= 16 * pow
  {
    Multiples(pow, 16, d);
  }

  lemma {:induction false} PowGrows(n: nat, m: nat)
    requires n <= m
    ensures Pow(16, n) <= Pow(16, m)
    decreases m - n
  {
    if n < m { PowGrows(n + 1, m); }
  }

  lemma {:induction false} EightDigits(u: seq<nat>)
    requires HexDigits(u) && |u| <= 8
    ensures Value(u, 16) < Pow(16, |u|) <= WORD32
    ensures |u| == 8 ==> Pow(16, |u|) == WORD32
  {
    ValueBelow(u);
    assert Pow(16, 8) == WORD32 by {
      assert Pow(16, 2) == 256 && Pow(16, 4) == 256 * Pow(16, 2);
      assert Pow(16, 6) == 256 * Pow(16, 4) && Pow(16, 8) == 256 * Pow(16, 6);
    }
    PowGrows(|u|, 8);
  }

  function LastEight(vs: seq<nat>): seq<nat> {
    if |vs| <= 8 then vs else vs[|vs| - 8..]
  }

  predicate HexDigits(u: seq<nat>) {
    forall i :: 0 <= i < |u| ==> u[i] < 16
  }

  lemma {:induction false} SumWraps(hi: seq<nat>, lo: seq<nat>)
    requires HexDigits(hi) && HexDigits(lo) && |lo| <= 8
    ensures Sum(hi, 16, Pow(16, |lo|) % WORD32, Value(lo, 16)) == Value(LastEight(hi + lo), 16)
    decreases |hi|
  {
    EightDigits(lo);
    if hi == [] {
      assert hi + lo == lo;
    } else if |lo| == 8 {
      SumWrapped(hi, Value(lo, 16));
      assert (hi + lo)[|hi + lo| - 8..] == lo;
    } else {
      var hi', d := hi[..|hi| - 1], hi[|hi| - 1];
      var lo' := [d] + lo;
      assert hi' + lo' == hi + lo && lo'[1..] == lo;
      EightDigits(lo');
      SumStep(hi, lo, 16);
      SumWraps(hi', lo');
    }
  }

  /** A hexadecimal reference of any length stands for its last eight digits: longer ones wrap. */
  lemma {:induction false} HexReferenceWraps(ds: string, post: string)
    requires AllDigits(ds, 16)
    ensures CharacterRef(Reference(ds, 16, post)) == Ref(Utf8(Value(LastEight(Digits(ds, 16)), 16)), |ds| + 4)
  {
    hide CharacterRef, Utf8, Sum, Digits, LastEight;
    ReferenceIsSum(ds, 16, post);
    var vs := Digits(ds, 16);
    assert vs + [] == vs;
    SumWraps(vs, []);
  }

  // ----- UTF-8 -----

  /** The value a UTF-8 sequence of one to four bytes encodes. */
  function Utf8Value(b: string): (r: Option<nat>) {
    if |b| == 1 && b[0] as int < 0x80 then Some(b[0] as int)
    else if |b| == 2 && 0xC0 <= b[0] as int < 0xE0 && Tail(b[1]) then
      Some((b[0] as int - 0xC0) * 64 + (b[1] as int - 0x80))
    else if |b| == 3 && 0xE0 <= b[0] as int < 0xF0 && Tail(b[1]) && Tail(b[2]) then
      Some((b[0] as int - 0xE0) * 4096 + (b[1] as int - 0x80) * 64 + (b[2] as int - 0x80))
    else if |b| == 4 && 0xF0 <= b[0] as int < 0xF8 && Tail(b[1]) && Tail(b[2]) && Tail(b[3]) then
      Some((b[0] as int - 0xF0) * 262144 + (b[1] as int - 0x80) * 4096
           + (b[2] as int - 0x80) * 64 + (b[3] as int - 0x80))
    else None
  }

  predicate Tail(c: char) {
    0x80 <= c as int < 0xC0
  }

  /** The octet sequences of section 4 of RFC 3629. */
  predicate WellFormedUtf8(b: string) {
    || (|b| == 1 && b[0] as int <= 0x7F)
    || (|b| == 2 && 0xC2 <= b[0] as int <= 0xDF && Tail(b[1]))
    || (|b| == 3 && Tail(b[1]) && Tail(b[2]) &&
        (|| (b[0] as int == 0xE0 && 0xA0 <= b[1] as int)
         || 0xE1 <= b[0] as int <= 0xEC
         || (b[0] as int == 0xED && b[1] as int <= 0x9F)
         || 0xEE <= b[0] as int <= 0xEF))
    || (|b| == 4 && Tail(b[1]) && Tail(b[2]) && Tail(b[3]) &&
        (|| (b[0] as int == 0xF0 && 0x90 <= b[1] as int)
         || 0xF1 <= b[0] as int <= 0xF3
         || (b[0] as int == 0xF4 && b[1] as int <= 0x8F)))
  }

  predicate IsScalarValue(n: nat) {
    n < 0xD800 || 0xE000 <= n <= 0x10FFFF
  }

  /** The emitted bytes decode to the code point, and are legal UTF-8 exactly for scalar values. */
  lemma {:induction false} Utf8RoundTrip(n: nat)
    requires n < 0x200000
    ensures Utf8Value(Utf8(n)) == Some(n)
    ensures WellFormedUtf8(Utf8(n)) <==> IsScalarValue(n)
  {
    hide Utf8Value, WellFormedUtf8;
    SixMore(n);
    SixMore(n / 64);
    SixMore(n / 4096);
    Shifts(n);
    if n < 0x80 {
      OneByte(n);
    } else if n < 0x800 {
      TwoBytes(n / 64, n % 64);
    } else if n < 0x10000 {
      ThreeBytes(n / 4096, n / 64 % 64, n % 64);
    } else {
      FourBytes(n / 262144, n / 4096 % 64, n / 64 % 64, n % 64);
    }
  }

  lemma {:induction false} SixMore(n: nat)
    ensures n == n / 64 * 64 + n % 64
  {
  }

  lemma {:induction false} Shifts(n: nat)
    ensures n / 64 / 64 == n / 4096 && n / 4096 / 64 == n / 262144
  {
  }

  lemma {:induction false} OneByte(d: nat)
    requires d < 0x80
    ensures Utf8Value([ByteOf(d)]) == Some(d) && WellFormedUtf8([ByteOf(d)])
  {
  }

  lemma {:induction false} TwoBytes(c: nat, d: nat)
    requires 2 <= c < 32 && d < 64
    ensures var bytes := [ByteOf(0xC0 + c), ByteOf(0x80 + d)];
      Utf8Value(bytes) == Some(c * 64 + d) && WellFormedUtf8(bytes)
  {
  }

  lemma {:induction false} ThreeBytes(b: nat, c: nat, d: nat)
    requires b < 16 && c < 64 && d < 64 && b * 64 + c >= 32
    ensures var bytes, n := [ByteOf(0xE0 + b), ByteOf(0x80 + c), ByteOf(0x80 + d)], b * 4096 + c * 64 + d;
      Utf8Value(bytes) == Some(n) && (WellFormedUtf8(bytes) <==> IsScalarValue(n))
  {
  }

  lemma {:induction false} FourBytes(a: nat, b: nat, c: nat, d: nat)
    requires a < 8 && b < 64 && c < 64 && d < 64 && a * 64 + b >= 16
    ensures var bytes, n :=
      [ByteOf(0xF0 + a), ByteOf(0x80 + b), ByteOf(0x80 + c), ByteOf(0x80 + d)], a * 262144 + b * 4096 + c * 64 + d;
      Utf8Value(bytes) == Some(n) && (WellFormedUtf8(bytes) <==> IsScalarValue(n))
  {
  }
}
