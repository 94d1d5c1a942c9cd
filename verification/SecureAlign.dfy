/** Secret-aware alignment (`sgx_secure_align.h`): a leading pad that keeps the secret bytes of a
    structure off positions 0, 4, 5, 6 and 7 of every cache line. */
module SecureAlign {
  import opened Common

  /** A 64-bit word, least significant bit first. */
  type Word = w: seq<bool> | |w| == 64 witness seq(64, i => false)

  // ----- bit operations -----

  function Shl(w: Word, n: nat): Word {
    seq(64, i requires 0 <= i < 64 => i >= n && w[i - n])
  }

  function Shr(w: Word, n: nat): Word {
    seq(64, i requires 0 <= i < 64 => i + n < 64 && w[i + n])
  }

  function Or(v: Word, w: Word): Word {
    seq(64, i requires 0 <= i < 64 => v[i] || w[i])
  }

  function And(v: Word, w: Word): Word {
    seq(64, i requires 0 <= i < 64 => v[i] && w[i])
  }

  function Not(w: Word): Word {
    seq(64, i requires 0 <= i < 64 => !w[i])
  }

  function Zero(): Word {
    seq(64, i requires 0 <= i < 64 => false)
  }

  /** `(1 << n) - 1`. */
  function LowBits(n: nat): Word {
    seq(64, i requires 0 <= i < 64 => i < n)
  }

  /** `1 << 63`. */
  function TopBit(): Word {
    seq(64, i requires 0 <= i < 64 => i == 63)
  }

  /** `c & 63` and `(0 - c) & 63` on a wrapping count. */
  function Rol(w: Word, c: int): Word {
    Or(Shl(w, c % 64), Shr(w, -c % 64))
  }

  function Ror(w: Word, c: int): Word {
    Rol(w, -c)
  }

  /** Rotation moves bit `i - c` to bit `i`. */
  lemma {:induction false} RolBit(w: Word, c: int, i: nat)
    requires i < 64
    ensures Rol(w, c)[i] == w[(i - c) % 64]
  {
    Counts(c, i);
    hide *;
    ShiftBits(w, c % 64, -c % 64, i);
    RolIs(w, c);
  }

  lemma {:induction false} RolIs(w: Word, c: int)
    ensures Rol(w, c) == Or(Shl(w, c % 64), Shr(w, -c % 64))
  {
  }

  lemma {:induction false} ShiftBits(w: Word, n: nat, m: nat, i: nat)
    requires i < 64
    ensures Or(Shl(w, n), Shr(w, m))[i] == ((i >= n && w[i - n]) || (i + m < 64 && w[i + m]))
  {
  }

  lemma {:induction false} Counts(c: int, i: nat)
    requires i < 64
    ensures -c % 64 == if c % 64 == 0 then 0 else 64 - c % 64
    ensures (i - c) % 64 == if i >= c % 64 then i - c % 64 else i - c % 64 + 64
  {
  }

  lemma {:induction false} RorBit(w: Word, c: int, i: nat)
    requires i < 64
    ensures Ror(w, c)[i] == w[(i + c) % 64]
  {
    RolBit(w, -c, i);
  }

  // ----- the secret bitmap -----

  /** A run of secret bytes in the structure. */
  datatype Secret = Secret(offset: nat, length: nat)

  function SecretBmp(b: Word, secrets: seq<Secret>): Word
    decreases |secrets|
  {
    if secrets == [] then b
    else SecretBmp(Or(b, Rol(LowBits(secrets[0].length), secrets[0].offset)), secrets[1..])
  }

  /** Byte `r` of a cache line holds a byte of the run. */
  predicate HitsLine(s: Secret, r: nat) {
    exists k :: 0 <= k < s.length && IsAt(s, k, r)
  }

  predicate IsAt(s: Secret, k: nat, r: nat) {
    (s.offset + k) % 64 == r
  }

  lemma {:induction false} RunBits(s: Secret, r: nat)
    requires s.length < 64 && r < 64
    ensures Rol(LowBits(s.length), s.offset)[r] <==> HitsLine(s, r)
  {
    RolBit(LowBits(s.length), s.offset, r);
    hide Rol, LowBits;
    var k := (r - s.offset) % 64;
    LineShift(s.offset, k, r);
    assert LowBits(s.length)[k] == (k < s.length) by { LowBit(s.length, k); }
    if k < s.length { assert IsAt(s, k, r); }
    if HitsLine(s, r) {
      var j :| 0 <= j < s.length && IsAt(s, j, r);
      LineShift(s.offset, j, r);
    }
  }

  lemma {:induction false} LowBit(n: nat, k: nat)
    requires k < 64
    ensures LowBits(n)[k] == (k < n)
  {
  }

  lemma {:induction false} LineShift(o: int, k: nat, r: nat)
    requires k < 64 && r < 64
    ensures (o + k) % 64 == r <==> (r - o) % 64 == k
  {
  }

  /** The bitmap marks exactly the residues of secret bytes. */
  lemma {:induction false} BmpBits(b: Word, secrets: seq<Secret>, r: nat)
    requires r < 64 && forall i :: 0 <= i < |secrets| ==> secrets[i].length < 64
    ensures SecretBmp(b, secrets)[r] <==> b[r] || exists i :: 0 <= i < |secrets| && HitsLine(secrets[i], r)
    decreases |secrets|
  {
    if secrets != [] {
      var b', rest := Or(b, Rol(LowBits(secrets[0].length), secrets[0].offset)), secrets[1..];
      RunBits(secrets[0], r);
      BmpBits(b', rest, r);
      assert b'[r] == (b[r] || HitsLine(secrets[0], r));
      if SecretBmp(b', rest)[r] && !b'[r] {
        var i :| 0 <= i < |rest| && HitsLine(rest[i], r);
        assert HitsLine(secrets[i + 1], r);
      }
      if i :| 0 <= i < |secrets| && HitsLine(secrets[i], r) {
        if i > 0 { assert HitsLine(rest[i - 1], r); }
      }
    }
  }

  // ----- the alignment mask -----

  function GenAlignMask(al: nat, a: nat, m: Word): Word
    requires al > 0
    decreases a
  {
    if a > al then GenAlignMask(al, a / 2, Or(m, Shr(m, a / 2))) else m
  }

  /** `(al & (al - 1)) == 0`: at most one bit is set. */
  predicate AtMostOneBit(al: nat) {
    al <= 1 || (al % 2 == 0 && AtMostOneBit(al / 2))
  }

  /** Bit `j`, counted from the top. */
  predicate FromTop(w: Word, j: nat)
    requires j < 64
  {
    w[63 - j]
  }

  ghost predicate Marks(m: Word, a: nat)
    requires a > 0
  {
    forall j :: 0 <= j < 64 ==> FromTop(m, j) == (j % a == 0)
  }

  lemma {:induction false} HalfSteps(j: nat, h: nat)
    requires h > 0
    ensures j % h == 0 <==> j % (2 * h) == 0 || (j >= h && (j - h) % (2 * h) == 0)
  {
    var q, r := j / (2 * h), j % (2 * h);
    assert j == 2 * h * q + r;
    if r < h {
      DivMod(j, h, 2 * q, r);
      if j >= h && q > 0 { DivMod(j - h, 2 * h, q - 1, r + h); }
    } else {
      DivMod(j, h, 2 * q + 1, r - h);
      DivMod(j - h, 2 * h, q, r - h);
    }
  }

  lemma {:induction false} MaskHalves(m: Word, h: nat)
    requires h > 0 && Marks(m, 2 * h)
    ensures Marks(Or(m, Shr(m, h)), h)
  {
    var m' := Or(m, Shr(m, h));
    forall j | 0 <= j < 64 ensures FromTop(m', j) == (j % h == 0) {
      HalfSteps(j, h);
      assert m'[63 - j] == (m[63 - j] || (63 - j + h < 64 && m[63 - j + h]));
      assert FromTop(m, j) == (j % (2 * h) == 0);
      if j >= h { assert FromTop(m, j - h) == ((j - h) % (2 * h) == 0); }
    }
  }

  lemma {:induction false} MaskMarks(al: nat, a: nat, m: Word)
    requires al > 0 && AtMostOneBit(al) && AtMostOneBit(a) && 0 < a <= 64 && Marks(m, a) && (al <= a || a == 64)
    ensures Marks(GenAlignMask(al, a, m), al)
    decreases a
  {
    if a > al {
      assert a % 2 == 0;
      HalfAtLeast(al, a);
      MaskHalves(m, a / 2);
      MaskMarks(al, a / 2, Or(m, Shr(m, a / 2)));
    } else if al > a {
      forall j | 0 <= j < 64 ensures FromTop(m, j) == (j % al == 0) {
        DivMod(j, al, 0, j);
        DivMod(j, 64, 0, j);
      }
    }
  }

  lemma {:induction false} HalfAtLeast(al: nat, a: nat)
    requires 0 < al < a && AtMostOneBit(al) && AtMostOneBit(a)
    ensures al <= a / 2
    decreases a
  {
    if al > 1 { HalfAtLeast(al / 2, a / 2); }
  }

  // ----- leading zeros -----

  /** The distance of the highest set bit from the top, 64 if there is none. */
  function Distance(w: Word, k: nat): (d: nat)
    requires k <= 64
    ensures k <= d <= 64 && (forall j :: k <= j < d ==> !FromTop(w, j)) && (d < 64 ==> FromTop(w, d))
    decreases 64 - k
  {
    if k == 64 || FromTop(w, k) then k else Distance(w, k + 1)
  }

  lemma {:induction false} ShiftCloser(w: Word)
    requires !w[63] && Distance(w, 0) < 64
    ensures Distance(Shl(w, 1), 0) == Distance(w, 0) - 1
  {
    var d, w' := Distance(w, 0), Shl(w, 1);
    assert !FromTop(w, 0);
    forall j | 0 <= j < 63 ensures FromTop(w', j) == FromTop(w, j + 1) {
    }
    hide Distance, FromTop, Shl;
    DistanceIs(w', d - 1);
  }

  lemma {:induction false} DistanceIs(w: Word, d: nat)
    requires d < 64 && FromTop(w, d) && forall j :: 0 <= j < d ==> !FromTop(w, j)
    ensures Distance(w, 0) == d
  {
    hide Distance, FromTop;
  }

  function CountLzb(w: Word): int
    decreases Distance(w, 0)
  {
    if Distance(w, 0) == 64 then -1
    else if w[63] then 0
    else
      ShiftCloser(w);
      CountLzb(Shl(w, 1)) + 1
  }

  lemma {:induction false} CountIsDistance(w: Word)
    ensures CountLzb(w) == if Distance(w, 0) == 64 then -1 else Distance(w, 0)
    decreases Distance(w, 0)
  {
    if Distance(w, 0) != 64 && !w[63] {
      ShiftCloser(w);
      CountIsDistance(Shl(w, 1));
    }
  }

  // ----- the pad -----

  /** The positions of a cache line that must stay free of secrets. */
  predicate Forbidden(r: int) {
    r == 0 || r == 4 || r == 5 || r == 6 || r == 7
  }

  function CalcLspc(al: nat, bmp: Word): int
    requires al > 0
  {
    if !AtMostOneBit(al) then -2 else CountLzb(Candidates(al, bmp))
  }

  /** The argument of `count_lzb`: bit `j` from the top stands for a pad of `j` bytes. */
  function Candidates(al: nat, bmp: Word): Word
    requires al > 0
  {
    And(Not(Or(Ror(Or(Or(Or(bmp, Ror(bmp, 1)), Ror(bmp, 2)), Ror(bmp, 3)), 5), Ror(bmp, 1))),
      GenAlignMask(al, 64, TopBit()))
  }

  /** With a pad of `j`, no secret residue lands on a forbidden position. */
  predicate PadOk(bmp: Word, j: nat) {
    && !bmp[(0 - j) % 64] && !bmp[(4 - j) % 64] && !bmp[(5 - j) % 64] && !bmp[(6 - j) % 64] && !bmp[(7 - j) % 64]
  }

  lemma {:induction false} FourBits(bmp: Word, i: nat)
    requires i < 64
    ensures Or(Or(Or(bmp, Ror(bmp, 1)), Ror(bmp, 2)), Ror(bmp, 3))[i] ==
      (bmp[i] || bmp[(i + 1) % 64] || bmp[(i + 2) % 64] || bmp[(i + 3) % 64])
  {
    RorBit(bmp, 1, i);
    RorBit(bmp, 2, i);
    RorBit(bmp, 3, i);
    hide Ror;
  }

  lemma {:induction false} CandidateBit(al: nat, bmp: Word, j: nat)
    requires al > 0 && AtMostOneBit(al) && j < 64
    ensures FromTop(Candidates(al, bmp), j) <==> j % al == 0 && PadOk(bmp, j)
  {
    var four := Or(Or(Or(bmp, Ror(bmp, 1)), Ror(bmp, 2)), Ror(bmp, 3));
    var i := (63 - j + 5) % 64;
    RorBit(four, 5, 63 - j);
    RorBit(bmp, 1, 63 - j);
    FourBits(bmp, i);
    TopMarks();
    MaskMarks(al, 64, TopBit());
    assert FromTop(GenAlignMask(al, 64, TopBit()), j) == (j % al == 0);
    Residues(j);
    hide GenAlignMask, Ror, TopBit;
  }

  lemma {:induction false} TopMarks()
    ensures Marks(TopBit(), 64) && AtMostOneBit(64)
  {
    forall j | 0 <= j < 64 ensures FromTop(TopBit(), j) == (j % 64 == 0) {
    }
    LineIsPower();
  }

  lemma {:induction false} LineIsPower()
    ensures AtMostOneBit(64)
  {
    assert AtMostOneBit(4) && AtMostOneBit(16);
  }

  lemma {:induction false} Residues(j: nat)
    requires j < 64
    ensures var i := (63 - j + 5) % 64;
      && i == (4 - j) % 64 && (i + 1) % 64 == (5 - j) % 64 && (i + 2) % 64 == (6 - j) % 64
      && (i + 3) % 64 == (7 - j) % 64
      && (63 - j + 1) % 64 == (0 - j) % 64
  {
    Wrap(68 - j);
    Wrap(64 - j);
    Wrap(0 - j);
    Wrap(4 - j);
    Wrap(5 - j);
    Wrap(6 - j);
    Wrap(7 - j);
    var i := (63 - j + 5) % 64;
    Wrap(i + 1);
    Wrap(i + 2);
    Wrap(i + 3);
  }

  lemma {:induction false} Wrap(x: int)
    requires -64 <= x < 128
    ensures x % 64 == if x < 0 then x + 64 else if x < 64 then x else x - 64
  {
  }

  /** `calc_lspc` in terms of the bitmap. */
  lemma {:induction false} LspcOfBmp(al: nat, bmp: Word)
    requires al > 0
    ensures var p := CalcLspc(al, bmp);
      if !AtMostOneBit(al) then p == -2
      else if p == -1 then forall j :: 0 <= j < 64 && j % al == 0 ==> !PadOk(bmp, j)
      else 0 <= p < 64 && p % al == 0 && PadOk(bmp, p) && forall j :: 0 <= j < p && j % al == 0 ==> !PadOk(bmp, j)
  {
    if AtMostOneBit(al) {
      var c := Candidates(al, bmp);
      CountIsDistance(c);
      forall j | 0 <= j < 64 ensures FromTop(c, j) <==> j % al == 0 && PadOk(bmp, j) { CandidateBit(al, bmp, j); }
      hide Candidates, FromTop, CountLzb, PadOk;
    }
  }

  // ----- the pad, in terms of the secret bytes -----

  predicate InLine(secrets: seq<Secret>, i: nat, k: nat)
    requires i < |secrets|
  {
    k < secrets[i].length
  }

  /** Where byte `k` of secret `i` lands in its cache line behind a pad of `j` bytes. */
  function Position(secrets: seq<Secret>, i: nat, k: nat, j: nat): nat
    requires i < |secrets|
  {
    (j + secrets[i].offset + k) % 64
  }

  ghost predicate Short(secrets: seq<Secret>) {
    forall i :: 0 <= i < |secrets| ==> secrets[i].length < 64
  }

  /** Behind a pad of `j` bytes, no secret byte lands on a forbidden position. */
  ghost predicate Clear(secrets: seq<Secret>, j: nat) {
    forall i, k :: 0 <= i < |secrets| && 0 <= k && InLine(secrets, i, k) ==> !Forbidden(Position(secrets, i, k, j))
  }

  lemma {:induction false} PositionIs(secrets: seq<Secret>, i: nat, k: nat, j: nat, f: nat)
    requires i < |secrets| && f < 64
    ensures Position(secrets, i, k, j) == f <==> IsAt(secrets[i], k, (f - j) % 64)
  {
    var o := secrets[i].offset + k;
    Unpad(j, o);
    Repad(j, f);
    assert j + secrets[i].offset + k == j + o;
    if o % 64 == (f - j) % 64 { Cancel(j, o, f - j); }
  }

  lemma {:induction false} Repad(j: nat, f: nat)
    requires f < 64
    ensures (j + (f - j)) % 64 == f
  {
  }

  lemma {:induction false} Cancel(j: nat, x: int, y: int)
    requires x % 64 == y % 64
    ensures (j + x) % 64 == (j + y) % 64
  {
    var p, q, r := x / 64, y / 64, x % 64;
    assert x == 64 * p + r && y == 64 * q + r;
    DivMod(j + x, 64, p + (j + r) / 64, (j + r) % 64);
    DivMod(j + y, 64, q + (j + r) / 64, (j + r) % 64);
  }

  /** The bit that `calc_lspc` looks at for position `f` and pad `j` is set exactly if some secret
      byte lands there. */
  lemma {:induction false} BmpIsSecretByte(secrets: seq<Secret>, j: nat, f: nat)
    requires f < 64 && Short(secrets)
    ensures SecretBmp(Zero(), secrets)[(f - j) % 64] <==>
      exists i, k :: 0 <= i < |secrets| && 0 <= k && InLine(secrets, i, k) && Position(secrets, i, k, j) == f
  {
    var r := (f - j) % 64;
    BmpBits(Zero(), secrets, r);
    hide SecretBmp, Position;
    if i :| 0 <= i < |secrets| && HitsLine(secrets[i], r) {
      var k :| 0 <= k < secrets[i].length && IsAt(secrets[i], k, r);
      PositionIs(secrets, i, k, j, f);
      assert InLine(secrets, i, k);
    }
    if i, k :| 0 <= i < |secrets| && 0 <= k && InLine(secrets, i, k) && Position(secrets, i, k, j) == f {
      PositionIs(secrets, i, k, j, f);
      assert HitsLine(secrets[i], r);
    }
  }

  lemma {:induction false} ClearBit(secrets: seq<Secret>, j: nat, f: nat)
    requires f < 64 && Forbidden(f) && Short(secrets) && Clear(secrets, j)
    ensures !SecretBmp(Zero(), secrets)[(f - j) % 64]
  {
    hide SecretBmp, Position, Zero, InLine, Short;
    BmpIsSecretByte(secrets, j, f);
  }

  lemma {:induction false} OkByte(secrets: seq<Secret>, j: nat, i: nat, k: nat)
    requires Short(secrets) && i < |secrets| && InLine(secrets, i, k) && PadOk(SecretBmp(Zero(), secrets), j)
    ensures !Forbidden(Position(secrets, i, k, j))
  {
    hide SecretBmp, Position, Zero, InLine, Short;
    var f := Position(secrets, i, k, j);
    if Forbidden(f) { BmpIsSecretByte(secrets, j, f); }
  }

  lemma {:induction false} PadClear(secrets: seq<Secret>, j: nat)
    requires Short(secrets)
    ensures PadOk(SecretBmp(Zero(), secrets), j) <==> Clear(secrets, j)
  {
    if Clear(secrets, j) {
      hide SecretBmp, Zero, Clear, Short;
      ClearBit(secrets, j, 0);
      ClearBit(secrets, j, 4);
      ClearBit(secrets, j, 5);
      ClearBit(secrets, j, 6);
      ClearBit(secrets, j, 7);
    } else if PadOk(SecretBmp(Zero(), secrets), j) {
      hide SecretBmp, Zero, PadOk, Short, Position, Forbidden, InLine;
      forall i, k | 0 <= i < |secrets| && 0 <= k && InLine(secrets, i, k)
        ensures !Forbidden(Position(secrets, i, k, j))
      {
        OkByte(secrets, j, i, k);
      }
    }
  }

  /** Pads repeat every cache line. */
  lemma {:induction false} ClearRepeats(secrets: seq<Secret>, j: nat)
    ensures Clear(secrets, j) ==> Clear(secrets, j % 64)
  {
    if Clear(secrets, j) {
      forall i, k | 0 <= i < |secrets| && 0 <= k && InLine(secrets, i, k)
        ensures !Forbidden(Position(secrets, i, k, j % 64))
      {
        assert !Forbidden(Position(secrets, i, k, j));
        Cancel(secrets[i].offset + k, j, j % 64);
        assert j + secrets[i].offset + k == secrets[i].offset + k + j;
        assert j % 64 + secrets[i].offset + k == secrets[i].offset + k + j % 64;
      }
    }
  }

  lemma {:induction false} MultipleRepeats(al: nat, j: nat)
    requires al > 0 && AtMostOneBit(al) && j % al == 0
    ensures (j % 64) % al == 0
  {
    if al >= 64 {
      BigPowers(al);
      BaseIsLine(j, al);
    } else {
      SmallPowers(al);
      Divides(j, al, 64 / al);
    }
  }

  lemma {:induction false} SmallPowers(al: nat)
    requires 0 < al < 64 && AtMostOneBit(al)
    ensures al == 1 || al == 2 || al == 4 || al == 8 || al == 16 || al == 32
  {
    if al > 1 { SmallPowers(al / 2); }
  }

  lemma {:induction false} Divides(j: nat, al: nat, q: nat)
    requires al > 0 && j % al == 0 && al * q == 64
    ensures (j % 64) % al == 0
  {
    var m, n := j / al, j / 64;
    assert j == al * m && j == 64 * n + j % 64;
    assert j % 64 == al * m - al * q * n;
    assert al * q * n == al * (q * n);
    assert j % 64 == al * (m - q * n);
    DivMod(j % 64, al, m - q * n, 0);
  }

  /** `calc_lspc` is the least multiple of the alignment that, as a pad, keeps every secret byte off
      the forbidden positions; -1 if no multiple of the alignment does, however large; -2 if the
      alignment is no power of two. */
  lemma {:induction false} LspcIsLeast(al: nat, secrets: seq<Secret>)
    requires al > 0 && Short(secrets)
    ensures var p := CalcLspc(al, SecretBmp(Zero(), secrets));
      if !AtMostOneBit(al) then p == -2
      else if p == -1 then forall j: nat :: j % al == 0 ==> !Clear(secrets, j)
      else 0 <= p < 64 && p % al == 0 && Clear(secrets,
        p) && forall j :: 0 <= j < p && j % al == 0 ==> !Clear(secrets, j)
  {
    var bmp := SecretBmp(Zero(), secrets);
    LspcOfBmp(al, bmp);
    hide CalcLspc, SecretBmp, PadOk, Clear, AtMostOneBit;
    forall j: nat ensures PadOk(bmp, j) <==> Clear(secrets, j) { PadClear(secrets, j); }
    if AtMostOneBit(al) && CalcLspc(al, bmp) == -1 {
      forall j: nat | j % al == 0 ensures !Clear(secrets, j) {
        ClearRepeats(secrets, j);
        MultipleRepeats(al, j);
      }
    }
  }

  // ----- end to end -----

  function CalcAlgnFrom(size: nat, a: nat): (r: nat)
    requires a > 0
    ensures r > 0
    decreases a
  {
    if a > 8 && size <= a / 2 then CalcAlgnFrom(size, a / 2) else a
  }

  function CalcAlgn(al: nat, size: nat): (r: nat)
    ensures r > 0
  {
    if al > 64 then al else CalcAlgnFrom(size, 64)
  }

  /** The alignment is 64, or less for a structure that fits in it. */
  lemma {:induction false} AlgnFits(size: nat)
    ensures var a := CalcAlgnFrom(size, 64); a == 64 || (size <= a && (a == 8 || a == 16 || a == 32))
  {
    if size <= 32 {
      if size <= 16 {
        if size <= 8 { assert CalcAlgnFrom(size, 16) == 8; }
      }
    }
  }

  lemma {:induction false} BigPowers(al: nat)
    requires AtMostOneBit(al) && al >= 64
    ensures al % 64 == 0
  {
    if al > 64 {
      LineIsPower();
      HalfAtLeast(64, al);
      BigPowers(al / 2);
    }
  }

  /** Where a compiler puts a member with alignment `t` behind `p` bytes. */
  function RoundUp(p: nat, t: nat): (r: nat)
    requires t > 0
  {
    (p + t - 1) / t * t
  }

  lemma {:induction false} RoundUpIs(p: nat, t: nat)
    requires t > 0
    ensures p <= RoundUp(p, t) < p + t && RoundUp(p, t) % t == 0
  {
    var q, r := (p + t - 1) / t, (p + t - 1) % t;
    assert p + t - 1 == t * q + r;
    DivMod(t * q, t, q, 0);
  }

  lemma {:induction false} NextMultiple(m: nat, z: nat, t: nat)
    requires t > 0 && m % t == 0 && z % t == 0 && z < m + t
    ensures z <= m
  {
    var x, y := m / t, z / t;
    assert m == t * x && z == t * y;
    if y > x { Multiples(t, y, x); }
  }

  /** It is the least multiple of the alignment that is large enough. */
  lemma {:induction false} RoundUpLeast(p: nat, t: nat, m: nat)
    requires t > 0 && p <= m && m % t == 0
    ensures RoundUp(p, t) <= m
  {
    hide RoundUp;
    RoundUpIs(p, t);
    NextMultiple(m, RoundUp(p, t), t);
  }

  /** A power of two divides every larger one. */
  lemma {:induction false} PowersDivide(t: nat, al: nat)
    requires 0 < t <= al && AtMostOneBit(t) && AtMostOneBit(al)
    ensures al % t == 0
  {
    if t > 1 {
      PowersDivide(t / 2, al / 2);
      var q := (al / 2) / (t / 2);
      assert al / 2 == t / 2 * q;
      assert al == 2 * (al / 2) && t == 2 * (t / 2);
      Twice(t / 2, q);
      DivMod(al, t, q, 0);
    }
  }

  lemma {:induction false} Twice(x: nat, q: nat)
    ensures 2 * (x * q) == 2 * x * q
  {
  }

  /** The alignment of the padded structure: what `alignas` asks for, or that of the member. */
  function StructAlgn(al: nat, t: nat, size: nat, pad: nat): (r: nat)
    requires t > 0
    ensures r > 0
  {
    if CalcAlgn(al, size + pad) < t then t else CalcAlgn(al, size + pad)
  }

  /** A type: its alignment is a power of two that divides its size, and its secrets lie in it. */
  ghost predicate IsType(secrets: seq<Secret>, size: nat, t: nat) {
    && 0 < t <= size && AtMostOneBit(t) && size % t == 0 && Short(secrets)
    && forall j :: 0 <= j < |secrets| ==> secrets[j].offset + secrets[j].length <= size
  }

  /** The padded structure is aligned to a cache line, or lies within its alignment. */
  lemma {:induction false} StructFits(al: nat, t: nat, size: nat, pad: nat)
    requires al > 0 && AtMostOneBit(al) && 0 < t <= size && AtMostOneBit(t) && size % t == 0
    ensures var a, end := StructAlgn(al, t, size, pad), RoundUp(pad, t) + size;
      a % 64 == 0 || (end <= a && (a == 8 || a == 16 || a == 32))
  {
    var c := CalcAlgn(al, size + pad);
    if al > 64 { BigPowers(al); }
    AlgnIs(al, size + pad);
    if c < t {
      hide CalcAlgn, RoundUp;
      if c % 64 == 0 { BigPowers(t); }
    } else if c % 64 != 0 {
      assert AtMostOneBit(8) && AtMostOneBit(16) && AtMostOneBit(32);
      PowersDivide(t, c);
      hide CalcAlgn, RoundUp, AtMostOneBit;
      MinusMultiple(c, size, t);
      RoundUpLeast(pad, t, c - size);
    }
  }

  lemma {:induction false} MinusMultiple(c: nat, size: nat, t: nat)
    requires t > 0 && c % t == 0 && size % t == 0 && size <= c
    ensures (c - size) % t == 0
  {
    var x, y := c / t, size / t;
    assert c == t * x && size == t * y;
    assert c - size == t * (x - y);
    DivMod(c - size, t, x - y, 0);
  }

  /** Exactly when the secret bytes keep off the forbidden positions at every aligned address: the
      member, which lies at the pad rounded up to its own alignment, has to be clear there. */
  lemma {:induction false} ClearEverywhereIff(secrets: seq<Secret>, size: nat, t: nat, al: nat, pad: nat)
    requires al > 0 && AtMostOneBit(al) && IsType(secrets, size, t)
    ensures (forall base: nat :: base % StructAlgn(al, t, size, pad) == 0 ==> Clear(secrets, base + RoundUp(pad, t)))
      <==> Clear(secrets, RoundUp(pad, t))
  {
    StructFits(al, t, size, pad);
    var a, off := StructAlgn(al, t, size, pad), RoundUp(pad, t);
    hide StructAlgn, RoundUp, AtMostOneBit, Clear, IsType;
    if Clear(secrets, off) {
      forall base: nat | base % a == 0 ensures Clear(secrets, base + off) {
        ClearMoves(secrets, size, t, base, a, off);
      }
    } else {
      assert 0 % a == 0 && 0 + off == off;
    }
  }

  lemma {:induction false} ClearMoves(secrets: seq<Secret>, size: nat, t: nat, base: nat, a: nat, off: nat)
    requires IsType(secrets, size, t) && a > 0 && base % a == 0 && Clear(secrets, off)
    requires a % 64 == 0 || (off + size <= a && (a == 8 || a == 16 || a == 32))
    ensures Clear(secrets, base + off)
  {
    forall i, k | 0 <= i < |secrets| && 0 <= k && InLine(secrets, i, k)
      ensures !Forbidden(Position(secrets, i, k, base + off))
    {
      assert !Forbidden(Position(secrets, i, k, off));
      hide Forbidden;
      var p := off + secrets[i].offset + k;
      BaseKeeps(base, a, p, off + size);
      assert base + off + secrets[i].offset + k == base + p;
    }
  }

  /** With an alignment no smaller than that of the type, as `custom_alignment` has it, the computed
      pad keeps every secret byte off the forbidden positions at every aligned address. */
  lemma {:induction false} NoSecretForbidden(secrets: seq<Secret>, size: nat, t: nat, al: nat, base: nat)
    requires t <= al && AtMostOneBit(al) && IsType(secrets, size, t)
    requires CalcLspc(al, SecretBmp(Zero(), secrets)) >= 0
    requires base % StructAlgn(al, t, size, CalcLspc(al, SecretBmp(Zero(), secrets))) == 0
    ensures RoundUp(CalcLspc(al, SecretBmp(Zero(), secrets)), t) == CalcLspc(al, SecretBmp(Zero(), secrets))
    ensures Clear(secrets, base + CalcLspc(al, SecretBmp(Zero(), secrets)))
  {
    hide CalcLspc, SecretBmp, StructAlgn, RoundUp, AtMostOneBit, Clear;
    var pad := CalcLspc(al, SecretBmp(Zero(), secrets));
    LspcIsClear(al, secrets);
    PowersDivide(t, al);
    MultipleOf(pad, al, t);
    RoundUpIs(pad, t);
    RoundUpLeast(pad, t, pad);
    hide IsType;
    ClearEverywhereIff(secrets, size, t, al, pad);
  }

  lemma {:induction false} MultipleOf(p: nat, al: nat, t: nat)
    requires al > 0 && t > 0 && p % al == 0 && al % t == 0
    ensures p % t == 0
  {
    var x, y := p / al, al / t;
    assert p == al * x && al == t * y;
    assert t * y * x == t * (y * x);
    DivMod(p, t, y * x, 0);
  }

  lemma {:induction false} LspcIsClear(al: nat, secrets: seq<Secret>)
    requires al > 0 && AtMostOneBit(al) && Short(secrets) && CalcLspc(al, SecretBmp(Zero(), secrets)) >= 0
    ensures Clear(secrets, CalcLspc(al, SecretBmp(Zero(), secrets)))
    ensures CalcLspc(al, SecretBmp(Zero(), secrets)) % al == 0
  {
    hide *;
    LspcIsLeast(al, secrets);
  }

  /** One secret byte at the start of a type: a pad of 1 is clear, pads of 0 and 4 are not. */
  lemma {:induction false} FirstByte()
    ensures var secrets := [Secret(0, 1)];
      Short(secrets) && !Clear(secrets, 0) && Clear(secrets, 1) && !Clear(secrets, 4)
  {
    var secrets := [Secret(0, 1)];
    assert InLine(secrets, 0, 0) && Position(secrets, 0, 0, 0) == 0 && Position(secrets, 0, 0, 4) == 4;
    forall i, k | 0 <= i < |secrets| && 0 <= k && InLine(secrets, i, k) ensures !Forbidden(Position(secrets, i, k, 1)) {
      assert i == 0 && k == 0;
    }
  }

  /** A smaller alignment can fail: a four-byte type whose first byte is secret, with alignment 1. The
      pad is 1, so the member lies at 4, which is forbidden. */
  lemma {:induction false} SmallAlignmentFails()
    ensures var secrets := [Secret(0, 1)];
      && IsType(secrets, 4, 4) && AtMostOneBit(1) && CalcLspc(1, SecretBmp(Zero(), secrets)) == 1
      && StructAlgn(1, 4, 4, 1) == 8 && RoundUp(1, 4) == 4 && !Clear(secrets, RoundUp(1, 4))
  {
    var secrets := [Secret(0, 1)];
    assert CalcAlgnFrom(5, 16) == 8 && CalcAlgnFrom(5, 64) == CalcAlgnFrom(5, 32);
    hide CalcLspc, SecretBmp, Clear, Zero, Short;
    FirstByte();
    LeastPad(1, secrets, 1);
  }

  /** A pad that is clear, with no smaller one clear, is the one computed. */
  lemma {:induction false} LeastPad(al: nat, secrets: seq<Secret>, p: nat)
    requires al > 0 && AtMostOneBit(al) && Short(secrets) && p % al == 0 && Clear(secrets, p)
    requires forall j :: 0 <= j < p ==> !Clear(secrets, j)
    ensures CalcLspc(al, SecretBmp(Zero(), secrets)) == p
  {
    hide *;
    LspcIsLeast(al, secrets);
  }

  lemma {:induction false} AlgnIs(al: nat, size: nat)
    requires al > 64 ==> al % 64 == 0
    ensures var a := CalcAlgn(al, size); a % 64 == 0 || (size <= a && (a == 8 || a == 16 || a == 32))
  {
    AlgnFits(size);
  }

  lemma {:induction false} Unpad(pad: nat, o: nat)
    ensures o % 64 == ((pad + o) % 64 - pad) % 64
  {
  }

  /** A base with the alignment moves a good position to a good position: it is 0 modulo 64, or the
      structure fits in the alignment and starts at least 8 bytes into the line. */
  lemma {:induction false} BaseKeeps(base: nat, a: nat, p: nat, size: nat)
    requires a > 0 && base % a == 0 && p < size && !Forbidden(p % 64)
    requires a % 64 == 0 || (size <= a && (a == 8 || a == 16 || a == 32))
    ensures !Forbidden((base + p) % 64)
  {
    if a % 64 == 0 {
      BaseIsLine(base, a);
      LinePlus(base, p);
    } else if a == 8 {
      Small8(base, p);
    } else if a == 16 {
      Small16(base, p);
    } else {
      Small32(base, p);
    }
  }

  lemma {:induction false} Small8(base: nat, p: nat)
    requires base % 8 == 0 && p < 8 && !Forbidden(p % 64)
    ensures !Forbidden((base + p) % 64)
  {
    LinePlus(base, p);
    var b, m := base % 64, base / 64;
    assert base == 64 * m + b;
    assert b % 8 == 0;
  }

  lemma {:induction false} Small16(base: nat, p: nat)
    requires base % 16 == 0 && p < 16 && !Forbidden(p % 64)
    ensures !Forbidden((base + p) % 64)
  {
    LinePlus(base, p);
    var b, m := base % 64, base / 64;
    assert base == 64 * m + b;
    assert b % 16 == 0;
  }

  lemma {:induction false} Small32(base: nat, p: nat)
    requires base % 32 == 0 && p < 32 && !Forbidden(p % 64)
    ensures !Forbidden((base + p) % 64)
  {
    LinePlus(base, p);
    var b, m := base % 64, base / 64;
    assert base == 64 * m + b;
    assert b % 32 == 0;
  }

  lemma {:induction false} LinePlus(base: nat, p: nat)
    ensures base % 64 + p < 64 ==> (base + p) % 64 == base % 64 + p
    ensures base % 64 == 0 ==> (base + p) % 64 == p % 64
  {
  }

  lemma {:induction false} BaseIsLine(base: nat, a: nat)
    requires a > 0 && base % a == 0 && a % 64 == 0
    ensures base % 64 == 0
  {
    var q, b := base / a, a / 64;
    assert base == 64 * (b * q) by { assert a == 64 * b; assert base == a * q; }
  }
}
