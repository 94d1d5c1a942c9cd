/** Soft-float comparison (`comparetf2.c`) for any binary interchange format: the integer comparison
    of two representations against the order of the numbers they encode (sections 3.4 and 5.11 of
    IEEE 754-2008). */
module QuadCompare {
  import opened Common

  /** The widths of the exponent and the trailing significand; quad precision is 15 and 112. */
  datatype Format = Format(exponent: nat, significand: nat)

  function AbsRange(w: Format): (r: nat)
    ensures r > 0
  {
    Pow2(w.exponent) * Pow2(w.significand)
  }

  predicate IsRep(w: Format, a: nat) {
    w.exponent > 0 && a < 2 * AbsRange(w)
  }

  /** `toRep(a) & absMask`, the sign bit, and the representation as a signed integer. */
  function Abs(w: Format, a: nat): nat {
    a % AbsRange(w)
  }

  predicate Negative(w: Format, a: nat) {
    a >= AbsRange(w)
  }

  function Signed(w: Format, a: nat): int {
    if Negative(w, a) then a - 2 * AbsRange(w) else a
  }

  function InfRep(w: Format): int {
    (Pow2(w.exponent) - 1) * Pow2(w.significand)
  }

  // ----- the routines -----

  function Letf2(w: Format, a: nat, b: nat): int {
    if Abs(w, a) > InfRep(w) || Abs(w, b) > InfRep(w) then 1
    else if Abs(w, a) == 0 && Abs(w, b) == 0 then 0
    else if !(Negative(w, a) && Negative(w, b)) then
      (if Signed(w, a) < Signed(w, b) then -1 else if Signed(w, a) == Signed(w, b) then 0 else 1)
    else
      (if Signed(w, a) > Signed(w, b) then -1 else if Signed(w, a) == Signed(w, b) then 0 else 1)
  }

  function Getf2(w: Format, a: nat, b: nat): int {
    if Abs(w, a) > InfRep(w) || Abs(w, b) > InfRep(w) then -1
    else if Abs(w, a) == 0 && Abs(w, b) == 0 then 0
    else if !(Negative(w, a) && Negative(w, b)) then
      (if Signed(w, a) < Signed(w, b) then -1 else if Signed(w, a) == Signed(w, b) then 0 else 1)
    else
      (if Signed(w, a) > Signed(w, b) then -1 else if Signed(w, a) == Signed(w, b) then 0 else 1)
  }

  predicate Unordtf2(w: Format, a: nat, b: nat) {
    Abs(w, a) > InfRep(w) || Abs(w, b) > InfRep(w)
  }

  // ----- the numbers -----

  datatype Extended = NaN | NegInf | Finite(value: real) | PosInf

  function RealPow2(k: int): (r: real)
    ensures r > 0.0
  {
    if k >= 0 then Pow2(k) as real else 1.0 / (Pow2(-k) as real)
  }

  function Bias(w: Format): int
    requires w.exponent > 0
  {
    Pow2(w.exponent - 1) - 1
  }

  function Times(x: nat, y: nat): (r: nat) {
    x * y
  }

  function Scale(x: nat, r: real): real {
    x as real * r
  }

  /** The exponent and significand fields. */
  function ExponentOf(w: Format, abs: nat): nat {
    Quotient(abs, Pow2(w.significand))
  }

  function SignificandOf(w: Format, abs: nat): nat {
    Remainder(abs, Pow2(w.significand))
  }

  function Quotient(n: nat, d: nat): nat
    requires d > 0
  {
    n / d
  }

  function Remainder(n: nat, d: nat): nat
    requires d > 0
  {
    n % d
  }

  /** The magnitude of a finite number: subnormal or normal. */
  function Magnitude(w: Format, abs: nat): real
    requires w.exponent > 0
  {
    var e, f := ExponentOf(w, abs), SignificandOf(w, abs);
    if e == 0 then Scale(f, RealPow2(1 - Bias(w) - w.significand))
    else Scale(Pow2(w.significand) + f, RealPow2(e - Bias(w) - w.significand))
  }

  function Value(w: Format, a: nat): Extended
    requires IsRep(w, a)
  {
    var abs := Abs(w, a);
    if abs > InfRep(w) then NaN
    else if abs == InfRep(w) then (if Negative(w, a) then NegInf else PosInf)
    else Finite(if Negative(w, a) then -Magnitude(w, abs) else Magnitude(w, abs))
  }

  /** The order of the extended reals. */
  function Order(x: Extended, y: Extended): int
    requires x != NaN && y != NaN
  {
    if x == y then 0
    else match (x, y)
      case (NegInf, _) => -1
      case (_, NegInf) => 1
      case (PosInf, _) => 1
      case (_, PosInf) => -1
      case (Finite(p), Finite(q)) => if p < q then -1 else 1
  }

  // ----- magnitudes grow with their representation -----

  /** The magnitude in units of the smallest subnormal. */
  function Units(w: Format, abs: nat): nat {
    UnitsOf(Pow2(w.significand), ExponentOf(w, abs), SignificandOf(w, abs))
  }

  function UnitsOf(p: nat, e: nat, f: nat): nat {
    if e == 0 then f else Times(p + f, Pow2(e - 1))
  }

  lemma {:induction false} FieldsOfNext(n: nat, p: nat)
    requires p > 0
    ensures var e, f := Quotient(n, p), Remainder(n, p);
      && f < p
      && (f + 1 < p ==> Quotient(n + 1, p) == e && Remainder(n + 1, p) == f + 1)
      && (f + 1 == p ==> Quotient(n + 1, p) == e + 1 && Remainder(n + 1, p) == 0)
  {
    var e, f := n / p, n % p;
    assert n == p * e + f;
    if f + 1 < p {
      DivMod(n + 1, p, e, f + 1);
    } else {
      Distribute(e, p);
      DivMod(n + 1, p, e + 1, 0);
    }
  }

  lemma {:induction false} UnitsGrowByOne(w: Format, abs: nat)
    ensures Units(w, abs) < Units(w, abs + 1)
  {
    var p, e, f := Pow2(w.significand), ExponentOf(w, abs), SignificandOf(w, abs);
    FieldsOfNext(abs, p);
    hide Quotient, Remainder, Times;
    if e == 0 {
      TimesOne(p);
    } else if f + 1 < p {
      TimesMore(p + f, Pow2(e - 1));
    } else {
      TimesCarry(p, Pow2(e - 1));
    }
  }

  lemma {:induction false} TimesOne(p: nat)
    ensures Times(p + 0, Pow2(0)) == p
  {
  }

  lemma {:induction false} TimesMore(x: nat, q: nat)
    requires q > 0
    ensures Times(x, q) < Times(x + 1, q)
  {
    Distribute(x, q);
  }

  lemma {:induction false} TimesCarry(p: nat, q: nat)
    requires q > 0 && p > 0
    ensures Times(p + (p - 1), q) < Times(p + 0, 2 * q)
  {
    assert (p + (p - 1)) * q == 2 * (p * q) - q;
    assert p * (2 * q) == 2 * (p * q);
  }

  lemma {:induction false} Distribute(x: nat, y: nat)
    ensures (x + 1) * y == x * y + y
  {
  }

  lemma {:induction false} UnitsGrow(w: Format, x: nat, y: nat)
    requires x < y
    ensures Units(w, x) < Units(w, y)
    decreases y
  {
    UnitsGrowByOne(w, y - 1);
    if x < y - 1 { UnitsGrow(w, x, y - 1); }
  }

  lemma {:induction false} RealPow2Step(k: int)
    ensures RealPow2(k + 1) == RealPow2(k) * 2.0
  {
    if k < 0 {
      var n := -k;
      assert Pow2(n) == 2 * Pow2(n - 1);
      Halves(Pow2(n - 1) as real);
    }
  }

  lemma {:induction false} Halves(x: real)
    requires x > 0.0
    ensures 1.0 / x == 1.0 / (2.0 * x) * 2.0
  {
  }

  lemma {:induction false} RealPow2Add(k: int, n: nat)
    ensures RealPow2(k + n) == Scale(Pow2(n), RealPow2(k))
  {
    if n == 0 {
      ScaleOne(RealPow2(k));
    } else {
      RealPow2Add(k, n - 1);
      RealPow2Step(k + n - 1);
      ScaleTwice(Pow2(n - 1), RealPow2(k));
      hide Scale, RealPow2;
    }
  }

  lemma {:induction false} ScaleOne(r: real)
    ensures Scale(Pow2(0), r) == r
  {
  }

  lemma {:induction false} ScaleTwice(n: nat, r: real)
    ensures Scale(2 * n, r) == Scale(n, r) * 2.0
  {
    assert (2 * n) as real == 2.0 * (n as real);
  }

  lemma {:induction false} ScaleTimes(x: nat, z: nat, r: real)
    ensures Scale(x, Scale(z, r)) == Scale(Times(x, z), r)
  {
    assert (x * z) as real == x as real * (z as real);
  }

  lemma {:induction false} ScaleGrows(x: nat, y: nat, r: real)
    requires x < y && r > 0.0
    ensures Scale(x, r) < Scale(y, r)
  {
  }

  /** The magnitude is a positive multiple of its units. */
  lemma {:induction false} MagnitudeIsUnits(w: Format, abs: nat)
    requires w.exponent > 0
    ensures Magnitude(w, abs) == Scale(Units(w, abs), RealPow2(1 - Bias(w) - w.significand))
  {
    hide Scale, Times, RealPow2, Quotient, Remainder, Bias;
    var e, f, k := ExponentOf(w, abs), SignificandOf(w, abs), 1 - Bias(w) - w.significand;
    if e > 0 {
      RealPow2Add(k, e - 1);
      ScaleTimes(Pow2(w.significand) + f, Pow2(e - 1), RealPow2(k));
      assert k + (e - 1) == e - Bias(w) - w.significand;
    }
  }

  lemma {:induction false} MagnitudeGrows(w: Format, x: nat, y: nat)
    requires w.exponent > 0 && x < y
    ensures Magnitude(w, x) < Magnitude(w, y)
  {
    hide *;
    UnitsGrow(w, x, y);
    MagnitudeIsUnits(w, x);
    MagnitudeIsUnits(w, y);
    ScaleGrows(Units(w, x), Units(w, y), RealPow2(1 - Bias(w) - w.significand));
  }

  lemma {:induction false} MagnitudeZero(w: Format, abs: nat)
    requires w.exponent > 0
    ensures Magnitude(w, 0) == 0.0 && (abs > 0 ==> Magnitude(w, abs) > 0.0)
  {
    hide *;
    MagnitudeOfZero(w);
    if abs > 0 { MagnitudeGrows(w, 0, abs); }
  }

  lemma {:induction false} ZeroFields(w: Format)
    ensures ExponentOf(w, 0) == 0 && SignificandOf(w, 0) == 0
  {
    hide Pow2;
    DivMod(0, Pow2(w.significand), 0, 0);
  }

  lemma {:induction false} MagnitudeOfZero(w: Format)
    requires w.exponent > 0
    ensures Magnitude(w, 0) == 0.0
  {
    hide RealPow2, Bias, ExponentOf, SignificandOf;
    ZeroFields(w);
  }

  // ----- the theorems -----

  /** On numbers both routines give the order of the values; they differ exactly on unordered
      operands, which are exactly those with a NaN. */
  lemma {:induction false} CompareIsOrder(w: Format, a: nat, b: nat)
    requires IsRep(w, a) && IsRep(w, b)
    ensures Unordtf2(w, a, b) <==> Value(w, a) == NaN || Value(w, b) == NaN
    ensures !Unordtf2(w, a, b) ==> Letf2(w, a, b) == Getf2(w, a, b) == Order(Value(w, a), Value(w, b))
    ensures Unordtf2(w, a, b) ==> Letf2(w, a, b) == 1 && Getf2(w, a, b) == -1
  {
    if !Unordtf2(w, a, b) {
      var x, y := Abs(w, a), Abs(w, b);
      AbsIs(w, a);
      AbsIs(w, b);
      MagnitudeZero(w, x);
      MagnitudeZero(w, y);
      if x < y { MagnitudeGrows(w, x, y); } else if y < x { MagnitudeGrows(w, y, x); }
      hide Magnitude, InfRep, AbsRange;
    }
  }

  lemma {:induction false} AbsIs(w: Format, a: nat)
    requires IsRep(w, a)
    ensures Abs(w, a) == if Negative(w, a) then a - AbsRange(w) else a
    ensures InfRep(w) > 0
  {
    var r := AbsRange(w);
    if Negative(w, a) { DivMod(a, r, 1, a - r); } else { DivMod(a, r, 0, a); }
    InfPositive(w);
  }

  lemma {:induction false} InfPositive(w: Format)
    requires w.exponent > 0
    ensures InfRep(w) > 0
  {
    assert Pow2(w.exponent) >= 2;
  }
}
