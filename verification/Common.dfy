/** The few definitions every component shares. */
module Common {
  datatype Option<+T> = None | Some(value: T)

  const WORD32: nat := 0x1_0000_0000
  const WORD64: nat := 0x1_0000_0000_0000_0000

  function Pow2(n: nat): (r: nat)
    ensures r > 0
  {
    if n == 0 then 1 else 2 * Pow2(n - 1)
  }

  ghost predicate Distinct<T>(s: seq<T>) {
    forall i, j :: 0 <= i < j < |s| ==> s[i] != s[j]
  }

  lemma {:induction false} Assoc<T>(a: seq<T>, b: seq<T>, c: seq<T>)
    ensures a + (b + c) == a + b + c
  {
  }

  lemma {:induction false} Multiples(d: nat, q: int, q': int)
    requires q > q'
    ensures d * q >= d * q' + d
    decreases q - q'
  {
    assert d * q == d * (q - 1) + d;
    if q - 1 > q' { Multiples(d, q - 1, q'); }
  }

  lemma {:induction false} DivMod(n: int, d: nat, q: int, r: int)
    requires d > 0 && n == d * q + r && 0 <= r < d
    ensures n / d == q && n % d == r
  {
    var q', r' := n / d, n % d;
    assert n == d * q' + r';
    if q > q' { Multiples(d, q, q'); } else if q' > q { Multiples(d, q', q); }
  }
}
