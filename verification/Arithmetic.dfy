/** Integer division facts that the solver does not find on its own. */
module Arithmetic {

  lemma MulMonotone(a: int, b: int, c: int)
    requires a >= 0 && b <= c
    ensures a * b <= a * c
  {
  }

  lemma SquareMonotone(x: int, y: int)
    requires 0 <= x <= y
    ensures x * x <= y * y
  {
    MulMonotone(x, x, y);
    MulMonotone(y, x, y);
  }

  lemma SmallMultiple(k: int, m: int)
    requires m > 0 && -m < k * m < m
    ensures k == 0
  {
  }

  /** Quotient and remainder are determined by `x == q * m + r`. */
  lemma DivModUnique(x: int, m: int, q: int, r: int)
    requires m > 0 && 0 <= r < m && x == q * m + r
    ensures x / m == q && x % m == r
  {
    assert (q - x / m) * m == x % m - r;
    SmallMultiple(q - x / m, m);
  }

  lemma ModShift(x: int, m: int, k: int)
    requires m > 0
    ensures (x + k * m) % m == x % m
    ensures (x + k * m) / m == x / m + k
  {
    assert x + k * m == (x / m + k) * m + x % m;
    DivModUnique(x + k * m, m, x / m + k, x % m);
  }

  function Pow2(k: nat): (p: nat)
    ensures p > 0
  {
    if k == 0 then 1 else 2 * Pow2(k - 1)
  }

  /** Bit `k` of a number. */
  predicate BitSet(x: nat, k: nat) {
    (x / Pow2(k)) % 2 == 1
  }

  lemma NextBit(x: nat, p: nat)
    requires p > 0
    ensures x % (2 * p) == 0 <==> x % p == 0 && (x / p) % 2 == 0
  {
    var q, r := x / p, x % p;
    assert x == q * p + r;
    var h, l := q / 2, q % 2;
    assert q == 2 * h + l;
    assert q * p == h * (2 * p) + l * p;
    DivModUnique(x, 2 * p, h, l * p + r);
  }

  /** A number is divisible by a power of two exactly if none of its low bits is set. */
  lemma {:induction false} LowBits(x: nat, n: nat)
    ensures x % Pow2(n) == 0 <==> forall k :: 0 <= k < n ==> !BitSet(x, k)
  {
    if n > 0 {
      var l := n - 1;
      LowBits(x, l);
      NextBit(x, Pow2(l));
      assert BitSet(x, l) <==> (x / Pow2(l)) % 2 != 0;
      hide BitSet;
      assert (forall k :: 0 <= k < n ==> !BitSet(x, k)) <==> !BitSet(x, l) && forall k :: 0 <= k < l ==> !BitSet(x, k);
    }
  }
}
