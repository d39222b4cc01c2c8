/** The slots one backend prefers, in order: an arithmetic progression modulo a prime, which visits
    every slot. */
module Permutation {
  import Arithmetic

  ghost predicate Prime(m: nat) {
    m >= 2 && forall d :: 2 <= d < m ==> m % d != 0
  }

  function Slot(offset: nat, skip: nat, m: nat, j: nat): (c: nat)
    requires m > 0
    ensures c < m
  {
    (offset + j * skip) % m
  }

  /** Bezout: some multiple of `a` is the greatest common divisor modulo `b`. */
  lemma {:induction false} Bezout(a: nat, b: nat) returns (g: nat, x: int, y: int)
    requires a > 0 || b > 0
    ensures g > 0 && x * a + y * b == g
    ensures exists p: int :: a == p * g
    ensures exists q: int :: b == q * g
    decreases b
  {
    if b == 0 {
      g, x, y := a, 1, 0;
      assert a == 1 * g && b == 0 * g;
    } else {
      var x1, y1;
      g, x1, y1 := Bezout(b, a % b);
      x, y := y1, x1 - y1 * (a / b);
      BezoutStep(a, b, x1, y1, g);
      var p: int :| b == p * g;
      var q: int :| a % b == q * g;
      MultipleToo(a, b, p, q, g);
    }
  }

  lemma MultipleToo(a: nat, b: nat, p: int, q: int, g: int)
    requires b > 0 && b == p * g && a % b == q * g
    ensures a == ((a / b) * p + q) * g
  {
    var k := a / b;
    assert a == k * b + a % b;
    assert k * (p * g) == k * p * g;
  }

  lemma BezoutStep(a: nat, b: nat, x: int, y: int, g: int)
    requires b > 0 && x * b + y * (a % b) == g
    ensures y * a + (x - y * (a / b)) * b == g
  {
    var q, r := a / b, a % b;
    assert a == q * b + r;
    assert y * a == y * (q * b) + y * r;
    assert (x - y * q) * b == x * b - y * (q * b);
  }

  lemma DivisorOfPrime(m: nat, g: nat, p: int)
    requires Prime(m) && g > 0 && m == p * g
    ensures g == 1 || g == m
  {
    Arithmetic.DivModUnique(m, g, p, 0);
    if g > m { Arithmetic.DivModUnique(m, g, 0, m); }
  }

  lemma Inverse(m: nat, skip: nat) returns (inv: int)
    requires Prime(m) && 0 < skip < m
    ensures exists k: int :: inv * skip == 1 + k * m
  {
    var g, x, y := Bezout(skip, m);
    var p: int :| skip == p * g;
    var q: int :| m == q * g;
    DivisorOfPrime(m, g, q);
    if g == m { Arithmetic.SmallMultiple(p, m); }
    inv := x;
    assert inv * skip == 1 + (-y) * m;
  }

  /** Every slot is reached within `m` steps. */
  lemma EverySlotIsReached(m: nat, offset: nat, skip: nat, c: nat) returns (j: nat)
    requires Prime(m) && 0 < skip < m && c < m
    ensures j < m && Slot(offset, skip, m, j) == c
  {
    var inv := Inverse(m, skip);
    var k: int :| inv * skip == 1 + k * m;
    var want := (c - offset) * inv;
    j := want % m;
    ReachArithmetic(m, offset, skip, c, inv, k);
  }

  lemma ReachArithmetic(m: nat, offset: nat, skip: nat, c: nat, inv: int, k: int)
    requires m > 0 && c < m && inv * skip == 1 + k * m
    ensures (offset + ((c - offset) * inv) % m * skip) % m == c
  {
    var d, want := c - offset, (c - offset) * inv;
    var q, j := want / m, want % m;
    var t := d * k - q * skip;
    assert want == q * m + j;
    TakenTogether(d, inv, skip, k, m, q, j);
    Arithmetic.DivModUnique(offset + j * skip, m, t, c);
  }

  lemma TakenTogether(d: int, inv: int, skip: int, k: int, m: int, q: int, j: int)
    requires inv * skip == 1 + k * m && d * inv == q * m + j
    ensures j * skip == d + (d * k - q * skip) * m
  {
    assert (d * inv) * skip == d * (inv * skip);
    assert d * (1 + k * m) == d + (d * k) * m;
    assert (q * m + j) * skip == (q * skip) * m + j * skip;
  }
}
