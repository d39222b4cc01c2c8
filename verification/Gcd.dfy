/** Euclid's algorithm and the common divisor of a list of weights. */
module Gcd {

  function Of(a: nat, b: nat): nat
    decreases b
  {
    if b == 0 then a else Of(b, a % b)
  }

  method Compute(a: nat, b: nat) returns (g: nat)
    ensures g == Of(a, b)
  {
    var x, y := a, b;
    while y != 0
      invariant y >= 0 && Of(x, y) == Of(a, b)
      decreases y
    {
      x, y := y, x % y;
    }
    g := x;
  }

  ghost predicate Multiple(l: int, x: int)
    requires l != 0
  {
    exists q: int :: x == q * l
  }

  lemma MultipleOfCombination(l: int, x: int, y: int, k: int)
    requires l != 0 && Multiple(l, x) && Multiple(l, y)
    ensures Multiple(l, x - k * y)
  {
    var p: int :| x == p * l;
    var q: int :| y == q * l;
    assert x - k * y == (p - k * q) * l;
  }

  lemma Remainder(a: nat, b: nat)
    requires b > 0
    ensures a % b == a - (a / b) * b
  {
  }

  lemma {:induction false} DividesBoth(a: nat, b: nat)
    requires a > 0 || b > 0
    ensures Of(a, b) > 0 && Multiple(Of(a, b), a) && Multiple(Of(a, b), b)
    decreases b
  {
    if b == 0 {
      assert a == 1 * a && b == 0 * a;
    } else {
      var g := Of(b, a % b);
      DividesBoth(b, a % b);
      Remainder(a, b);
      MultipleOfCombination(g, a % b, b, -(a / b));
      assert a % b - -(a / b) * b == a;
    }
  }

  /** Greatest, in the form the period argument needs: what divides `p` times both arguments
      divides `p` times their common divisor.  With `p == 1` it is the usual statement. */
  lemma {:induction false} Greatest(l: int, p: int, a: nat, b: nat)
    requires l != 0 && Multiple(l, p * a) && Multiple(l, p * b)
    ensures Multiple(l, p * Of(a, b))
    decreases b
  {
    if b != 0 {
      Remainder(a, b);
      MultipleOfCombination(l, p * a, p * b, a / b);
      assert p * a - (a / b) * (p * b) == p * (a % b);
      Greatest(l, p, b, a % b);
    }
  }

  /** The left fold of `Of` over a non-empty list. */
  function OfAll(ws: seq<nat>): nat
    requires |ws| > 0
  {
    if |ws| == 1 then ws[0] else Of(OfAll(ws[..|ws| - 1]), ws[|ws| - 1])
  }

  lemma MultipleTrans(g: int, h: int, x: int)
    requires g != 0 && h != 0 && Multiple(g, h) && Multiple(h, x)
    ensures Multiple(g, x)
  {
    var p: int :| h == p * g;
    var q: int :| x == q * h;
    assert x == (q * p) * g;
  }

  lemma {:induction false} DividesAll(ws: seq<nat>, i: nat)
    requires i < |ws| && forall k :: 0 <= k < |ws| ==> ws[k] > 0
    ensures OfAll(ws) > 0 && Multiple(OfAll(ws), ws[i])
  {
    var n := |ws| - 1;
    if n == 0 {
      assert ws[0] == 1 * ws[0];
    } else {
      var h := OfAll(ws[..n]);
      DividesAll(ws[..n], if i < n then i else 0);
      DividesBoth(h, ws[n]);
      if i < n { MultipleTrans(Of(h, ws[n]), h, ws[i]); }
    }
  }

  lemma {:induction false} GreatestOfAll(l: int, p: int, ws: seq<nat>)
    requires |ws| > 0 && l != 0
    requires forall i :: 0 <= i < |ws| ==> Multiple(l, p * ws[i])
    ensures Multiple(l, p * OfAll(ws))
  {
    var n := |ws| - 1;
    if n > 0 {
      forall i | 0 <= i < n ensures Multiple(l, p * ws[..n][i]) {
        assert Multiple(l, p * ws[i]);
      }
      GreatestOfAll(l, p, ws[..n]);
      Greatest(l, p, OfAll(ws[..n]), ws[n]);
    }
  }
}
