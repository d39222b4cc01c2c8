/** What else the apportionment rule is said to be: a divisor method, and the best possible one. */
module Webster {
  import Arithmetic
  import opened Apportionment
  import opened Deviation

  /** The first `t` picks apportion as Webster's method would: nobody's last seat has a smaller quotient
      than anybody's next one. */
  ghost predicate WebsterAt(w: seq<nat>, t: nat)
    requires |w| > 0
  {
    forall i, j :: 0 <= i < |w| && 0 <= j < |w| && Served(w, t, i) > 0 ==>
      (2 * Served(w, t, i) - 1) * w[j] <= (2 * Served(w, t, j) + 1) * w[i]
  }

  ghost predicate AlwaysWebster(w: seq<nat>)
    requires |w| > 0
  {
    forall t: nat :: WebsterAt(w, t)
  }

  // ---------------------------------------------------------------- one and two backends

  lemma OnlyEntry(s: seq<int>)
    requires |s| == 1
    ensures Sum(s) == s[0]
  {
    assert s[..0] == [];
  }

  lemma SumOfTwo(s: seq<int>)
    requires |s| == 2
    ensures Sum(s) == s[0] + s[1]
  {
    OnlyEntry(s[..1]);
  }

  lemma SumOfThree(s: seq<int>)
    requires |s| == 3
    ensures Sum(s) == s[0] + s[1] + s[2]
  {
    SumOfTwo(s[..2]);
  }

  lemma HarmonicUpToTwo(n: nat)
    requires 1 <= n <= 2
    ensures Harmonic(n) <= 1.5
  {
    assert Harmonic(1) == 1.0;
    assert Harmonic(2) == 1.5;
  }

  lemma HalfOf(total: real, gap: real, d: real)
    requires total >= 0.0 && gap <= 0.5 && d <= total * gap
    ensures 2.0 * d <= total
  {
    assert total * (0.5 - gap) >= 0.0;
  }

  /** With at most two backends nobody strays by more than half a pick. */
  lemma WithinHalf(w: seq<nat>, t: nat, i: nat)
    requires Positive(w) && |w| <= 2 && i < |w|
    ensures -Sum(w) <= 2 * Deficits(w, t)[i] <= Sum(w)
  {
    hide Sum, Deficits, Harmonic, Served;
    forall k | 0 <= k < |w| ensures 2 * Deficits(w, t)[k] <= Sum(w) {
      BehindAtMostHarmonic(w, t, k);
      HarmonicUpToTwo(|w|);
      HalfOf(Sum(w) as real, Harmonic(|w|) - 1.0, Deficits(w, t)[k] as real);
    }
    DeficitsSumToZero(w, t);
    if |w| == 2 {
      SumOfTwo(Deficits(w, t));
    } else {
      OnlyEntry(Deficits(w, t));
    }
  }

  lemma QuotientsOfTwo(t: int, wi: int, wj: int, si: int, sj: int, di: int)
    requires di == t * wi - (wi + wj) * si && -di == t * wj - (wi + wj) * sj
    requires wi + wj > 0 && -(wi + wj) <= 2 * di
    ensures (2 * si - 1) * wj <= (2 * sj + 1) * wi
  {
    var total := wi + wj;
    assert t * wi + t * wj == t * total;
    assert total * (t - si - sj) == 0;
    ZeroProduct(total, t - si - sj);
    assert si * wj - sj * wi == si * total - t * wi by {
      assert si * total == si * wi + si * wj;
      assert t * wi == si * wi + sj * wi;
    }
    assert (2 * si - 1) * wj == 2 * (si * wj) - wj;
    assert (2 * sj + 1) * wi == 2 * (sj * wi) + wi;
  }

  lemma TwoAreWebster(w: seq<nat>, t: nat)
    requires Positive(w) && |w| <= 2
    ensures WebsterAt(w, t)
  {
    hide Deficits, Served, Sum;
    forall i, j | 0 <= i < |w| && 0 <= j < |w| && Served(w, t, i) > 0
      ensures (2 * Served(w, t, i) - 1) * w[j] <= (2 * Served(w, t, j) + 1) * w[i]
    {
      if i == j {
        SameQuotient(Served(w, t, i), w[i]);
      } else {
        DeficitIsShortfall(w, t, i);
        DeficitIsShortfall(w, t, j);
        WithinHalf(w, t, i);
        DeficitsSumToZero(w, t);
        SumOfTwo(Deficits(w, t));
        SumOfTwo(w);
        QuotientsOfTwo(t, w[i], w[j], Served(w, t, i), Served(w, t, j), Deficits(w, t)[i]);
      }
    }
  }

  lemma SameQuotient(s: nat, x: nat)
    ensures (2 * s - 1) * x <= (2 * s + 1) * x
  {
  }

  function Abs(x: int): nat {
    if x < 0 then -x else x
  }

  /** And no other count at that time would be nearer to the ideal one. */
  lemma TwoAreNearest(w: seq<nat>, t: nat, i: nat, c: nat)
    requires Positive(w) && |w| <= 2 && i < |w|
    ensures Abs(Deficits(w, t)[i]) <= Abs(t * w[i] - Sum(w) * c)
  {
    hide Deficits, Served, Sum;
    WithinHalf(w, t, i);
    DeficitIsShortfall(w, t, i);
    var s := Served(w, t, i);
    assert Sum(w) * s - Sum(w) * c == Sum(w) * (s - c);
    if s > c { Arithmetic.MulMonotone(Sum(w), 1, s - c); }
    if s < c { Arithmetic.MulMonotone(Sum(w), s - c, -1); }
  }

  // ---------------------------------------------------------------- three are too many

  /** Weight-one backends before one of weight n + 1. */
  function OnesAndOne(n: nat): (w: seq<nat>)
    requires n > 0
    ensures |w| == n && w[n - 1] == n + 1 && forall i :: 0 <= i < n - 1 ==> w[i] == 1
  {
    seq(n - 1, _ => 1) + [n + 1]
  }

  lemma OnesAndOneTotal(n: nat)
    requires n > 0
    ensures Sum(OnesAndOne(n)) == 2 * n
  {
    var w := OnesAndOne(n);
    SumThenOnes(w[..n - 1], 0);
    assert w[..n - 1][..0] == [];
  }

  lemma StepOf(w: seq<nat>, t: nat, u: nat, i: nat)
    requires i < |w| && u == t + 1
    ensures Deficits(w, u)[i] == Deficits(w, t)[i] + w[i] - if i == PickAt(w, t) then Sum(w) else 0
    ensures Served(w, u, i) == Served(w, t, i) + if i == PickAt(w, t) then 1 else 0
  {
    hide Sum, Deficits, Served, PickAt;
    Step(w, t);
  }

  /** The heavy backend first, then by the tie the first of the others, which is too early. */
  lemma BreaksAfterTwo(n: nat)
    requires n >= 3
    ensures !AlwaysWebster(OnesAndOne(n))
  {
    hide Deficits, Served, Sum, PickAt, OnesAndOne;
    var w, big, u: nat, t: nat := OnesAndOne(n), n - 1, 1, 2;
    OnesAndOneTotal(n);
    Start(w);
    PickIsUnique(w, 0, big);
    forall i | 0 <= i < n
      ensures Served(w, u, i) == (if i == big then 1 else 0) && Deficits(w, u)[i] == if i == big then 1 - n else 1
    {
      StepOf(w, 0, u, i);
    }
    PickIsUnique(w, u, 0);
    StepOf(w, u, t, 0);
    StepOf(w, u, t, big);
    assert (2 * Served(w, t, 0) - 1) * w[big] > (2 * Served(w, t, big) + 1) * w[0];
    assert !WebsterAt(w, t);
  }

  /** The rule is Webster's method, at all times, for all weights of n backends exactly when n <= 2. */
  lemma WebsterExactlyUpToTwo(n: nat)
    requires n > 0
    ensures (forall w: seq<nat> :: |w| == n && (forall i :: 0 <= i < n ==> w[i] > 0) ==> AlwaysWebster(w)) <==> n <= 2
  {
    hide Sum, WebsterAt;
    if n <= 2 {
      forall w: seq<nat> | |w| == n && (forall i :: 0 <= i < n ==> w[i] > 0) ensures AlwaysWebster(w) {
        SumPositive(w);
        forall t: nat ensures WebsterAt(w, t) {
          TwoAreWebster(w, t);
        }
      }
    } else {
      BreaksAfterTwo(n);
      var w := OnesAndOne(n);
      assert |w| == n && forall i :: 0 <= i < n ==> w[i] > 0;
    }
  }

  // ---------------------------------------------------------------- not the smallest worst case

  const FLAT: seq<nat> := [1, 4, 4]
  const BETTER: seq<nat> := [1, 2, 1, 2, 0, 1, 2, 1, 2]

  /** The counts along that order. */
  const COUNTS: seq<seq<nat>> := [[0, 0, 0], [0, 1, 0], [0, 1, 1], [0, 2, 1], [0, 2, 2],
                                  [1, 2, 2], [1, 3, 2], [1, 3, 3], [1, 4, 3], [1, 4, 4]]

  function Count(s: seq<nat>, i: nat): nat {
    if s == [] then 0 else Count(s[1..], i) + if s[0] == i then 1 else 0
  }

  /** How far the counts in the first `t` entries of an order are from the ideal ones. */
  function Straying(w: seq<nat>, s: seq<nat>, t: nat, i: nat): int
    requires t <= |s| && i < |w|
  {
    t * w[i] - Sum(w) * Count(s[..t], i)
  }

  /** The deficits under these weights, one by one. */
  ghost predicate FlatDeficits(t: nat, x: int, y: int, z: int) {
    Deficits(FLAT, t)[0] == x && Deficits(FLAT, t)[1] == y && Deficits(FLAT, t)[2] == z
  }

  lemma FlatTotal()
    ensures Sum(FLAT) == 9
  {
    SumOfThree(FLAT);
  }

  /** One step from given deficits: `b` is the lowest index of the greatest credit. */
  lemma FlatStep(t: nat, u: nat, b: nat, x: int, y: int, z: int)
    requires FlatDeficits(t, x, y, z) && u == t + 1
    requires b == if x + 1 >= y + 4 && x + 1 >= z + 4 then 0 else if y >= z then 1 else 2
    ensures FlatDeficits(u, x + 1 - (if b == 0 then 9 else 0), y + 4 - (if b == 1 then 9 else 0), z + 4 - (if b == 2 then 9 else 0))
  {
    hide Sum, Deficits, Served, PickAt;
    FlatTotal();
    PickIsUnique(FLAT, t, b);
    StepOf(FLAT, t, u, 0);
    StepOf(FLAT, t, u, 1);
    StepOf(FLAT, t, u, 2);
  }

  lemma RuleStraysSeven()
    ensures Sum(FLAT) == 9 && Deficits(FLAT, 4)[2] == 7
  {
    FlatTotal();
    Start(FLAT);
    assert FlatDeficits(0, 0, 0, 0);
    FlatRun();
  }

  lemma FlatRun()
    requires FlatDeficits(0, 0, 0, 0)
    ensures FlatDeficits(4, -5, -2, 7)
  {
    hide FlatDeficits;
    FlatStep(0, 1, 1, 0, 0, 0);
    FlatStep(1, 2, 2, 1, -5, 4);
    FlatStep(2, 3, 0, 2, -1, -1);
    FlatStep(3, 4, 1, -6, 3, 3);
  }

  lemma CountStep(s: seq<nat>, t: nat, i: nat)
    requires t < |s|
    ensures Count(s[..0], i) == 0
    ensures Count(s[..t + 1], i) == Count(s[..t], i) + if s[t] == i then 1 else 0
  {
    CountConcat(s[..t], [s[t]], i);
    assert s[..t + 1] == s[..t] + [s[t]];
    assert [s[t]][1..] == [];
  }

  lemma {:induction false} CountConcat(a: seq<nat>, b: seq<nat>, i: nat)
    ensures Count(a + b, i) == Count(a, i) + Count(b, i)
  {
    if a == [] {
      assert a + b == b;
    } else {
      CountConcat(a[1..], b, i);
      assert (a + b)[1..] == a[1..] + b;
    }
  }

  lemma {:induction false} CountsAlong(t: nat, i: nat)
    requires t <= 9 && i < 3
    ensures |COUNTS| == 10 && |COUNTS[t]| == 3 && Count(BETTER[..t], i) == COUNTS[t][i]
  {
    hide Count;
    if t == 0 {
      CountStep(BETTER, 0, i);
    } else {
      var u := t - 1;
      CountsAlong(u, i);
      CountStep(BETTER, u, i);
      CountsStep(u, i);
    }
  }

  lemma CountsStep(u: nat, i: nat)
    requires u < 9 && i < 3
    ensures COUNTS[u + 1][i] == COUNTS[u][i] + if BETTER[u] == i then 1 else 0
    ensures |COUNTS[u]| == |COUNTS[u + 1]| == 3
  {
    assert u in {0, 1, 2, 3, 4, 5, 6, 7, 8};
  }

  lemma SmallStraying(t: nat, i: nat)
    requires t <= 9 && i < 3
    ensures |COUNTS[t]| == 3 && -6 <= t * FLAT[i] - 9 * COUNTS[t][i] <= 6
  {
    assert t in {0, 1, 2, 3, 4, 5, 6, 7, 8, 9};
    assert i in {0, 1, 2};
  }

  /** The rule does not keep the worst case smallest: for weights 1, 4, 4 it strays by 7/9 of a pick,
      where another order of the same picks never strays by more than 6/9. */
  lemma NotTheSmallestWorstCase()
    ensures Sum(FLAT) == 9 && Deficits(FLAT, 4)[2] == 7
    ensures forall t, i :: 0 <= t <= |BETTER| && 0 <= i < 3 ==> -6 <= Straying(FLAT, BETTER, t, i) <= 6
    ensures forall i :: 0 <= i < 3 ==> Count(BETTER, i) == FLAT[i]
  {
    hide Count, Sum, Deficits;
    RuleStraysSeven();
    forall t, i | 0 <= t <= |BETTER| && 0 <= i < 3 ensures -6 <= Straying(FLAT, BETTER, t, i) <= 6 {
      CountsAlong(t, i);
      SmallStraying(t, i);
    }
    forall i | 0 <= i < 3 ensures Count(BETTER, i) == FLAT[i] {
      CountsAlong(9, i);
      assert BETTER[..9] == BETTER;
    }
  }
}
