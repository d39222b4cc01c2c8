/** Splits in which nearly every backend has weight one.  There the apportionment rule keeps everybody
    within one pick, however many backends there are. */
module Crowded {
  import Arithmetic
  import opened Apportionment
  import opened Deviation

  ghost predicate AllLive(w: seq<nat>) {
    |w| > 0 && forall i :: 0 <= i < |w| ==> w[i] > 0
  }

  /** What each weight has above one. */
  function Slopes(w: seq<nat>): (s: seq<nat>)
    requires forall i :: 0 <= i < |w| ==> w[i] > 0
    ensures |s| == |w|
    ensures forall i :: 0 <= i < |w| ==> s[i] == Slope(w, i)
  {
    seq(|w|, i requires 0 <= i < |w| => w[i] - 1)
  }

  function Slope(w: seq<nat>, i: nat): int
    requires i < |w|
  {
    var weight: int := w[i];
    weight - 1
  }

  function Excess(w: seq<nat>): int {
    Sum(w) - |w|
  }

  lemma {:induction false} SlopesAddUp(w: seq<nat>)
    requires forall i :: 0 <= i < |w| ==> w[i] > 0
    ensures Sum(Slopes(w)) == Excess(w) >= 0
  {
    if w != [] {
      var n := |w| - 1;
      SlopesAddUp(w[..n]);
      assert Slopes(w)[..n] == Slopes(w[..n]);
    }
  }

  /** How far the deficit of a backend is above that of a backend of weight one never served. */
  ghost function Over(w: seq<nat>, t: nat, i: nat): int
    requires i < |w|
  {
    Deficits(w, t)[i] - t
  }

  lemma OverStep(w: seq<nat>, t: nat, i: nat)
    requires i < |w|
    ensures Over(w, t + 1, i) == Over(w, t, i) + Slope(w, i) - if i == PickAt(w, t) then Sum(w) else 0
    ensures var b := PickAt(w, t); Over(w, t, i) + w[i] <= Over(w, t, b) + w[b]
  {
    hide Sum, Deficits, PickAt;
    Step(w, t);
    PickIsLeader(w, t);
  }

  lemma OverIs(w: seq<nat>, t: nat, i: nat)
    requires i < |w|
    ensures Over(w, t, i) == t * Slope(w, i) - Sum(w) * Served(w, t, i)
  {
    hide Sum, Deficits, Served;
    DeficitIsShortfall(w, t, i);
    assert t * w[i] - t == t * Slope(w, i);
  }

  lemma OneIsNeverOver(w: seq<nat>, t: nat, i: nat)
    requires i < |w| && w[i] == 1
    ensures Over(w, t, i) <= 0
  {
    hide Sum, Over, Served;
    OverIs(w, t, i);
    SumNonneg(w);
    Arithmetic.MulMonotone(Sum(w), 0, Served(w, t, i));
  }

  lemma {:induction false} Drift(w: seq<nat>, i: nat, m: nat, t: nat)
    requires i < |w| && m <= t
    requires forall k :: m <= k < t ==> PickAt(w, k) != i
    ensures Over(w, t, i) == Over(w, m, i) + (t - m) * Slope(w, i)
    decreases t
  {
    hide Sum, Over, PickAt;
    if m < t {
      Drift(w, i, m, t - 1);
      OverStep(w, t - 1, i);
      assert (t - 1 - m) * Slope(w, i) + Slope(w, i) == (t - m) * Slope(w, i);
    }
  }

  /** One served in step `m`, and not again before `t`. */
  lemma DriftAfterPick(w: seq<nat>, i: nat, m: nat, t: nat)
    requires i < |w| && m < t && PickAt(w, m) == i
    requires forall k :: m < k < t ==> PickAt(w, k) != i
    ensures Over(w, t, i) == Over(w, m, i) + (t - m) * Slope(w, i) - Sum(w)
  {
    hide Sum, Over, PickAt;
    OverStep(w, m, i);
    Drift(w, i, m + 1, t);
    assert (t - (m + 1)) * Slope(w, i) + Slope(w, i) == (t - m) * Slope(w, i);
  }

  // ---------------------------------------------------------------- who was served meanwhile

  /** The backend `i` and every backend served in the steps from `m` up to `t`. */
  ghost function Mask(w: seq<nat>, i: nat, m: nat, t: nat): (r: seq<bool>)
    requires i < |w| && m <= t
    ensures |r| == |w| && r[i]
    decreases t - m
  {
    if m == t then seq(|w|, k => k == i) else Mask(w, i, m + 1, t)[PickAt(w, m) := true]
  }

  /** The slopes of those backends together. */
  ghost function Cost(w: seq<nat>, i: nat, m: nat, t: nat): int
    requires AllLive(w) && i < |w| && m <= t
  {
    Selected(Slopes(w), Mask(w, i, m, t))
  }

  lemma {:induction false} SelectedBounds(d: seq<nat>, m: seq<bool>)
    requires |d| == |m|
    ensures 0 <= Selected(d, m) <= Sum(d)
    ensures forall j :: 0 <= j < |d| && m[j] ==> d[j] <= Selected(d, m)
  {
    if d != [] {
      var n := |d| - 1;
      SelectedBounds(d[..n], m[..n]);
    }
  }

  lemma {:induction false} TwoSelected(d: seq<nat>, m: seq<bool>, i: nat, j: nat)
    requires |d| == |m| && i < j < |d| && m[i] && m[j]
    ensures d[i] + d[j] <= Selected(d, m)
  {
    var n := |d| - 1;
    SelectedBounds(d[..n], m[..n]);
    if j < n {
      TwoSelected(d[..n], m[..n], i, j);
    } else {
      assert m[..n][i];
    }
  }

  lemma CostBounds(w: seq<nat>, i: nat, m: nat, t: nat, j: nat)
    requires AllLive(w) && i < |w| && m <= t && j < |w| && Mask(w, i, m, t)[j]
    ensures Cost(w, i, m, t) <= Excess(w)
    ensures Slope(w, j) + (if i == j then 0 else Slope(w, i)) <= Cost(w, i, m, t)
  {
    hide Selected, Sum, Mask;
    SlopesAddUp(w);
    SelectedBounds(Slopes(w), Mask(w, i, m, t));
    if i < j { TwoSelected(Slopes(w), Mask(w, i, m, t), i, j); }
    if j < i { TwoSelected(Slopes(w), Mask(w, i, m, t), j, i); }
  }

  lemma {:induction false} OnlyOne(w: seq<nat>, i: nat, t: nat)
    requires AllLive(w) && i < |w|
    ensures Cost(w, i, t, t) == Slope(w, i)
  {
    hide Selected;
    SelectOne(Slopes(w), Mask(w, i, t, t), i);
  }

  lemma CostGrows(w: seq<nat>, i: nat, m: nat, t: nat)
    requires AllLive(w) && i < |w| && m < t && !Mask(w, i, m + 1, t)[PickAt(w, m)]
    ensures Cost(w, i, m, t) == Cost(w, i, m + 1, t) + Slope(w, PickAt(w, m))
  {
    hide Selected, PickAt;
    SelectMore(Slopes(w), Mask(w, i, m + 1, t), PickAt(w, m));
  }

  lemma {:induction false} InMask(w: seq<nat>, i: nat, m: nat, t: nat, j: nat)
    requires i < |w| && m <= t && j < |w|
    ensures Mask(w, i, m, t)[j] <==> j == i || exists k :: m <= k < t && PickAt(w, k) == j
    decreases t - m
  {
    hide PickAt;
    if m < t { InMask(w, i, m + 1, t, j); }
  }

  // ---------------------------------------------------------------- the chain of leaders

  /** From step `m` on, up to `t`, only new backends of weight above one were served, and each bounds
      how far `i` can be over at `t`. */
  ghost predicate Chain(w: seq<nat>, i: nat, m: nat, t: nat)
    requires AllLive(w) && i < |w| && m <= t
  {
    forall k :: m <= k < t ==> Linked(w, i, k, t)
  }

  ghost predicate Linked(w: seq<nat>, i: nat, k: nat, t: nat)
    requires AllLive(w) && i < |w| && k < t
  {
    var n := k + 1;
    && !Mask(w, i, n, t)[PickAt(w, k)]
    && w[PickAt(w, k)] > 1
    && Over(w, t, i) <= Over(w, k, PickAt(w, k)) + Cost(w, i, k, t) - Slope(w, i)
  }

  ghost predicate Capped(w: seq<nat>, t: nat) {
    forall i :: 0 <= i < |w| ==> Over(w, t, i) <= Excess(w) - Slope(w, i)
  }

  /** The excess is small beside the number of backends. */
  ghost predicate Roomy(w: seq<nat>) {
    AllLive(w) && (Excess(w) + 1) * (Excess(w) + 1) <= 4 * Sum(w)
  }

  lemma {:induction false} CostFrom(w: seq<nat>, i: nat, m: nat, k: nat, t: nat)
    requires AllLive(w) && i < |w| && m <= k <= t && Chain(w, i, m, t)
    ensures Cost(w, i, m, t) >= Cost(w, i, k, t) + (k - m)
    decreases k - m
  {
    hide Cost, Mask, PickAt, Over;
    if m < k {
      var n := m + 1;
      CostFrom(w, i, n, k, t);
      assert Linked(w, i, m, t);
      CostGrows(w, i, m, t);
    }
  }

  lemma NotBefore(w: seq<nat>, i: nat, m: nat, k: nat, t: nat)
    requires AllLive(w) && i < |w| && m <= k < t && Chain(w, i, m, t)
    ensures PickAt(w, k) != i
    ensures forall l :: m <= l < k ==> PickAt(w, l) != PickAt(w, k)
  {
    hide Cost, Mask, PickAt, Over;
    assert Linked(w, i, k, t);
    forall l | m <= l < k ensures PickAt(w, l) != PickAt(w, k) {
      assert Linked(w, i, l, t);
      var n := l + 1;
      InMask(w, i, n, t, PickAt(w, k));
    }
  }

  lemma SquareNonneg(x: int)
    ensures x * x >= 0
  {
  }

  lemma SumAndDifference(a: int, b: int)
    ensures (a + b) * (a + b) == (a - b) * (a - b) + 4 * (a * b)
  {
  }

  lemma ProductBelowSquare(a: int, b: int, c: int)
    requires 0 <= a && 0 <= b && a + b <= c
    ensures 4 * (a * b) <= c * c
  {
    SumAndDifference(a, b);
    SquareNonneg(a - b);
    Arithmetic.SquareMonotone(a + b, c);
  }

  /** The backend served before the chain started: what its credit says about `i`. */
  lemma LeaderBefore(w: seq<nat>, i: nat, m: nat, t: nat)
    requires AllLive(w) && i < |w| && 0 < m <= t && Chain(w, i, m, t)
    requires PickAt(w, m - 1) != i
    requires m < t ==> PickAt(w, m - 1) != PickAt(w, m)
    ensures var b := PickAt(w, m - 1);
            Over(w, t, i) <= Over(w, m - 1, b) + Slope(w, b) + Cost(w, i, m, t) - Slope(w, i)
  {
    hide Cost, Mask, PickAt, Over;
    if m == t {
      OverStep(w, m - 1, i);
      OnlyOne(w, i, t);
    } else {
      assert Linked(w, i, m, t);
      OverStep(w, m - 1, PickAt(w, m));
    }
  }

  /** `i` itself was served before the chain: it cannot have recovered yet. */
  lemma OwnTurnBefore(w: seq<nat>, i: nat, m: nat, t: nat)
    requires Roomy(w) && i < |w| && 0 < m <= t && Chain(w, i, m, t) && Capped(w, m - 1)
    requires PickAt(w, m - 1) == i
    ensures Over(w, t, i) <= Excess(w) - Slope(w, i)
  {
    hide Cost, Mask, PickAt, Over, Sum, Excess;
    forall k | m <= k < t ensures PickAt(w, k) != i {
      NotBefore(w, i, m, k, t);
    }
    DriftAfterPick(w, i, m - 1, t);
    CostFrom(w, i, m, t, t);
    OnlyOne(w, i, t);
    InMask(w, i, m, t, i);
    CostBounds(w, i, m, t, i);
    var x, d := Slope(w, i), t - (m - 1);
    ProductBelowSquare(d, x, Excess(w) + 1);
  }

  /** A backend of the chain was served shortly before: then it had more credit than is possible. */
  lemma RepeatedTurn(w: seq<nat>, i: nat, m: nat, k: nat, t: nat)
    requires Roomy(w) && i < |w| && 0 < m <= k < t && Chain(w, i, m, t) && Capped(w, m - 1)
    requires PickAt(w, m - 1) == PickAt(w, k)
    ensures Over(w, t, i) <= Excess(w) - Slope(w, i)
  {
    hide Cost, Mask, PickAt, Over, Sum, Excess;
    var j, n := PickAt(w, k), k + 1;
    NotBefore(w, i, m, k, t);
    DriftAfterPick(w, j, m - 1, k);
    assert Linked(w, i, k, t);
    CostFrom(w, i, m, k, t);
    CostBounds(w, i, m, t, i) by { InMask(w, i, m, t, i); }
    CostBounds(w, i, k, t, j) by { InMask(w, i, k, t, j); }
    var s, d := Slope(w, j), k - (m - 1);
    RepeatArithmetic(s, d, Excess(w), Sum(w));
  }

  lemma RepeatArithmetic(s: int, d: int, e: int, total: int)
    requires s >= 1 && d >= 1 && s + (d - 1) <= e && (e + 1) * (e + 1) <= 4 * total
    ensures e - s + d * s - total - (d - 1) <= 0
  {
    ProductBelowSquare(s - 1, d - 1, e - 1);
    assert (s - 1) * (d - 1) == d * s - s - d + 1;
    assert (e + 1) * (e + 1) == (e - 1) * (e - 1) + 4 * e;
  }

  lemma StartsAtZero(w: seq<nat>, i: nat)
    requires i < |w|
    ensures Over(w, 0, i) == 0
  {
    Start(w);
  }

  /** Follow the leaders back until a backend of weight one was served, or to the beginning. */
  lemma {:induction false} FollowBack(w: seq<nat>, i: nat, m: nat, t: nat)
    requires Roomy(w) && i < |w| && m <= t && Chain(w, i, m, t)
    requires forall u: nat :: u < t ==> Capped(w, u)
    ensures Over(w, t, i) <= Excess(w) - Slope(w, i)
    decreases m
  {
    hide Cost, Mask, PickAt, Over, Sum, Excess, Capped;
    InMask(w, i, m, t, i);
    CostBounds(w, i, m, t, i);
    if m == 0 {
      StartsAtZero(w, i);
      if t > 0 {
        assert Linked(w, i, 0, t);
        StartsAtZero(w, PickAt(w, 0));
      }
    } else {
      var b, p := PickAt(w, m - 1), m - 1;
      InMask(w, i, m, t, b);
      if b == i {
        OwnTurnBefore(w, i, m, t);
      } else if Mask(w, i, m, t)[b] {
        var k :| m <= k < t && PickAt(w, k) == b;
        RepeatedTurn(w, i, m, k, t);
      } else {
        LeaderBefore(w, i, m, t);
        if w[b] == 1 {
          OneIsNeverOver(w, p, b);
        } else {
          CostGrows(w, i, p, t);
          assert Linked(w, i, p, t);
          FollowBack(w, i, p, t);
        }
      }
    }
  }

  /** Nobody is ever further over than the others' slopes together. */
  lemma {:induction false} AlwaysCapped(w: seq<nat>, t: nat)
    requires Roomy(w)
    ensures Capped(w, t)
  {
    hide Cost, Over, Sum, Excess, Roomy;
    forall u: nat | u < t ensures Capped(w, u) {
      AlwaysCapped(w, u);
    }
    forall i | 0 <= i < |w| ensures Over(w, t, i) <= Excess(w) - Slope(w, i) {
      FollowBack(w, i, t, t);
    }
  }

  // ---------------------------------------------------------------- within one

  lemma CancelPositive(a: int, x: int, y: int)
    requires a > 0 && a * x == a * y
    ensures x == y
  {
    ZeroProduct(a, x - y);
  }

  /** What being a whole pick behind means for the excess, before the period is over. */
  lemma BehindByOne(w: seq<nat>, t: nat, i: nat)
    requires AllLive(w) && i < |w| && t < Sum(w) && Deficits(w, t)[i] >= Sum(w)
    ensures var c, a: int := Served(w, t, i), w[i];
            c <= a - 2 && a * Over(w, t, i) >= (a - 1 - c) * Sum(w)
  {
    hide Sum, Deficits, Served, Over;
    OverAndTime(w, t, i);
    OverIs(w, t, i);
    var a, c, total, over: int := w[i], Served(w, t, i), Sum(w), Over(w, t, i);
    TurnsLeft(a, t, c, total, over);
    BehindArithmetic(a, t, c, total, over);
  }

  lemma OverAndTime(w: seq<nat>, t: nat, i: nat)
    requires i < |w|
    ensures Over(w, t, i) + t == Deficits(w, t)[i]
  {
    hide Deficits;
  }

  lemma TurnsLeft(a: int, t: int, c: int, total: int, over: int)
    requires a > 0 && 0 <= t < total && over == t * (a - 1) - total * c && over + t >= total
    ensures c <= a - 2
  {
    assert t * (a - 1) == a * t - t;
    assert total * (c + 1) == total * c + total;
    assert a * (t + 1) == a * t + a;
    if c + 1 >= a {
      Arithmetic.MulMonotone(total, a, c + 1);
      Arithmetic.MulMonotone(a, t + 1, total);
    }
  }

  lemma BehindArithmetic(a: int, t: int, c: int, total: int, over: int)
    requires a > 0 && over == t * (a - 1) - total * c && over + t >= total
    ensures a * over >= (a - 1 - c) * total
  {
    var p, q := a * t, total * c;
    assert t * (a - 1) == p - t;
    Arithmetic.MulMonotone(a - 1, q + total, p);
    assert a * over == a * p - p - a * q;
    assert (a - 1) * p == a * p - p;
    assert (a - 1) * (q + total) == a * q - q + a * total - total;
    assert (a - 1 - c) * total == a * total - total - q;
  }

  /** Then the inequality is an equality: the total is a square, and everything else follows. */
  lemma TightCase(a: int, c: int, over: int, e: int, total: int)
    requires 0 <= c <= a - 2 && a * over >= (a - 1 - c) * total
    requires 0 <= over <= e - (a - 1) && (e + 1) * (e + 1) <= 4 * total && total > 0
    ensures e == 2 * a - 1 && total == a * a && over == a && c == a - 2
  {
    var k := a - 1 - c;
    Arithmetic.MulMonotone(total, 1, k);
    Arithmetic.MulMonotone(a, over, e - (a - 1));
    ProductBelowSquare(a, e - (a - 1), e + 1);
    assert a * over == total && k * total == total;
    SquareTight(a, e - (a - 1), e + 1);
    CancelPositive(total, k, 1);
    CancelPositive(a, over, a);
  }

  lemma SquareTight(a: int, b: int, c: int)
    requires a + b == c && 4 * (a * b) == c * c
    ensures a == b
  {
    assert (a - b) * (a - b) == 0;
  }

  lemma ThreeSlopes(w: seq<nat>, i: nat, j: nat, k: nat)
    requires AllLive(w) && i < |w| && j < |w| && k < |w| && i != j && j != k && i != k
    ensures Slope(w, i) + Slope(w, j) + Slope(w, k) <= Excess(w)
  {
    hide Selected, Ones, Sum;
    var d, m := Slopes(w), seq(|w|, x => x == i);
    SelectOne(d, m, i);
    SelectMore(d, m, j);
    SelectMore(d, m[j := true], k);
    SelectedBounds(d, m[j := true][k := true]);
    SlopesAddUp(w);
  }

  /** The step that serves `b` instead of `i`. */
  lemma Overtaken(w: seq<nat>, t: nat, i: nat, b: nat)
    requires Roomy(w) && i < |w| && b == PickAt(w, t)
    ensures b == i ==> Over(w, t + 1, i) <= Excess(w) - Sum(w)
    ensures b != i ==> Over(w, t + 1, i) == Over(w, t, i) + Slope(w, i) <= Over(w, t, b) + Slope(w, b) <= Excess(w)
    ensures Over(w, t, b) + Slope(w, b) == (t + 1) * Slope(w, b) - Sum(w) * Served(w, t, b)
    ensures Over(w, t + 1, b) <= Excess(w) - Sum(w)
  {
    hide Over, Sum, Excess, Served, PickAt, Roomy;
    OverStep(w, t, i);
    OverStep(w, t, b);
    AlwaysCapped(w, t);
    OverIs(w, t, b);
  }

  lemma When(a: int, t: int)
    requires a >= 2 && t * (a - 1) - a * a * (a - 2) == a
    ensures t == a * (a - 1)
  {
    assert a * a * (a - 2) + a == (a - 1) * (a * (a - 1));
    CancelPositive(a - 1, t, a * (a - 1));
  }

  lemma QuotientIsOne(a: int, z: int)
    requires a > 0 && 0 < a * z < 2 * a
    ensures z == 1
  {
    if z <= 0 { Arithmetic.MulMonotone(a, z, 0); }
    if z >= 2 { Arithmetic.MulMonotone(a, 2, z); }
  }

  lemma CommonFactor(a: int, s: int, c: int)
    ensures a * (a - 1) * s - a * a * c == a * ((a - 1) * s - a * c)
  {
    assert a * (a - 1) * s == a * ((a - 1) * s);
    assert a * a * c == a * (a * c);
  }

  /** The backend that overtakes at the end has the same weight. */
  lemma SameSlope(a: int, s: int, c: int)
    requires a >= 2 && 0 <= s <= a
    requires a <= a * (a - 1) * s - a * a * c < 2 * a
    ensures s == a - 1
  {
    var z := (a - 1) * s - a * c;
    CommonFactor(a, s, c);
    QuotientIsOne(a, z);
    assert (a - 1) * s == a * s - s;
    assert a * (s - c) == a * s - a * c;
    QuotientIsOne(a, s - c);
  }

  /** And the one before it would have to be heavier than what is left. */
  lemma NoThird(a: int, s: int, c: int)
    requires a >= 4 && s >= 0 && c >= 0
    requires 1 <= (a * (a - 1) - 1) * s - a * a * c <= 2 * a - 1
    ensures s > 1
  {
    SquareBeatsDouble(a);
    if c > 0 { Arithmetic.MulMonotone(a * a, 1, c); }
  }

  ghost predicate Tight(w: seq<nat>, t: nat, i: nat)
    requires i < |w|
  {
    var a: int := w[i];
    a >= 4 && Sum(w) == a * a && Excess(w) == 2 * a - 1 && Over(w, t, i) == a && t == a * (a - 1)
  }

  lemma TightTime(a: int, t: int, over: int, total: int, e: int, c: int, n: int)
    requires over == t * (a - 1) - total * c
    requires e == 2 * a - 1 && total == a * a && over == a && c == a - 2 && c >= 0
    requires e == total - n && n > 4
    ensures a >= 4 && t == a * (a - 1)
  {
    When(a, t);
    assert n == (a - 1) * (a - 1);
    if a < 4 { Arithmetic.MulMonotone(a - 1, a - 1, 2); }
  }

  lemma AllTight(a: int, t: int, over: int, total: int, e: int, c: int, n: int)
    requires 0 <= c <= a - 2 && a * over >= (a - 1 - c) * total && over == t * (a - 1) - total * c
    requires over <= e - (a - 1) && (e + 1) * (e + 1) <= 4 * total && total > 0 && e == total - n && n > 4
    ensures a >= 4 && total == a * a && e == 2 * a - 1 && over == a && t == a * (a - 1)
  {
    OverPositive(a, over, a - 1 - c, total);
    TightCase(a, c, over, e, total);
    TightTime(a, t, over, total, e, c, n);
  }

  lemma OverPositive(a: int, over: int, k: int, total: int)
    requires a > 0 && k > 0 && total > 0 && a * over >= k * total
    ensures over > 0
  {
    Arithmetic.MulMonotone(total, 1, k);
    if over <= 0 { Arithmetic.MulMonotone(a, over, 0); }
  }

  lemma BehindIsTight(w: seq<nat>, t: nat, i: nat)
    requires Roomy(w) && |w| > 4 && i < |w| && t < Sum(w) && Deficits(w, t)[i] >= Sum(w)
    ensures Tight(w, t, i)
  {
    hide Over, Sum, Deficits, Served, Roomy, Excess;
    UnfoldRoomy(w);
    BehindByOne(w, t, i);
    AlwaysCapped(w, t);
    OverIs(w, t, i);
    AllTight(w[i], t, Over(w, t, i), Sum(w), Excess(w), Served(w, t, i), |w|);
  }

  lemma UnfoldRoomy(w: seq<nat>)
    requires Roomy(w)
    ensures AllLive(w) && (Excess(w) + 1) * (Excess(w) + 1) <= 4 * Sum(w) && Excess(w) == Sum(w) - |w|
  {
    hide Sum;
  }

  lemma TwoSlopes(w: seq<nat>, i: nat, j: nat)
    requires AllLive(w) && i < |w| && j < |w| && i != j
    ensures Slope(w, i) + Slope(w, j) <= Excess(w)
  {
    hide Selected, Ones, Sum;
    var d, m := Slopes(w), seq(|w|, x => x == i);
    SelectOne(d, m, i);
    SelectMore(d, m, j);
    SelectedBounds(d, m[j := true]);
    SlopesAddUp(w);
  }

  lemma SquareBeatsDouble(a: int)
    requires a >= 4
    ensures a * a >= 4 * a && a * (a - 1) >= 3 * a
  {
    Arithmetic.MulMonotone(a, 4, a);
    Arithmetic.MulMonotone(a, 3, a - 1);
  }

  /** The two picks before `t` would go to two others, and no slopes are left for both. */
  lemma NeverTight(w: seq<nat>, t: nat, i: nat)
    requires Roomy(w) && i < |w|
    ensures !Tight(w, t, i)
  {
    hide Over, Sum, Served, PickAt, Roomy, Excess, Slope;
    if Tight(w, t, i) {
      SquareBeatsDouble(w[i]);
      TwoOthers(w, t, i, PickAt(w, t - 1), PickAt(w, t - 2));
    }
  }

  lemma TwoOthers(w: seq<nat>, t: nat, i: nat, j: nat, k: nat)
    requires Roomy(w) && i < |w| && t >= 2
    requires j == PickAt(w, t - 1) && k == PickAt(w, t - 2)
    ensures !Tight(w, t, i)
  {
    hide Over, Sum, Served, PickAt, Roomy, Excess, Slope, Tight, LastCredit, EarlierCredit;
    if Tight(w, t, i) {
      LastPick(w, t, i, j);
      PickBefore(w, t, i, j, k);
      UnfoldRoomy(w);
      NoneLeft(w, t, i, j, k);
      TightExcess(w, t, i);
    }
  }

  lemma TightExcess(w: seq<nat>, t: nat, i: nat)
    requires i < |w| && Tight(w, t, i)
    ensures Excess(w) < 2 * w[i]
  {
  }

  /** The credit of the backend that is served in the last step before `t`, at that step. */
  predicate LastCredit(a: int, s: int, c: int) {
    a <= a * (a - 1) * s - a * a * c <= 2 * a - 1
  }

  /** And in the step before that one. */
  predicate EarlierCredit(a: int, s: int, c: int) {
    1 <= (a * (a - 1) - 1) * s - a * a * c <= 2 * a - 1
  }

  lemma LastPick(w: seq<nat>, t: nat, i: nat, j: nat)
    requires Roomy(w) && i < |w| && t >= 2 && j == PickAt(w, t - 1) && Tight(w, t, i)
    ensures j != i && Over(w, t - 1, i) == 1 && Over(w, t - 1, j) + Slope(w, j) >= w[i] >= 4
    ensures LastCredit(w[i], Slope(w, j), Served(w, t - 1, j))
  {
    hide Over, Sum, Served, PickAt, Roomy, Excess;
    SquareBeatsDouble(w[i]);
    Overtaken(w, t - 1, i, j);
  }

  lemma PickBefore(w: seq<nat>, t: nat, i: nat, j: nat, k: nat)
    requires Roomy(w) && i < |w| && j < |w| && i != j
    requires t >= 2 && k == PickAt(w, t - 2) && Tight(w, t, i)
    requires Over(w, t - 1, i) == 1 && Over(w, t - 1, j) + Slope(w, j) >= w[i]
    ensures k != i && k != j
    ensures EarlierCredit(w[i], Slope(w, k), Served(w, t - 2, k))
  {
    hide Over, Sum, Served, PickAt, Roomy, Excess;
    SquareBeatsDouble(w[i]);
    UnfoldRoomy(w);
    TwoSlopes(w, i, j);
    Overtaken(w, t - 2, i, k);
  }

  lemma NoneLeft(w: seq<nat>, t: nat, i: nat, j: nat, k: nat)
    requires AllLive(w) && i < |w| && j < |w| && k < |w| && i != j && i != k && j != k
    requires t >= 2 && w[i] >= 4
    requires LastCredit(w[i], Slope(w, j), Served(w, t - 1, j))
    requires EarlierCredit(w[i], Slope(w, k), Served(w, t - 2, k))
    ensures Excess(w) >= 2 * w[i]
  {
    hide Sum, Served, PickAt, Excess, LastCredit, EarlierCredit;
    ThreeSlopes(w, i, j, k);
    LastTwo(w[i], Slope(w, j), Slope(w, k), Served(w, t - 1, j), Served(w, t - 2, k));
  }

  lemma LastTwo(a: int, sj: int, sk: int, cj: int, ck: int)
    requires a >= 4 && sj >= 0 && sk >= 0 && ck >= 0
    requires LastCredit(a, sj, cj) && EarlierCredit(a, sk, ck)
    ensures sj + sk > a
  {
    if sj + sk <= a {
      SameSlope(a, sj, cj);
      NoThird(a, sk, ck);
    }
  }

  lemma NotBehindInPeriod(w: seq<nat>, t: nat, i: nat)
    requires Roomy(w) && |w| > 4 && i < |w| && t < Sum(w)
    ensures Deficits(w, t)[i] < Sum(w)
  {
    hide Over, Sum, Deficits, Served, PickAt, Roomy, Excess;
    if Deficits(w, t)[i] >= Sum(w) {
      BehindIsTight(w, t, i);
      NeverTight(w, t, i);
    }
  }

  lemma {:induction false} NotBehind(w: seq<nat>, t: nat, i: nat)
    requires Roomy(w) && Positive(w) && |w| > 4 && i < |w|
    ensures Deficits(w, t)[i] < Sum(w)
    decreases t
  {
    hide Sum, Deficits, Roomy;
    if t < Sum(w) {
      NotBehindInPeriod(w, t, i);
    } else {
      NotBehind(w, t - Sum(w), i);
      Periodic(w, t - Sum(w));
    }
  }

  /** With n > 4 backends and a total of n + e, everybody stays within one pick if (e - 1)^2 <= 4n. */
  lemma CrowdedWithinOne(w: seq<nat>)
    requires AllLive(w) && |w| > 4 && (Excess(w) - 1) * (Excess(w) - 1) <= 4 * |w|
    ensures WithinOne(w)
  {
    hide Sum, Deficits;
    SumPositive(w);
    var e := Excess(w);
    assert (e + 1) * (e + 1) == (e - 1) * (e - 1) + 4 * e;
    forall t: nat, i | 0 <= i < |w| ensures -Sum(w) < Deficits(w, t)[i] < Sum(w) {
      DeficitAboveMinusTotal(w, t, i);
      NotBehind(w, t, i);
    }
  }
}
