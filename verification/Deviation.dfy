/** How far behind its ideal share the apportionment rule may leave a backend. */
module Deviation {
  import Arithmetic
  import opened Apportionment

  function Harmonic(n: nat): real {
    if n == 0 then 0.0 else Harmonic(n - 1) + 1.0 / n as real
  }

  /** The sum of the entries of `d` selected by `m`. */
  function Selected(d: seq<int>, m: seq<bool>): int
    requires |d| == |m|
  {
    if d == [] then 0
    else
      var n := |d| - 1;
      Selected(d[..n], m[..n]) + if m[n] then d[n] else 0
  }

  function Ones(m: seq<bool>): (k: nat)
    ensures k <= |m|
  {
    if m == [] then 0
    else
      var n := |m| - 1;
      Ones(m[..n]) + if m[n] then 1 else 0
  }

  lemma {:induction false} SelectMore(d: seq<int>, m: seq<bool>, b: nat)
    requires |d| == |m| && b < |m| && !m[b]
    ensures Selected(d, m[b := true]) == Selected(d, m) + d[b]
    ensures Ones(m[b := true]) == Ones(m) + 1
  {
    var n := |d| - 1;
    if b < n {
      SelectMore(d[..n], m[..n], b);
      assert m[b := true][..n] == m[..n][b := true];
    } else {
      assert m[b := true][..n] == m[..n];
    }
  }

  lemma {:induction false} SelectedUpdate(d: seq<int>, m: seq<bool>, b: nat, x: int)
    requires |d| == |m| && b < |m|
    ensures Selected(d[b := x], m) == Selected(d, m) + if m[b] then x - d[b] else 0
  {
    var n := |d| - 1;
    if b < n {
      SelectedUpdate(d[..n], m[..n], b, x);
      assert d[b := x][..n] == d[..n][b := x];
    } else {
      assert d[b := x][..n] == d[..n];
    }
  }

  lemma {:induction false} SelectedCredited(d: seq<int>, w: seq<nat>, m: seq<bool>)
    requires |d| == |m| == |w|
    ensures Selected(d, m) <= Selected(Credited(d, w), m) <= Selected(d, m) + Sum(w)
  {
    if d != [] {
      var n := |d| - 1;
      SelectedCredited(d[..n], w[..n], m[..n]);
      assert Credited(d, w)[..n] == Credited(d[..n], w[..n]);
    }
  }

  lemma {:induction false} SelectedAtMost(d: seq<int>, m: seq<bool>, x: int)
    requires |d| == |m|
    requires forall i :: 0 <= i < |d| ==> d[i] <= x
    ensures Selected(d, m) <= Ones(m) * x
  {
    if d != [] {
      var n := |d| - 1;
      SelectedAtMost(d[..n], m[..n], x);
      assert (Ones(m[..n]) + 1) * x == Ones(m[..n]) * x + x;
    }
  }

  lemma {:induction false} SelectedZero(d: seq<int>, m: seq<bool>)
    requires |d| == |m|
    requires forall i :: 0 <= i < |d| ==> d[i] == 0
    ensures Selected(d, m) == 0
  {
    if d != [] { SelectedZero(d[..|d| - 1], m[..|d| - 1]); }
  }

  lemma {:induction false} HarmonicGrows(k: nat, n: nat)
    requires k <= n
    ensures Harmonic(k) <= Harmonic(n)
    decreases n
  {
    if k < n {
      HarmonicGrows(k, n - 1);
      assert 1.0 / n as real >= 0.0;
    }
  }

  /** What the deficits selected by any `k` of the `n` backends may add up to. */
  function Allowance(total: int, n: nat, k: nat): real {
    k as real * total as real * (Harmonic(n) - Harmonic(k))
  }

  /** If `k` values are each at most the leader's, adding the leader costs them a (k+1)-th part. */
  lemma ShareWithLeader(k: real, a: real, lead: real, total: real, gap: real)
    requires k >= 1.0
    requires a <= k * lead
    requires a + lead <= (k + 1.0) * total * gap + total
    ensures a <= k * total * (gap + 1.0 / (k + 1.0))
  {
    var x := (k + 1.0) * total * gap + total;
    assert (k + 1.0) * a <= k * (a + lead);
    assert k * (a + lead) <= k * x;
    assert x == (k + 1.0) * (total * gap + total / (k + 1.0));
    assert (k + 1.0) * a <= (k + 1.0) * (k * (total * gap + total / (k + 1.0)));
    assert a <= k * (total * gap + total / (k + 1.0));
  }

  lemma AllowanceNonneg(total: int, n: nat, k: nat)
    requires total >= 0 && k <= n
    ensures Allowance(total, n, k) >= 0.0
  {
    HarmonicGrows(k, n);
    hide Harmonic;
    var kt := k as real * total as real;
    assert kt >= 0.0;
    assert kt * (Harmonic(n) - Harmonic(k)) >= 0.0;
  }

  lemma HarmonicStep(k: nat)
    ensures Harmonic(k + 1) == Harmonic(k) + 1.0 / (k as real + 1.0)
  {
  }

  lemma AllowanceStep(total: int, n: nat, k: nat, a: int, lead: int)
    requires k >= 1 && a <= k * lead
    requires (a + lead) as real <= Allowance(total, n, k + 1) + total as real
    ensures a as real <= Allowance(total, n, k)
  {
    HarmonicStep(k);
    hide Harmonic;
    assert (k * lead) as real == k as real * lead as real;
    ShareWithLeader(k as real, a as real, lead as real, total as real, Harmonic(n) - Harmonic(k + 1));
  }

  lemma AllowanceOfOne(total: int, n: nat)
    ensures Allowance(total, n, 1) == total as real * (Harmonic(n) - 1.0)
  {
    assert Harmonic(1) == 1.0;
  }

  /** One step, seen from a selection that leaves the leader `b` out. */
  lemma LeaderLeftOut(d: seq<int>, w: seq<nat>, m: seq<bool>, b: nat)
    requires |d| == |w| == |m| && b < |d| && !m[b] && Ones(m) > 0
    requires forall i :: 0 <= i < |d| ==> d[i] + w[i] <= d[b] + w[b]
    requires Ones(m) < |w|
    requires Selected(d, m[b := true]) as real <= Allowance(Sum(w), |w|, Ones(m) + 1)
    ensures Selected(Credited(d, w), m) as real <= Allowance(Sum(w), |w|, Ones(m))
  {
    hide Selected, Ones, Harmonic, Sum, Allowance;
    var e := Credited(d, w);
    SelectedAtMost(e, m, e[b]);
    SelectMore(e, m, b);
    SelectedCredited(d, w, m[b := true]);
    AllowanceStep(Sum(w), |w|, Ones(m), Selected(e, m), e[b]);
  }

  lemma {:induction false} NotAll(m: seq<bool>, b: nat)
    requires b < |m| && !m[b]
    ensures Ones(m) < |m|
  {
    if b < |m| - 1 { NotAll(m[..|m| - 1], b); }
  }

  ghost predicate WithinAllowance(d: seq<int>, total: int) {
    forall m: seq<bool> :: |m| == |d| ==> Selected(d, m) as real <= Allowance(total, |d|, Ones(m))
  }

  lemma AllowanceKept(d: seq<int>, w: seq<nat>, m: seq<bool>, b: nat)
    requires |d| == |w| == |m| && b < |d| && Positive(w)
    requires forall i :: 0 <= i < |d| ==> d[i] + w[i] <= d[b] + w[b]
    requires WithinAllowance(d, Sum(w))
    ensures var e := Credited(d, w);
            Selected(e[b := e[b] - Sum(w)], m) as real <= Allowance(Sum(w), |w|, Ones(m))
  {
    hide Selected, Ones, Harmonic, Sum, Allowance;
    var e := Credited(d, w);
    SelectedUpdate(e, m, b, e[b] - Sum(w));
    if m[b] {
      SelectedCredited(d, w, m);
    } else if Ones(m) == 0 {
      SelectedNone(e, m);
      AllowanceNonneg(Sum(w), |w|, 0);
    } else {
      NotAll(m, b);
      SelectMore(d, m, b);
      LeaderLeftOut(d, w, m, b);
    }
  }

  /** The invariant: every selection of k backends is owed at most its allowance. */
  lemma {:induction false} SelectedWithinAllowance(w: seq<nat>, t: nat)
    requires Positive(w)
    ensures WithinAllowance(Deficits(w, t), Sum(w))
  {
    hide Leader, Sum, Selected, Ones, Harmonic, Allowance, Deficits, PickAt, Credited;
    if t == 0 {
      Start(w);
      forall m: seq<bool> | |m| == |w|
        ensures Selected(Deficits(w, 0), m) as real <= Allowance(Sum(w), |w|, Ones(m))
      {
        SelectedZero(Deficits(w, 0), m);
        AllowanceNonneg(Sum(w), |w|, Ones(m));
      }
    } else {
      SelectedWithinAllowance(w, t - 1);
      Unfold(w, t - 1);
      PickIsLeader(w, t - 1);
      forall m: seq<bool> | |m| == |w|
        ensures Selected(Deficits(w, t), m) as real <= Allowance(Sum(w), |w|, Ones(m))
      {
        AllowanceKept(Deficits(w, t - 1), w, m, PickAt(w, t - 1));
      }
    }
  }

  lemma {:induction false} SelectedNone(d: seq<int>, m: seq<bool>)
    requires |d| == |m| && Ones(m) == 0
    ensures Selected(d, m) == 0
  {
    if d != [] { SelectedNone(d[..|d| - 1], m[..|d| - 1]); }
  }

  lemma {:induction false} SelectOne(d: seq<int>, m: seq<bool>, i: nat)
    requires |d| == |m| && i < |m|
    requires forall k :: 0 <= k < |m| ==> (m[k] <==> k == i)
    ensures Selected(d, m) == d[i] && Ones(m) == 1
  {
    var n := |d| - 1;
    if i < n {
      SelectOne(d[..n], m[..n], i);
    } else {
      NoneSelected(m[..n]);
      SelectedNone(d[..n], m[..n]);
    }
  }

  lemma {:induction false} NoneSelected(m: seq<bool>)
    requires forall k :: 0 <= k < |m| ==> !m[k]
    ensures Ones(m) == 0
  {
    if m != [] { NoneSelected(m[..|m| - 1]); }
  }

  /** Never behind by more than H(n) - 1 picks, whatever the number of backends. */
  lemma BehindAtMostHarmonic(w: seq<nat>, t: nat, i: nat)
    requires Positive(w) && i < |w|
    ensures Deficits(w, t)[i] as real <= Sum(w) as real * (Harmonic(|w|) - 1.0)
    ensures (t * w[i] - Sum(w) * Served(w, t, i)) as real <= Sum(w) as real * (Harmonic(|w|) - 1.0)
  {
    hide Leader, Sum, Deficits, Served, Ones, Selected, Harmonic, Allowance;
    var m := seq(|w|, k => k == i);
    SelectOne(Deficits(w, t), m, i);
    SelectedWithinAllowance(w, t);
    AllowanceOfOne(Sum(w), |w|);
    DeficitIsShortfall(w, t, i);
  }

  /** Within one pick of the ideal count, on both sides, at all times. */
  ghost predicate WithinOne(w: seq<nat>)
    requires |w| > 0
  {
    forall t: nat, i :: 0 <= i < |w| ==> -Sum(w) < Deficits(w, t)[i] < Sum(w)
  }

  lemma HarmonicUpToThree(n: nat)
    requires 1 <= n <= 3
    ensures Harmonic(n) < 2.0
  {
    assert Harmonic(1) == 1.0;
    assert Harmonic(2) == 1.5;
    assert Harmonic(3) == 1.5 + 1.0 / 3.0;
  }

  lemma BelowTotal(total: real, gap: real, d: real)
    requires total > 0.0 && gap < 1.0 && d <= total * gap
    ensures d < total
  {
  }

  lemma WithinOneUpToThree(w: seq<nat>)
    requires Positive(w) && |w| <= 3
    ensures WithinOne(w)
  {
    hide Leader, Sum, Deficits, Harmonic, Served;
    HarmonicUpToThree(|w|);
    forall t: nat, i | 0 <= i < |w| ensures -Sum(w) < Deficits(w, t)[i] < Sum(w) {
      DeficitAboveMinusTotal(w, t, i);
      BehindAtMostHarmonic(w, t, i);
      BelowTotal(Sum(w) as real, Harmonic(|w|) - 1.0, Deficits(w, t)[i] as real);
    }
  }

  // ---------------------------------------------------------------- four backends are too many

  const BASE: seq<nat> := [2, 9, 61, 61]

  /** Weights 2 : 9 : 61 : 61, scaled up, beside `m` backends of weight one. */
  function Family(m: nat): (w: seq<nat>)
    ensures |w| == m + 4
    ensures forall i :: 0 <= i < 4 ==> w[i] == Scale(m) * BASE[i]
    ensures forall i :: 4 <= i < m + 4 ==> w[i] == 1
  {
    var k := Scale(m);
    [k * 2, k * 9, k * 61, k * 61] + seq(m, _ => 1)
  }

  function Scale(m: nat): nat {
    25 * (m + 1)
  }

  lemma {:induction false} SumThenOnes(w: seq<nat>, n: nat)
    requires n <= |w| && forall i :: n <= i < |w| ==> w[i] == 1
    ensures Sum(w) == Sum(w[..n]) + |w| - n
    decreases |w|
  {
    if n == |w| {
      assert w[..n] == w;
    } else {
      SumThenOnes(w[..|w| - 1], n);
      assert w[..|w| - 1][..n] == w[..n];
    }
  }

  lemma SumOfFour(a: nat, b: nat, c: nat, d: nat)
    ensures Sum([a, b, c, d]) == a + b + c + d
  {
    assert [a][..0] == [] && Sum([a]) == a;
    assert [a, b][..1] == [a] && Sum([a, b]) == a + b;
    assert [a, b, c][..2] == [a, b] && Sum([a, b, c]) == a + b + c;
    assert [a, b, c, d][..3] == [a, b, c];
  }

  lemma FamilyTotal(m: nat)
    ensures Sum(Family(m)) == 133 * Scale(m) + m
  {
    var w := Family(m);
    SumThenOnes(w, 4);
    assert w[..4] == [w[0], w[1], w[2], w[3]];
    SumOfFour(w[0], w[1], w[2], w[3]);
  }

  ghost predicate ServedSoFar(m: nat, t: nat, c: seq<nat>) {
    && |c| == 4
    && (forall i :: 0 <= i < 4 ==> Served(Family(m), t, i) == c[i])
    && (forall i :: 4 <= i < m + 4 ==> Served(Family(m), t, i) == 0)
  }

  /** The credit of backend `i` at step `t` among the four alone, with total 133. */
  function BaseCredit(t: nat, c: seq<nat>, i: nat): int
    requires |c| == 4 && i < 4
  {
    (t + 1) * BASE[i] - 133 * c[i]
  }

  /** With this much scale the extra backends change no strict comparison. */
  lemma ScaledOrder(m: nat, x: int, y: int, cx: nat, cy: nat)
    requires x < y && cy <= 24
    ensures Scale(m) * x - m * cx < Scale(m) * y - m * cy
  {
    hide Scale;
    ScaleBig(m);
    OrderArithmetic(Scale(m), m, x, y, cx, cy);
  }

  lemma OrderArithmetic(k: nat, m: nat, x: int, y: int, cx: nat, cy: nat)
    requires x < y && cy <= 24 && k > m * 24
    ensures k * x - m * cx < k * y - m * cy
  {
    Arithmetic.MulMonotone(k, x + 1, y);
    Arithmetic.MulMonotone(m, cy, 24);
    Arithmetic.MulMonotone(m, 0, cx);
    assert k * (x + 1) == k * x + k;
  }

  lemma ScaleBig(m: nat)
    ensures Scale(m) > m * 24
  {
  }

  lemma FamilyCredit(m: nat, t: nat, c: seq<nat>, i: nat)
    requires ServedSoFar(m, t, c) && i < 4
    ensures Deficits(Family(m), t)[i] + Family(m)[i] == Scale(m) * BaseCredit(t, c, i) - m * c[i]
  {
    hide Leader, Sum, Deficits, Served, Scale;
    DeficitIsShortfall(Family(m), t, i);
    FamilyTotal(m);
    var k, b := Scale(m), BASE[i];
    assert t * (k * b) + k * b == k * ((t + 1) * b);
    assert (133 * k + m) * c[i] == k * (133 * c[i]) + m * c[i];
  }

  lemma ExtraCredit(m: nat, t: nat, c: seq<nat>, i: nat)
    requires ServedSoFar(m, t, c) && 4 <= i < m + 4
    ensures Deficits(Family(m), t)[i] + Family(m)[i] == t + 1
  {
    hide Leader, Sum, Deficits, Scale, Family, Served;
    DeficitIsShortfall(Family(m), t, i);
    assert Sum(Family(m)) * 0 == 0 && t * 1 == t;
  }

  lemma ForcedPick(m: nat, t: nat, c: seq<nat>, b: nat, after: seq<nat>)
    requires ServedSoFar(m, t, c) && b < 4 && t < 24
    requires forall i :: 0 <= i < 4 ==> c[i] <= 24
    requires BaseCredit(t, c, b) >= 1
    requires forall i :: 0 <= i < 4 && i != b ==>
               || BaseCredit(t, c, i) < BaseCredit(t, c, b)
               || (BaseCredit(t, c, i) == BaseCredit(t, c, b) && c[i] == c[b] && b < i)
    requires after == c[b := c[b] + 1]
    ensures ServedSoFar(m, t + 1, after)
  {
    hide Leader, Sum, Deficits, Served, PickAt, BaseCredit, Family;
    var w, d := Family(m), Deficits(Family(m), t);
    FamilyCredit(m, t, c, b);
    forall i | 0 <= i < |w| && i != b
      ensures d[i] + w[i] <= d[b] + w[b] && (i < b ==> d[i] + w[i] < d[b] + w[b])
    {
      if i < 4 {
        FamilyCredit(m, t, c, i);
        if BaseCredit(t, c, i) < BaseCredit(t, c, b) {
          ScaledOrder(m, BaseCredit(t, c, i), BaseCredit(t, c, b), c[i], c[b]);
        }
      } else {
        ExtraCredit(m, t, c, i);
        LeaderBeatsExtras(m, BaseCredit(t, c, b), c[b]);
      }
    }
    PickIsUnique(w, t, b);
    Tallied(m, t, c, b, after);
  }

  lemma Tallied(m: nat, t: nat, c: seq<nat>, b: nat, after: seq<nat>)
    requires ServedSoFar(m, t, c) && b < 4 && PickAt(Family(m), t) == b
    requires after == c[b := c[b] + 1]
    ensures ServedSoFar(m, t + 1, after)
  {
    hide Served, PickAt, Deficits, Sum;
    Step(Family(m), t);
    var w, u := Family(m), t + 1;
    forall i | 4 <= i < m + 4 ensures Served(w, u, i) == 0 {
      assert Served(w, t, i) == 0;
    }
  }

  lemma LeaderBeatsExtras(m: nat, x: int, c: nat)
    requires x >= 1 && c <= 24
    ensures Scale(m) * x - m * c > 24
  {
    assert Scale(m) * x >= Scale(m);
    assert m * c <= m * 24;
  }

  lemma Picks0To6(m: nat)
    requires ServedSoFar(m, 0, [0, 0, 0, 0])
    ensures ServedSoFar(m, 6, [0, 1, 3, 2])
  {
    hide ServedSoFar;
    ForcedPick(m, 0, [0, 0, 0, 0], 2, [0, 0, 1, 0]);
    ForcedPick(m, 1, [0, 0, 1, 0], 3, [0, 0, 1, 1]);
    ForcedPick(m, 2, [0, 0, 1, 1], 2, [0, 0, 2, 1]);
    ForcedPick(m, 3, [0, 0, 2, 1], 3, [0, 0, 2, 2]);
    ForcedPick(m, 4, [0, 0, 2, 2], 1, [0, 1, 2, 2]);
    ForcedPick(m, 5, [0, 1, 2, 2], 2, [0, 1, 3, 2]);
  }

  lemma Picks6To12(m: nat)
    requires ServedSoFar(m, 6, [0, 1, 3, 2])
    ensures ServedSoFar(m, 12, [0, 1, 6, 5])
  {
    hide ServedSoFar;
    ForcedPick(m, 6, [0, 1, 3, 2], 3, [0, 1, 3, 3]);
    ForcedPick(m, 7, [0, 1, 3, 3], 2, [0, 1, 4, 3]);
    ForcedPick(m, 8, [0, 1, 4, 3], 3, [0, 1, 4, 4]);
    ForcedPick(m, 9, [0, 1, 4, 4], 2, [0, 1, 5, 4]);
    ForcedPick(m, 10, [0, 1, 5, 4], 3, [0, 1, 5, 5]);
    ForcedPick(m, 11, [0, 1, 5, 5], 2, [0, 1, 6, 5]);
  }

  lemma Picks12To18(m: nat)
    requires ServedSoFar(m, 12, [0, 1, 6, 5])
    ensures ServedSoFar(m, 18, [1, 1, 8, 8])
  {
    hide ServedSoFar;
    ForcedPick(m, 12, [0, 1, 6, 5], 3, [0, 1, 6, 6]);
    ForcedPick(m, 13, [0, 1, 6, 6], 2, [0, 1, 7, 6]);
    ForcedPick(m, 14, [0, 1, 7, 6], 3, [0, 1, 7, 7]);
    ForcedPick(m, 15, [0, 1, 7, 7], 2, [0, 1, 8, 7]);
    ForcedPick(m, 16, [0, 1, 8, 7], 3, [0, 1, 8, 8]);
    ForcedPick(m, 17, [0, 1, 8, 8], 0, [1, 1, 8, 8]);
  }

  lemma Picks18To24(m: nat)
    requires ServedSoFar(m, 18, [1, 1, 8, 8])
    ensures ServedSoFar(m, 24, [1, 2, 11, 10])
  {
    hide ServedSoFar;
    ForcedPick(m, 18, [1, 1, 8, 8], 2, [1, 1, 9, 8]);
    ForcedPick(m, 19, [1, 1, 9, 8], 3, [1, 1, 9, 9]);
    ForcedPick(m, 20, [1, 1, 9, 9], 2, [1, 1, 10, 9]);
    ForcedPick(m, 21, [1, 1, 10, 9], 3, [1, 1, 10, 10]);
    ForcedPick(m, 22, [1, 1, 10, 10], 1, [1, 2, 10, 10]);
    ForcedPick(m, 23, [1, 2, 10, 10], 2, [1, 2, 11, 10]);
  }

  /** After 24 picks the last of the four is behind by more than a whole pick. */
  lemma FamilyFallsBehind(m: nat)
    ensures Deficits(Family(m), 24)[3] > Sum(Family(m))
  {
    Start(Family(m));
    hide Sum, Deficits, Served, Family;
    assert ServedSoFar(m, 0, [0, 0, 0, 0]);
    hide *;
    Picks0To6(m);
    Picks6To12(m);
    Picks12To18(m);
    Picks18To24(m);
    FinalShortfall(m);
  }

  lemma FinalShortfall(m: nat)
    requires ServedSoFar(m, 24, [1, 2, 11, 10])
    ensures Deficits(Family(m), 24)[3] > Sum(Family(m))
  {
    hide Leader, Sum, Deficits, Served, PickAt;
    DeficitIsShortfall(Family(m), 24, 3);
    FamilyTotal(m);
  }

  /** For the bare rule, with no limit on the size of the table, the claimed bound of one pick holds for
      all weights of n backends exactly when n <= 3. */
  lemma WithinOneExactlyUpToThree(n: nat)
    requires n > 0
    ensures (forall w: seq<nat> :: |w| == n && (forall i :: 0 <= i < n ==> w[i] > 0) ==> WithinOne(w)) <==> n <= 3
  {
    hide Leader, Sum, Deficits, Harmonic;
    if n <= 3 {
      forall w: seq<nat> | |w| == n && (forall i :: 0 <= i < n ==> w[i] > 0) ensures WithinOne(w) {
        SumPositive(w);
        WithinOneUpToThree(w);
      }
    } else {
      FamilyFallsBehind(n - 4);
      var w, t: nat := Family(n - 4), 24;
      assert !(Deficits(w, t)[3] < Sum(w));
      assert !WithinOne(w);
    }
  }
}
