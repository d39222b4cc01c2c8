/** For how many backends the bound of one pick holds, among the splits that validation accepts. */
module SplitDeviation {
  import Arithmetic
  import opened Apportionment
  import opened Deviation
  import opened WeightedSplit
  import opened Crowded

  // ---------------------------------------------------------------- two heavy backends in a crowd

  /** Ones, one backend of weight `y`, and two of weight `e + 1`, with a total of `e` squared. */
  ghost predicate Pair(w: seq<nat>, e: nat) {
    && e > 1 && |w| >= 3 * e && AllLive(w) && Sum(w) == e * e
    && (forall i :: 0 <= i < |w| - 3 ==> w[i] == 1)
    && w[|w| - 2] == w[|w| - 1] == e + 1
  }

  function PairOf(e: nat, n: nat): (w: seq<nat>)
    requires 1 < e && 3 * e <= n <= e * (e - 2)
    ensures |w| == n
  {
    seq(n - 3, _ => 1) + [e * (e - 2) + 1 - n, e + 1, e + 1]
  }

  lemma SumLast(s: seq<int>, n: nat)
    requires n < |s|
    ensures Sum(s[..n + 1]) == Sum(s[..n]) + s[n]
  {
    assert s[..n + 1][..n] == s[..n];
  }

  lemma SumOfLastThree(s: seq<int>)
    requires |s| >= 3
    ensures var m := |s| - 3; Sum(s) == Sum(s[..m]) + s[m] + s[m + 1] + s[m + 2]
  {
    hide Sum;
    var m := |s| - 3;
    SumLast(s, m);
    SumLast(s, m + 1);
    SumLast(s, m + 2);
    assert s[..m + 3] == s;
  }

  lemma PairIsPair(e: nat, n: nat)
    requires 1 < e && 3 * e <= n <= e * (e - 2)
    ensures Pair(PairOf(e, n), e)
  {
    var w := PairOf(e, n);
    SumOfLastThree(w);
    SumThenOnes(w[..n - 3], 0);
    assert w[..n - 3][..0] == [];
    assert e * (e - 2) == e * e - 2 * e;
  }

  ghost predicate OnesServed(w: seq<nat>, t: nat)
    requires |w| > 3
  {
    forall i :: 0 <= i < |w| - 3 ==> Served(w, t, i) > 0
  }

  /** The credit of a backend of weight one that is being served for the first time bounds all. */
  lemma LastOne(w: seq<nat>, t: nat, u: nat, i: nat)
    requires Positive(w) && i < |w| && w[i] == 1 && u == t + 1
    requires Served(w, t, i) == 0 && PickAt(w, t) == i
    ensures forall j :: 0 <= j < |w| ==> Deficits(w, u)[j] <= u
  {
    hide Sum, Deficits, Served, PickAt;
    DeficitIsShortfall(w, t, i);
    PickIsLeader(w, t);
    Step(w, t);
    assert t * w[i] == t && Sum(w) * Served(w, t, i) == 0;
    forall j | 0 <= j < |w| ensures Deficits(w, u)[j] <= u {
      assert Deficits(w, t)[j] + w[j] <= Deficits(w, t)[i] + w[i];
    }
  }

  /** When the ones have all had a turn, the period is almost over. */
  lemma {:induction false} OnesTakeLong(w: seq<nat>, t: nat)
    requires Positive(w) && |w| > 3 && (forall i :: 0 <= i < |w| - 3 ==> w[i] == 1)
    requires OnesServed(w, t)
    ensures t * |w| >= (|w| - 3) * Sum(w)
  {
    hide Sum, Deficits, Served, PickAt;
    if t == 0 {
      Start(w);
      assert Served(w, 0, 0) > 0;
    } else if OnesServed(w, t - 1) {
      OnesTakeLong(w, t - 1);
      assert t * |w| == (t - 1) * |w| + |w|;
    } else {
      var u := t - 1;
      var i :| 0 <= i < |w| - 3 && Served(w, u, i) == 0;
      assert Served(w, t, i) > 0;
      Step(w, u);
      LastOne(w, u, t, i);
      OnesTookLong(w, t);
    }
  }

  lemma OnesTookLong(w: seq<nat>, t: nat)
    requires Positive(w) && |w| > 3 && (forall i :: 0 <= i < |w| - 3 ==> w[i] == 1)
    requires OnesServed(w, t) && forall j :: 0 <= j < |w| ==> Deficits(w, t)[j] <= t
    ensures t * |w| >= (|w| - 3) * Sum(w)
  {
    hide Sum, Deficits, Served;
    var m, d := |w| - 3, Deficits(w, t);
    forall i | 0 <= i < m ensures d[..m][i] <= t - Sum(w) {
      DeficitIsShortfall(w, t, i);
      Arithmetic.MulMonotone(Sum(w), 1, Served(w, t, i));
      assert t * w[i] == t;
    }
    SumAtMost(d[..m], t - Sum(w));
    DeficitsSumToZero(w, t);
    SumOfLastThree(d);
    assert m * (t - Sum(w)) == m * t - m * Sum(w);
    assert t * |w| == m * t + 3 * t;
  }

  lemma TooEarly(t: int, n: int, e: int)
    requires n >= 3 * e && e > 1 && t < (e - 1) * e
    ensures t * n < (n - 3) * (e * e)
  {
    Arithmetic.MulMonotone(n, t + 1, (e - 1) * e);
    Arithmetic.MulMonotone(e, 3 * e, n);
    assert n * (t + 1) == t * n + n;
    assert n * ((e - 1) * e) == n * (e * e) - e * n;
    assert (n - 3) * (e * e) == n * (e * e) - 3 * (e * e);
    assert e * (3 * e) == 3 * (e * e);
  }

  /** Until step (e - 1)e neither heavy backend gets its e-th turn: a one is preferred. */
  lemma {:induction false} HeavyWaits(w: seq<nat>, e: nat, t: nat, a: nat)
    requires Pair(w, e) && Positive(w) && |w| - 2 <= a < |w| && t <= (e - 1) * e
    ensures Served(w, t, a) <= e - 1
  {
    hide Sum, Deficits, Served, PickAt;
    if t == 0 {
      Start(w);
    } else {
      HeavyWaits(w, e, t - 1, a);
      Step(w, t - 1);
      if PickAt(w, t - 1) == a && Served(w, t - 1, a) == e - 1 {
        TooEarly(t - 1, |w|, e);
        if OnesServed(w, t - 1) { OnesTakeLong(w, t - 1); }
        var i :| 0 <= i < |w| - 3 && Served(w, t - 1, i) == 0;
        OnePreferred(w, e, t - 1, a, i);
      }
    }
  }

  lemma OnePreferred(w: seq<nat>, e: nat, t: nat, a: nat, i: nat)
    requires Pair(w, e) && |w| - 2 <= a < |w| && t < (e - 1) * e
    requires Served(w, t, a) == e - 1 && i < |w| - 3 && Served(w, t, i) == 0
    ensures PickAt(w, t) != a
  {
    hide Sum, Deficits, Served, PickAt;
    PickIsLeader(w, t);
    DeficitIsShortfall(w, t, a);
    DeficitIsShortfall(w, t, i);
    assert t * w[i] == t && Sum(w) * Served(w, t, i) == 0;
    HeavyCredit(e, t);
    assert Deficits(w, t)[a] + w[a] <= Deficits(w, t)[i] + w[i];
  }

  lemma HeavyCredit(e: int, t: int)
    requires e > 1 && t < (e - 1) * e
    ensures t * (e + 1) - (e * e) * (e - 1) + (e + 1) <= t + 1
  {
    Arithmetic.MulMonotone(e, t + 1, (e - 1) * e);
    assert t * (e + 1) + (e + 1) == e * (t + 1) + t + 1;
    assert e * ((e - 1) * e) == e * e * (e - 1);
  }

  /** Then one step serves only one of the two, and the other is a whole pick behind. */
  lemma PairFallsBehind(w: seq<nat>, e: nat)
    requires Pair(w, e)
    ensures !WithinOne(w)
  {
    hide Sum, Deficits, Served, PickAt;
    SumPositive(w);
    var t: nat := (e - 1) * e;
    var u, a, b := t + 1, |w| - 2, |w| - 1;
    HeavyWaits(w, e, t, a);
    HeavyWaits(w, e, t, b);
    Step(w, t);
    var z := if PickAt(w, t) == a then b else a;
    assert Served(w, u, z) <= e - 1;
    DeficitIsShortfall(w, u, z);
    WholePick(e, u, Served(w, u, z));
    assert !(Deficits(w, u)[z] < Sum(w));
  }

  lemma WholePick(e: nat, u: nat, c: nat)
    requires e > 1 && u == (e - 1) * e + 1 && c <= e - 1
    ensures u * (e + 1) - (e * e) * c >= e * e
  {
    Arithmetic.MulMonotone(e * e, c, e - 1);
    assert ((e - 1) * e + 1) * (e + 1) == (e * e) * e + 1;
    assert (e * e) * (e - 1) == (e * e) * e - e * e;
  }

  // ---------------------------------------------------------------- what validation accepts

  lemma {:induction false} NothingDrained(w: seq<nat>)
    requires forall i :: 0 <= i < |w| ==> w[i] > 0
    ensures Nonzero(w) == w
  {
    if w != [] {
      NothingDrained(w[..|w| - 1]);
      assert w == w[..|w| - 1] + [w[|w| - 1]];
    }
  }

  /** Reducing the weights does not change who is a whole pick behind. */
  lemma ReductionKeepsBehind(w: seq<nat>)
    requires AllLive(w) && Nonzero(w) == w && !WithinOne(w)
    ensures !WithinOne(TableWeights(w))
  {
    hide Sum, Deficits, Nonzero, TableWeights, Gcd.OfAll;
    TableWeightsExact(w);
    SumPositive(w);
    var v, g := TableWeights(w), Gcd.OfAll(w);
    var t: nat, i :| 0 <= i < |w| && !(-Sum(w) < Deficits(w, t)[i] < Sum(w));
    DeficitAboveMinusTotal(w, t, i);
    ScaleInvariant(w, v, g, t);
    if Deficits(v, t)[i] < Sum(v) { Arithmetic.MulMonotone(g, Deficits(v, t)[i] + 1, Sum(v)); }
    assert g * (Deficits(v, t)[i] + 1) == g * Deficits(v, t)[i] + g;
    assert !(Deficits(v, t)[i] < Sum(v));
  }

  /** Every split the proxy would load, of `n` live backends, stays within one pick. */
  ghost predicate AcceptedWithinOne(n: nat) {
    forall w: seq<nat> :: ValidateSplit(w).Success? && Nonzero(w) != [] && |Nonzero(w)| == n ==>
      WithinOne(TableWeights(w))
  }

  lemma AcceptedBehind(w: seq<nat>)
    requires AllLive(w) && Sum(w) <= MAX_TABLE_LEN && !WithinOne(w)
    ensures ValidateSplit(w).Success?
    ensures !AcceptedWithinOne(|w|)
  {
    hide Sum, WithinOne, Nonzero, TableWeights, Gcd.OfAll, ValidateSplit;
    NothingDrained(w);
    TableWeightsExact(w);
    SumNonneg(TableWeights(w));
    Arithmetic.MulMonotone(Sum(TableWeights(w)), 1, Gcd.OfAll(w));
    forall i | 0 <= i < |w| ensures w[i] <= MAX_BACKEND_WEIGHT {
      WeightAtMostSum(w, i);
    }
    AcceptedSplits(w);
    ReductionKeepsBehind(w);
  }

  /** From four backends to 65,024 there is an accepted split that falls behind. */
  lemma SomeAcceptedFallsBehind(n: nat)
    requires 4 <= n <= 65_024
    ensures exists w: seq<nat> ::
              |w| == n && (forall i :: 0 <= i < n ==> w[i] > 0) && ValidateSplit(w).Success? && !WithinOne(w)
    ensures !AcceptedWithinOne(n)
  {
    hide Sum, WithinOne, ValidateSplit, Family, PairOf, AcceptedWithinOne;
    if n <= 20 {
      var w := Family(n - 4);
      FamilyTotal(n - 4);
      FamilyBehind(n - 4);
      AcceptedBehind(w);
      assert |w| == n;
    } else {
      var e := if n <= 35 then 7 else if n <= 99 then 11 else if n <= 840 then 30 else 256;
      var w := PairOf(e, n);
      PairIsPair(e, n);
      PairFallsBehind(w, e);
      AcceptedBehind(w);
      assert |w| == n;
    }
  }

  lemma FamilyBehind(m: nat)
    ensures !WithinOne(Family(m)) && AllLive(Family(m))
  {
    hide Sum, Deficits, Family;
    FamilyFallsBehind(m);
    var w, t: nat := Family(m), 24;
    assert !(Deficits(w, t)[3] < Sum(w));
  }

  lemma SmallExcess(n: nat, e: int)
    requires n >= 65_025 && 0 <= e <= MAX_TABLE_LEN - n
    ensures (e - 1) * (e - 1) <= 4 * n
  {
    var x := e - 1;
    if x >= 0 { Arithmetic.SquareMonotone(x, 510); }
  }

  lemma SmallOrCrowded(w: seq<nat>)
    requires ValidateSplit(w).Success? && Nonzero(w) != []
    requires |Nonzero(w)| <= 3 || |Nonzero(w)| >= 65_025
    ensures WithinOne(TableWeights(w))
  {
    hide Sum, WithinOne, Nonzero, TableWeights, Gcd.OfAll, ValidateSplit;
    AcceptedSplits(w);
    TableWeightsExact(w);
    var v := TableWeights(w);
    if |v| <= 3 {
      WithinOneUpToThree(v);
    } else {
      SmallExcess(|v|, Excess(v));
      CrowdedWithinOne(v);
    }
  }

  /** The claimed bound of one pick, for the splits that can be loaded: it holds for all of them with
      up to three live backends, for none of the sizes from 4 to 65,024, and again above, where nearly
      all weights are one. */
  lemma AcceptedWithinOneExactly(n: nat)
    ensures AcceptedWithinOne(n) <==> n <= 3 || n >= 65_025
  {
    hide Sum, WithinOne, Nonzero, TableWeights, ValidateSplit;
    if n <= 3 || n >= 65_025 {
      forall w: seq<nat> | ValidateSplit(w).Success? && Nonzero(w) != [] && |Nonzero(w)| == n
        ensures WithinOne(TableWeights(w))
      {
        SmallOrCrowded(w);
      }
    } else {
      SomeAcceptedFallsBehind(n);
    }
  }
}
