/** The maximum-deficit apportionment rule of the weighted traffic split, as a function of time:
    `Deficits(w, t)` is the running deficit vector after `t` picks and `PickAt(w, t)` the backend
    served next.  `WeightedSchedule` is the loop that tabulates one period of it. */
module Apportionment {
  import Arithmetic
  import opened Counting
  import opened Words

  function Sum(s: seq<int>): int {
    if s == [] then 0 else Sum(s[..|s| - 1]) + s[|s| - 1]
  }

  /** What `WeightedSchedule` demands of its caller. */
  predicate Positive(w: seq<nat>) {
    |w| > 0 && Sum(w) > 0
  }

  /** The lowest index holding the greatest value. */
  ghost predicate Leads(e: seq<int>, b: nat) {
    && b < |e|
    && (forall i :: 0 <= i < |e| ==> e[i] <= e[b])
    && (forall i :: 0 <= i < b ==> e[i] < e[b])
  }

  ghost function Leader(e: seq<int>): (b: nat)
    requires |e| > 0
    ensures Leads(e, b)
  {
    SomeoneLeads(e);
    var b: nat :| Leads(e, b);
    b
  }

  lemma {:induction false} SomeoneLeads(e: seq<int>)
    requires |e| > 0
    ensures exists b: nat :: Leads(e, b)
  {
    var n := |e| - 1;
    if n == 0 {
      assert Leads(e, 0);
    } else {
      SomeoneLeads(e[..n]);
      var b: nat :| Leads(e[..n], b);
      assert forall i :: 0 <= i < n ==> e[..n][i] == e[i];
      assert Leads(e, if e[n] > e[b] then n else b);
    }
  }

  function Credited(d: seq<int>, w: seq<nat>): (e: seq<int>)
    requires |d| == |w|
    ensures |e| == |d|
    ensures forall i :: 0 <= i < |e| ==> e[i] == d[i] + w[i]
  {
    seq(|d|, i requires 0 <= i < |d| => d[i] + w[i])
  }

  ghost function Deficits(w: seq<nat>, t: nat): (d: seq<int>)
    requires |w| > 0
    ensures |d| == |w|
  {
    if t == 0 then seq(|w|, i => 0)
    else
      var e := Credited(Deficits(w, t - 1), w);
      e[Leader(e) := e[Leader(e)] - Sum(w)]
  }

  ghost function PickAt(w: seq<nat>, t: nat): (b: nat)
    requires |w| > 0
    ensures b < |w|
  {
    Leader(Credited(Deficits(w, t), w))
  }

  ghost function Schedule(w: seq<nat>, t: nat): (s: seq<nat>)
    requires |w| > 0
    ensures |s| == t
    ensures forall k :: 0 <= k < t ==> s[k] < |w|
  {
    if t == 0 then [] else Schedule(w, t - 1) + [PickAt(w, t - 1)]
  }

  /** How often backend `i` is served by the first `t` picks. */
  ghost function Served(w: seq<nat>, t: nat, i: nat): nat
    requires |w| > 0
  {
    if t == 0 then 0 else Served(w, t - 1, i) + if PickAt(w, t - 1) == i then 1 else 0
  }

  /** In the tabulated schedule it is the number of entries `i`. */
  lemma {:induction false} ServedCounts(w: seq<nat>, t: nat, i: nat)
    requires |w| > 0
    ensures multiset(Schedule(w, t))[i] == Served(w, t, i)
  {
    hide PickAt, Sum;
    if t > 0 {
      var u := t - 1;
      hide Schedule, Served, Deficits;
      ServedCounts(w, u, i);
      Unfold(w, u);
      Step(w, u);
      CountAppend(Schedule(w, u), PickAt(w, u), i);
    }
  }

  // ---------------------------------------------------------------- sums

  lemma {:induction false} SumCredited(d: seq<int>, w: seq<nat>)
    requires |d| == |w|
    ensures Sum(Credited(d, w)) == Sum(d) + Sum(w)
  {
    if d != [] {
      var n := |d| - 1;
      SumCredited(d[..n], w[..n]);
      assert Credited(d, w)[..n] == Credited(d[..n], w[..n]);
    }
  }

  lemma {:induction false} SumUpdate(s: seq<int>, b: nat, x: int)
    requires b < |s|
    ensures Sum(s[b := x]) == Sum(s) - s[b] + x
  {
    var n := |s| - 1;
    if b == n {
      assert s[b := x][..n] == s[..n];
    } else {
      SumUpdate(s[..n], b, x);
      assert s[b := x][..n] == s[..n][b := x];
    }
  }

  lemma {:induction false} SumZeros(s: seq<int>)
    requires forall i :: 0 <= i < |s| ==> s[i] == 0
    ensures Sum(s) == 0
  {
    if s != [] { SumZeros(s[..|s| - 1]); }
  }

  lemma {:induction false} SumAtMost(s: seq<int>, x: int)
    requires forall i :: 0 <= i < |s| ==> s[i] <= x
    ensures Sum(s) <= |s| * x
  {
    if s != [] {
      SumAtMost(s[..|s| - 1], x);
      assert |s| * x == (|s| - 1) * x + x;
    }
  }

  lemma {:induction false} WeightAtMostSum(w: seq<nat>, i: nat)
    requires i < |w|
    ensures w[i] <= Sum(w)
  {
    SumNonneg(w[..|w| - 1]);
    if i < |w| - 1 { WeightAtMostSum(w[..|w| - 1], i); }
  }

  lemma {:induction false} SumNonneg(w: seq<nat>)
    ensures Sum(w) >= 0
  {
    if w != [] { SumNonneg(w[..|w| - 1]); }
  }

  lemma {:induction false} SumPositive(w: seq<nat>)
    requires |w| > 0 && forall i :: 0 <= i < |w| ==> w[i] > 0
    ensures Positive(w) && |w| <= Sum(w)
  {
    if |w| > 1 {
      SumPositive(w[..|w| - 1]);
    } else {
      assert w[..0] == [];
    }
  }

  /** There is only one leader. */
  lemma LeaderUnique(e: seq<int>, b: nat)
    requires Leads(e, b)
    ensures Leader(e) == b
  {
    var l := Leader(e);
    assert e[l] == e[b];
  }

  // ---------------------------------------------------------------- one step

  lemma Start(w: seq<nat>)
    requires |w| > 0
    ensures forall i :: 0 <= i < |w| ==> Deficits(w, 0)[i] == 0
    ensures forall i :: Served(w, 0, i) == 0
  {
  }

  lemma Unfold(w: seq<nat>, t: nat)
    requires |w| > 0
    ensures var e := Credited(Deficits(w, t), w);
            Deficits(w, t + 1) == e[Leader(e) := e[Leader(e)] - Sum(w)]
    ensures PickAt(w, t) == Leader(Credited(Deficits(w, t), w))
    ensures Schedule(w, t + 1) == Schedule(w, t) + [PickAt(w, t)]
  {
    hide Leader, Sum;
  }

  lemma Step(w: seq<nat>, t: nat)
    requires |w| > 0
    ensures forall i :: 0 <= i < |w| ==>
              Deficits(w, t + 1)[i] == Deficits(w, t)[i] + w[i] - if i == PickAt(w, t) then Sum(w) else 0
    ensures forall i :: Served(w, t + 1, i) == Served(w, t, i) + if i == PickAt(w, t) then 1 else 0
  {
    hide Leader, Sum;
  }

  /** Greatest deficit first, lowest index on a tie. */
  lemma PickIsLeader(w: seq<nat>, t: nat)
    requires |w| > 0
    ensures var d, b := Deficits(w, t), PickAt(w, t);
            && (forall i :: 0 <= i < |w| ==> d[i] + w[i] <= d[b] + w[b])
            && (forall i :: 0 <= i < b ==> d[i] + w[i] < d[b] + w[b])
  {
    hide Leader, Deficits;
    var e := Credited(Deficits(w, t), w);
    var b := Leader(e);
    assert forall i :: 0 <= i < |w| ==> e[i] <= e[b];
  }

  lemma PickIsUnique(w: seq<nat>, t: nat, b: nat)
    requires b < |w|
    requires forall i :: 0 <= i < |w| ==> Deficits(w, t)[i] + w[i] <= Deficits(w, t)[b] + w[b]
    requires forall i :: 0 <= i < b ==> Deficits(w, t)[i] + w[i] < Deficits(w, t)[b] + w[b]
    ensures PickAt(w, t) == b
  {
    hide Leader, Deficits;
    LeaderUnique(Credited(Deficits(w, t), w), b);
  }

  // ---------------------------------------------------------------- the three state invariants

  lemma ShortfallArithmetic(t: nat, w: int, total: int, c: int, d: int, hit: bool)
    requires d == t * w - total * c
    ensures d + w - (if hit then total else 0) == (t + 1) * w - total * (c + if hit then 1 else 0)
  {
  }

  /** A deficit is exactly how far a backend is below its fair share, in units of 1/total. */
  lemma {:induction false} DeficitIsShortfall(w: seq<nat>, t: nat, i: nat)
    requires i < |w|
    ensures Deficits(w, t)[i] == t * w[i] - Sum(w) * Served(w, t, i)
  {
    hide Leader, Sum, Deficits, Served, Schedule, PickAt;
    if t == 0 {
      Start(w);
    } else {
      DeficitIsShortfall(w, t - 1, i);
      Step(w, t - 1);
      ShortfallArithmetic(t - 1, w[i], Sum(w), Served(w, t - 1, i), Deficits(w, t - 1)[i], i == PickAt(w, t - 1));
    }
  }

  lemma {:induction false} DeficitsSumToZero(w: seq<nat>, t: nat)
    requires |w| > 0
    ensures Sum(Deficits(w, t)) == 0
  {
    hide Leader, Sum, Deficits, Credited;
    if t == 0 {
      Start(w);
      SumZeros(Deficits(w, 0));
    } else {
      DeficitsSumToZero(w, t - 1);
      Unfold(w, t - 1);
      var e := Credited(Deficits(w, t - 1), w);
      SumCredited(Deficits(w, t - 1), w);
      SumUpdate(e, Leader(e), e[Leader(e)] - Sum(w));
    }
  }

  /** The backend served is always one that is owed something. */
  lemma PickIsOwed(w: seq<nat>, t: nat)
    requires Positive(w)
    ensures Deficits(w, t)[PickAt(w, t)] + w[PickAt(w, t)] > 0
  {
    hide Leader, Sum, Deficits;
    var d := Deficits(w, t);
    var e := Credited(d, w);
    DeficitsSumToZero(w, t);
    SumCredited(d, w);
    if e[Leader(e)] <= 0 {
      SumAtMost(e, 0);
    }
  }

  lemma {:induction false} DeficitAboveMinusTotal(w: seq<nat>, t: nat, i: nat)
    requires Positive(w) && i < |w|
    ensures Deficits(w, t)[i] > -Sum(w)
  {
    hide Leader, Sum, Deficits, Served, Schedule, PickAt;
    if t == 0 {
      Start(w);
    } else {
      DeficitAboveMinusTotal(w, t - 1, i);
      PickIsOwed(w, t - 1);
      Step(w, t - 1);
    }
  }

  /** No backend is ever ahead of its ideal share by a whole pick. */
  lemma NeverAheadByOne(w: seq<nat>, t: nat, i: nat)
    requires Positive(w) && i < |w|
    ensures Sum(w) * Served(w, t, i) < t * w[i] + Sum(w)
  {
    hide Leader, Sum, Deficits, Served, Schedule, PickAt;
    DeficitIsShortfall(w, t, i);
    DeficitAboveMinusTotal(w, t, i);
  }

  lemma MultipleAboveMinusOne(total: int, k: int)
    requires total > 0 && total * k > -total
    ensures k >= 0
  {
  }

  lemma ZeroProduct(a: int, b: int)
    requires a > 0 && a * b == 0
    ensures b == 0
  {
  }

  lemma {:induction false} NonnegSummingToZero(s: seq<int>, i: nat)
    requires i < |s|
    requires forall k :: 0 <= k < |s| ==> s[k] >= 0
    requires Sum(s) == 0
    ensures s[i] == 0
  {
    var n := |s| - 1;
    SumNonneg(s[..n]);
    if i < n { NonnegSummingToZero(s[..n], i); }
  }

  lemma DeficitAfterPeriod(w: seq<nat>, i: nat)
    requires Positive(w) && i < |w|
    ensures Deficits(w, Sum(w))[i] == Sum(w) * (w[i] - Served(w, Sum(w), i))
    ensures Deficits(w, Sum(w))[i] >= 0
  {
    hide Leader, Sum, Deficits, Served, Schedule, PickAt;
    var total, k := Sum(w), w[i] - Served(w, Sum(w), i);
    DeficitIsShortfall(w, total, i);
    DeficitAboveMinusTotal(w, total, i);
    MultipleAboveMinusOne(total, k);
  }

  /** One period serves each backend exactly its weight and restores the zero state. */
  lemma FullPeriod(w: seq<nat>)
    requires Positive(w)
    ensures forall i :: 0 <= i < |w| ==> Served(w, Sum(w), i) == w[i]
    ensures Deficits(w, Sum(w)) == Deficits(w, 0)
  {
    hide Leader, Sum, Deficits, Served, Schedule, PickAt;
    var d := Deficits(w, Sum(w));
    forall i | 0 <= i < |w| ensures d[i] >= 0 {
      DeficitAfterPeriod(w, i);
    }
    DeficitsSumToZero(w, Sum(w));
    forall i | 0 <= i < |w| ensures d[i] == 0 && Served(w, Sum(w), i) == w[i] {
      NonnegSummingToZero(d, i);
      DeficitAfterPeriod(w, i);
      ZeroProduct(Sum(w), w[i] - Served(w, Sum(w), i));
    }
    Start(w);
  }

  lemma SameDeficitsSamePick(w: seq<nat>, t: nat, u: nat)
    requires |w| > 0 && Deficits(w, t) == Deficits(w, u)
    ensures PickAt(w, t) == PickAt(w, u)
    ensures Deficits(w, t + 1) == Deficits(w, u + 1)
  {
    hide Leader, Sum, Deficits, PickAt, Credited;
    Unfold(w, t);
    Unfold(w, u);
  }

  /** So one period is the whole infinite schedule. */
  lemma {:induction false} Periodic(w: seq<nat>, t: nat)
    requires Positive(w)
    ensures Deficits(w, t + Sum(w)) == Deficits(w, t)
    ensures PickAt(w, t + Sum(w)) == PickAt(w, t)
  {
    hide Leader, Sum, Deficits, PickAt;
    if t == 0 {
      FullPeriod(w);
    } else {
      Periodic(w, t - 1);
      SameDeficitsSamePick(w, t - 1 + Sum(w), t - 1);
      assert t - 1 + Sum(w) + 1 == t + Sum(w);
    }
    SameDeficitsSamePick(w, t + Sum(w), t);
  }

  lemma {:induction false} PeriodicMod(w: seq<nat>, t: nat)
    requires Positive(w)
    ensures PickAt(w, t) == PickAt(w, t % Sum(w))
    decreases t
  {
    hide Leader, Sum, Deficits, PickAt;
    if t >= Sum(w) {
      PeriodicMod(w, t - Sum(w));
      Periodic(w, t - Sum(w));
      Arithmetic.ModShift(t, Sum(w), -1);
    }
  }

  lemma {:induction false} ScheduleAt(w: seq<nat>, t: nat, k: nat)
    requires |w| > 0 && k < t
    ensures Schedule(w, t)[k] == PickAt(w, k)
  {
    hide Leader, Sum, Deficits, PickAt;
    if k < t - 1 { ScheduleAt(w, t - 1, k); }
  }

  lemma WindowArithmetic(start: nat, total: nat, w: int, before: int, after: int)
    requires total > 0
    requires start * w - total * before == (start + total) * w - total * after
    ensures after - before == w
  {
    ZeroProduct(total, w - (after - before));
  }

  /** Any window of one period, wherever it starts, serves each backend exactly its weight. */
  lemma AnyWindow(w: seq<nat>, start: nat, i: nat)
    requires Positive(w) && i < |w|
    ensures Served(w, start + Sum(w), i) - Served(w, start, i) == w[i]
  {
    hide Leader, Sum, Deficits, Served, Schedule, PickAt;
    DeficitIsShortfall(w, start, i);
    DeficitIsShortfall(w, start + Sum(w), i);
    Periodic(w, start);
    WindowArithmetic(start, Sum(w), w[i], Served(w, start, i), Served(w, start + Sum(w), i));
  }

  // ---------------------------------------------------------------- the loop

  /** The narrowing cast: lossless exactly below 2^16. */
  function AsU16(x: nat): (r: nat)
    ensures r == x <==> x < U16
  {
    x % U16
  }

  /** The build-time loop: one period of the rule, over a deficit vector updated in place.
      The index is narrowed to sixteen bits as it is pushed. */
  method WeightedSchedule(weights: seq<nat>) returns (schedule: seq<nat>)
    requires Positive(weights)
    ensures |weights| <= U16 ==> schedule == Schedule(weights, Sum(weights))
    ensures |schedule| == Sum(weights)
  {
    var total := Total(weights);
    hide Leader, Sum, Deficits, Schedule, PickAt, Credited, AsU16;
    schedule := [];
    var deficit := NoDeficits(weights);
    assert schedule == Schedule(weights, 0);
    for t := 0 to total
      invariant deficit[..] == Deficits(weights, t)
      invariant |schedule| == t
      invariant |weights| <= U16 ==> schedule == Schedule(weights, t)
    {
      var entry := ServeNext(deficit, weights, total, t);
      schedule := schedule + [entry];
    }
  }

  /** One step: credit everyone, serve the leader, debit it the total and narrow its index. */
  method ServeNext(deficit: array<int>, weights: seq<nat>, total: int, ghost t: nat) returns (entry: nat)
    requires |weights| > 0 && total == Sum(weights)
    requires deficit[..] == Deficits(weights, t)
    modifies deficit
    ensures entry == AsU16(PickAt(weights, t))
    ensures |weights| <= U16 ==> Schedule(weights, t + 1) == Schedule(weights, t) + [entry]
    ensures deficit[..] == Deficits(weights, t + 1)
  {
    hide Leader, Credited, Deficits, Schedule, PickAt, Sum;
    Unfold(weights, t);
    var best := CreditAll(deficit, weights);
    deficit[best] := deficit[best] - total;
    entry := AsU16(best);
  }

  /** One pass of the inner loop: credit every backend and remember the leader so far. */
  method CreditAll(deficit: array<int>, weights: seq<nat>) returns (best: nat)
    requires deficit.Length == |weights| > 0
    modifies deficit
    ensures deficit[..] == Credited(old(deficit[..]), weights)
    ensures best == Leader(deficit[..])
  {
    hide Leader;
    ghost var d := deficit[..];
    best := 0;
    for i := 0 to |weights|
      invariant best < |weights| && (if i == 0 then best == 0 else best < i)
      invariant forall k :: 0 <= k < i ==> deficit[k] == d[k] + weights[k]
      invariant forall k :: i <= k < |weights| ==> deficit[k] == d[k]
      invariant forall k :: 0 <= k < i ==> deficit[k] <= deficit[best]
      invariant forall k :: 0 <= k < best ==> deficit[k] < deficit[best]
    {
      deficit[i] := deficit[i] + weights[i];
      if deficit[i] > deficit[best] {
        best := i;
      }
    }
    assert deficit[..] == Credited(d, weights);
    LeaderUnique(deficit[..], best);
  }

  method NoDeficits(weights: seq<nat>) returns (deficit: array<int>)
    requires |weights| > 0
    ensures fresh(deficit) && deficit[..] == Deficits(weights, 0)
  {
    deficit := new int[|weights|](_ => 0);
  }

  method Total(weights: seq<nat>) returns (total: nat)
    ensures total == Sum(weights)
  {
    total := 0;
    for i := 0 to |weights|
      invariant total == Sum(weights[..i])
    {
      assert weights[..i + 1][..i] == weights[..i];
      total := total + weights[i];
    }
    assert weights[..|weights|] == weights;
  }
}
