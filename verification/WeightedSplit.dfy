/** A route's compiled traffic split: drop the drained backends, reduce the weights by their common
    divisor, tabulate one period, then pick with a cursor that skips ineligible backends. */
module WeightedSplit {
  import Arithmetic
  import Gcd
  import opened Apportionment
  import opened Wrappers

  const MAX_BACKEND_WEIGHT := 1_000_000
  const MAX_TABLE_LEN := 65_536

  datatype SplitError =
    | NoBackends
    | OverCap(weight: nat)
    | AllZero
    | TableTooLong(total: nat)

  // ---------------------------------------------------------------- validation

  function Nonzero(w: seq<nat>): (r: seq<nat>)
    ensures forall j :: 0 <= j < |r| ==> r[j] > 0
  {
    if w == [] then []
    else Nonzero(w[..|w| - 1]) + if w[|w| - 1] > 0 then [w[|w| - 1]] else []
  }

  function Reduced(w: seq<nat>, g: nat): (r: seq<nat>)
    requires g > 0
    ensures |r| == |w|
    ensures forall i :: 0 <= i < |w| ==> r[i] == w[i] / g
  {
    seq(|w|, i requires 0 <= i < |w| => w[i] / g)
  }

  function FirstOverCap(w: seq<nat>): (r: Option<nat>)
    ensures r.None? <==> forall i :: 0 <= i < |w| ==> w[i] <= MAX_BACKEND_WEIGHT
  {
    if w == [] then None
    else if w[0] > MAX_BACKEND_WEIGHT then Some(w[0])
    else
      assert forall i :: 1 <= i < |w| ==> w[i] == w[1..][i - 1];
      FirstOverCap(w[1..])
  }

  function ValidateSplit(w: seq<nat>): Result<nat, SplitError> {
    if w == [] then Failure(NoBackends)
    else if FirstOverCap(w).Some? then Failure(OverCap(FirstOverCap(w).value))
    else if Nonzero(w) == [] then Failure(AllZero)
    else
      Gcd.DividesAll(Nonzero(w), 0);
      var total := Sum(Reduced(w, Gcd.OfAll(Nonzero(w))));
      SumNonneg(Reduced(w, Gcd.OfAll(Nonzero(w))));
      if total > MAX_TABLE_LEN then Failure(TableTooLong(total)) else Success(total)
  }

  // ---------------------------------------------------------------- drained backends

  lemma NonzeroLast(w: seq<nat>)
    requires w != []
    ensures var n := |w| - 1;
            Nonzero(w) == if w[n] > 0 then Nonzero(w[..n]) + [w[n]] else Nonzero(w[..n])
  {
    var r := Nonzero(w[..|w| - 1]);
    assert r + [] == r;
  }

  /** `r` lists, in order, the positions of the positive weights. */
  ghost predicate Keeps(w: seq<nat>, r: seq<nat>) {
    && |r| == |Nonzero(w)|
    && (forall j :: 0 <= j < |r| ==> r[j] < |w| && w[r[j]] == Nonzero(w)[j] > 0)
    && (forall j, k :: 0 <= j < k < |r| ==> r[j] < r[k])
    && (forall i :: 0 <= i < |w| && w[i] > 0 ==> i in r)
  }

  lemma KeepsOneMore(w: seq<nat>, r: seq<nat>)
    requires w != [] && Keeps(w[..|w| - 1], r)
    ensures Keeps(w, if w[|w| - 1] > 0 then r + [|w| - 1] else r)
  {
    hide Nonzero;
    NonzeroLast(w);
    var n := |w| - 1;
    var r' := if w[n] > 0 then r + [n] else r;
    forall i | 0 <= i < |w| && w[i] > 0 ensures i in r' {
      if i < n {
        assert w[..n][i] > 0;
        assert i in r;
      }
    }
  }

  lemma KeepsNone()
    ensures Keeps([], [])
  {
  }

  /** The positions of the backends that are kept, in manifest order. */
  function Kept(w: seq<nat>): (r: seq<nat>)
    ensures Keeps(w, r)
  {
    hide Nonzero, Keeps;
    if w == [] then
      KeepsNone();
      []
    else
      var n := |w| - 1;
      var r := Kept(w[..n]);
      KeepsOneMore(w, r);
      if w[n] > 0 then r + [n] else r
  }

  lemma NonzeroSumStep(front: seq<nat>, x: nat)
    ensures Sum(Nonzero(front + [x])) == Sum(Nonzero(front)) + x
    ensures Sum(front + [x]) == Sum(front) + x
  {
    hide *;
    var w := front + [x];
    assert w[..|w| - 1] == front;
    NonzeroLast(w);
    LastTerm(w, front, x);
    if x > 0 { LastTerm(Nonzero(w), Nonzero(front), x); }
  }

  lemma {:induction false} NonzeroSum(w: seq<nat>)
    ensures Sum(Nonzero(w)) == Sum(w)
  {
    if w != [] {
      hide *;
      var front, x := w[..|w| - 1], w[|w| - 1];
      NonzeroSum(front);
      NonzeroSumStep(front, x);
      assert w == front + [x];
    }
  }

  ghost predicate SameWithoutDrained(w: seq<nat>, t: nat)
    requires Nonzero(w) != []
  {
    && (forall i :: 0 <= i < |w| && w[i] == 0 ==> Deficits(w, t)[i] == 0)
    && (forall j :: 0 <= j < |Kept(w)| ==> Deficits(w, t)[Kept(w)[j]] == Deficits(Nonzero(w), t)[j])
  }

  lemma NonzeroPositive(w: seq<nat>)
    requires Nonzero(w) != []
    ensures Positive(Nonzero(w)) && Positive(w)
  {
    hide Sum;
    SumPositive(Nonzero(w));
    NonzeroSum(w);
  }

  lemma SamePickWithoutDrained(w: seq<nat>, t: nat)
    requires Nonzero(w) != [] && SameWithoutDrained(w, t)
    ensures PickAt(w, t) == Kept(w)[PickAt(Nonzero(w), t)]
  {
    hide Sum, Nonzero, Kept, Deficits, PickAt, Leader;
    var v, keep := Nonzero(w), Kept(w);
    var b := PickAt(v, t);
    NonzeroPositive(w);
    PickIsLeader(v, t);
    PickIsOwed(v, t);
    forall i | 0 <= i < |w|
      ensures Deficits(w, t)[i] + w[i] <= Deficits(w, t)[keep[b]] + w[keep[b]]
      ensures i < keep[b] ==> Deficits(w, t)[i] + w[i] < Deficits(w, t)[keep[b]] + w[keep[b]]
    {
      if w[i] > 0 {
        var j :| 0 <= j < |keep| && keep[j] == i;
        assert i < keep[b] ==> j < b;
      }
    }
    PickIsUnique(w, t, keep[b]);
  }

  /** Dropping the drained backends changes the schedule only by renaming indices. */
  lemma {:induction false} DrainedNeverPicked(w: seq<nat>, t: nat)
    requires Nonzero(w) != []
    ensures SameWithoutDrained(w, t)
    ensures PickAt(w, t) == Kept(w)[PickAt(Nonzero(w), t)]
  {
    hide Sum, Nonzero, Kept, Deficits, PickAt, Leader;
    NonzeroPositive(w);
    if t == 0 {
      Start(w);
      Start(Nonzero(w));
    } else {
      DrainedNeverPicked(w, t - 1);
      NonzeroSum(w);
      Step(w, t - 1);
      Step(Nonzero(w), t - 1);
      var keep, b := Kept(w), PickAt(Nonzero(w), t - 1);
      forall j | 0 <= j < |keep|
        ensures Deficits(w, t)[keep[j]] == Deficits(Nonzero(w), t)[j]
      {
        assert keep[j] == keep[b] <==> j == b;
      }
    }
    SamePickWithoutDrained(w, t);
  }

  // ---------------------------------------------------------------- common factors

  /** Multiplying every weight by `k` multiplies every deficit and changes no pick. */
  lemma {:induction false} ScaleInvariant(w: seq<nat>, v: seq<nat>, k: nat, t: nat)
    requires |w| == |v| > 0 && k > 0
    requires forall i :: 0 <= i < |w| ==> w[i] == k * v[i]
    ensures forall i :: 0 <= i < |w| ==> Deficits(w, t)[i] == k * Deficits(v, t)[i]
    ensures PickAt(w, t) == PickAt(v, t)
  {
    hide Sum, Deficits, PickAt, Leader;
    if t == 0 {
      Start(w);
      Start(v);
    } else {
      ScaleInvariant(w, v, k, t - 1);
      SumScaled(w, v, k);
      Step(w, t - 1);
      Step(v, t - 1);
      forall i | 0 <= i < |w| ensures Deficits(w, t)[i] == k * Deficits(v, t)[i] {
        var x, y, z := Deficits(v, t - 1)[i], v[i], if i == PickAt(v, t - 1) then Sum(v) else 0;
        assert k * (x + y - z) == k * x + k * y - k * z;
      }
    }
    SamePickScaled(w, v, k, t);
  }

  lemma SamePickScaled(w: seq<nat>, v: seq<nat>, k: nat, t: nat)
    requires |w| == |v| > 0 && k > 0
    requires forall i :: 0 <= i < |w| ==> w[i] == k * v[i]
    requires forall i :: 0 <= i < |w| ==> Deficits(w, t)[i] == k * Deficits(v, t)[i]
    ensures PickAt(w, t) == PickAt(v, t)
  {
    hide Sum, Deficits, PickAt, Leader;
    var b := PickAt(v, t);
    PickIsLeader(v, t);
    forall i | 0 <= i < |w|
      ensures Deficits(w, t)[i] + w[i] <= Deficits(w, t)[b] + w[b]
      ensures i < b ==> Deficits(w, t)[i] + w[i] < Deficits(w, t)[b] + w[b]
    {
      ScaledCompare(k, Deficits(v, t)[i], v[i], Deficits(v, t)[b], v[b]);
    }
    PickIsUnique(w, t, b);
  }

  lemma ScaledCompare(k: nat, d: int, x: int, e: int, y: int)
    requires k > 0 && d + x <= e + y
    ensures k * d + k * x <= k * e + k * y
    ensures d + x < e + y ==> k * d + k * x < k * e + k * y
  {
    Arithmetic.MulMonotone(k, d + x, e + y);
    if d + x < e + y { Arithmetic.MulMonotone(k, d + x + 1, e + y); }
    assert k * (d + x) == k * d + k * x && k * (e + y) == k * e + k * y;
    assert k * (d + x + 1) == k * d + k * x + k;
  }

  lemma {:induction false} SumScaled(w: seq<nat>, v: seq<nat>, k: nat)
    requires |w| == |v|
    requires forall i :: 0 <= i < |w| ==> w[i] == k * v[i]
    ensures Sum(w) == k * Sum(v)
  {
    if w != [] {
      var n := |w| - 1;
      SumScaled(w[..n], v[..n], k);
      assert k * (Sum(v[..n]) + v[n]) == k * Sum(v[..n]) + k * v[n];
    }
  }

  // ---------------------------------------------------------------- the compiled table

  /** The weights the table is built from. */
  function TableWeights(w: seq<nat>): (v: seq<nat>)
    requires Nonzero(w) != []
    ensures |v| == |Nonzero(w)|
  {
    Gcd.DividesAll(Nonzero(w), 0);
    Reduced(Nonzero(w), Gcd.OfAll(Nonzero(w)))
  }

  lemma ExactQuotient(x: nat, g: nat)
    requires g > 0 && Gcd.Multiple(g, x)
    ensures x == g * (x / g)
    ensures x > 0 ==> x / g > 0
  {
    var q: int :| x == q * g;
    Arithmetic.DivModUnique(x, g, q, 0);
  }

  lemma TableWeightsExact(w: seq<nat>)
    requires Nonzero(w) != []
    ensures var v, g := TableWeights(w), Gcd.OfAll(Nonzero(w));
            && |v| == |Nonzero(w)| && g > 0
            && (forall j :: 0 <= j < |v| ==> v[j] > 0 && Nonzero(w)[j] == g * v[j])
    ensures Positive(TableWeights(w)) && |TableWeights(w)| <= Sum(TableWeights(w))
    ensures Sum(w) == Gcd.OfAll(Nonzero(w)) * Sum(TableWeights(w))
  {
    hide Sum, Nonzero, Gcd.Of, Gcd.OfAll;
    var z, v := Nonzero(w), TableWeights(w);
    Gcd.DividesAll(z, 0);
    var g := Gcd.OfAll(z);
    forall j | 0 <= j < |v| ensures v[j] > 0 && z[j] == g * v[j] {
      Gcd.DividesAll(z, j);
      ExactQuotient(z[j], g);
    }
    SumPositive(v);
    SumScaled(z, v, g);
    NonzeroSum(w);
  }

  lemma ReducedLast(w: seq<nat>, x: nat, g: nat)
    requires g > 0
    ensures Reduced(w + [x], g) == Reduced(w, g) + [x / g]
  {
  }

  lemma {:induction false} ReducedSum(w: seq<nat>, g: nat)
    requires g > 0
    ensures Sum(Reduced(w, g)) == Sum(Reduced(Nonzero(w), g))
  {
    if w != [] {
      hide *;
      var n := |w| - 1;
      ReducedSum(w[..n], g);
      NonzeroLast(w);
      ReducedSumLast(w[..n], w[n], g);
      if w[n] > 0 {
        ReducedSumLast(Nonzero(w[..n]), w[n], g);
      } else {
        Arithmetic.DivModUnique(0, g, 0, 0);
      }
      assert w == w[..n] + [w[n]];
    }
  }

  lemma ReducedSumLast(w: seq<nat>, x: nat, g: nat)
    requires g > 0
    ensures Sum(Reduced(w + [x], g)) == Sum(Reduced(w, g)) + x / g
  {
    hide Sum, Reduced;
    ReducedLast(w, x, g);
    LastTerm(Reduced(w + [x], g), Reduced(w, g), x / g);
  }

  lemma LastTerm(s: seq<int>, t: seq<int>, x: int)
    requires s == t + [x]
    ensures Sum(s) == Sum(t) + x
  {
    assert s[..|s| - 1] == t;
  }

  /** The total that is checked is the table's. */
  lemma CheckedTotal(w: seq<nat>)
    requires Nonzero(w) != []
    ensures Gcd.OfAll(Nonzero(w)) > 0
    ensures Sum(Reduced(w, Gcd.OfAll(Nonzero(w)))) == Sum(TableWeights(w)) >= 0
  {
    hide Sum, Nonzero, Gcd.OfAll, Reduced;
    Gcd.DividesAll(Nonzero(w), 0);
    ReducedSum(w, Gcd.OfAll(Nonzero(w)));
    SumNonneg(TableWeights(w));
  }

  ghost function TableTotal(w: seq<nat>): nat
    requires Nonzero(w) != []
  {
    CheckedTotal(w);
    Sum(TableWeights(w))
  }

  lemma ValidateSplitIs(w: seq<nat>)
    ensures ValidateSplit(w) ==
            if w == [] then Failure(NoBackends)
            else if FirstOverCap(w).Some? then Failure(OverCap(FirstOverCap(w).value))
            else if Nonzero(w) == [] then Failure(AllZero)
            else if TableTotal(w) > MAX_TABLE_LEN then Failure(TableTooLong(TableTotal(w)))
            else Success(TableTotal(w))
  {
    hide Sum, Nonzero, Gcd.OfAll, FirstOverCap, Reduced, TableWeights;
    if Nonzero(w) != [] {
      CheckedTotal(w);
    }
  }

  /** A split is accepted exactly when it has a live backend, no weight over the cap and a reduced
      table within the limit; the reported length is the table's. */
  lemma AcceptedSplits(w: seq<nat>)
    ensures ValidateSplit(w).Success? <==>
              && Nonzero(w) != []
              && (forall i :: 0 <= i < |w| ==> w[i] <= 1_000_000)
              && Sum(TableWeights(w)) <= 65_536
    ensures ValidateSplit(w).Success? ==> ValidateSplit(w).value == Sum(TableWeights(w))
  {
    hide Sum, Nonzero, FirstOverCap, TableWeights, ValidateSplit;
    AllDrained(w);
    ValidateSplitIs(w);
  }

  /** Which refusal: no backends first, then the first weight over the cap, then nothing but drained
      backends, and last a reduced table over the limit. */
  lemma RefusalReasons(w: seq<nat>)
    ensures ValidateSplit(w) == Failure(NoBackends) <==> w == []
    ensures forall x: nat :: ValidateSplit(w) == Failure(OverCap(x)) <==>
              exists i :: 0 <= i < |w| && w[i] == x > 1_000_000
                          && forall k :: 0 <= k < i ==> w[k] <= 1_000_000
    ensures ValidateSplit(w) == Failure(AllZero) <==> w != [] && forall i :: 0 <= i < |w| ==> w[i] == 0
    ensures forall n: nat :: ValidateSplit(w) == Failure(TableTooLong(n)) <==>
              && Nonzero(w) != [] && n == Sum(TableWeights(w)) > 65_536
              && forall i :: 0 <= i < |w| ==> w[i] <= 1_000_000
  {
    hide Sum, Nonzero, FirstOverCap, TableWeights, ValidateSplit;
    FirstOverCapIs(w);
    AllDrained(w);
    ValidateSplitIs(w);
  }

  lemma {:induction false} FirstOverCapIs(w: seq<nat>)
    ensures forall x: nat :: FirstOverCap(w) == Some(x) <==>
              exists i :: 0 <= i < |w| && w[i] == x > MAX_BACKEND_WEIGHT
                          && forall k :: 0 <= k < i ==> w[k] <= MAX_BACKEND_WEIGHT
  {
    if w != [] && w[0] <= MAX_BACKEND_WEIGHT {
      var tail := w[1..];
      FirstOverCapIs(tail);
      assert forall i :: 0 <= i < |tail| ==> tail[i] == w[i + 1];
      forall x: nat | FirstOverCap(tail) == Some(x)
        ensures exists i :: 0 <= i < |w| && w[i] == x > MAX_BACKEND_WEIGHT
                            && forall k :: 0 <= k < i ==> w[k] <= MAX_BACKEND_WEIGHT
      {
        var i :| 0 <= i < |tail| && tail[i] == x > MAX_BACKEND_WEIGHT
                 && forall k :: 0 <= k < i ==> tail[k] <= MAX_BACKEND_WEIGHT;
        assert w[i + 1] == x;
      }
      forall i | 0 <= i < |w| && w[i] > MAX_BACKEND_WEIGHT && forall k :: 0 <= k < i ==> w[k] <= MAX_BACKEND_WEIGHT
        ensures FirstOverCap(w) == Some(w[i])
      {
        assert tail[i - 1] == w[i];
      }
    }
  }

  lemma AllDrained(w: seq<nat>)
    ensures Nonzero(w) == [] <==> forall i :: 0 <= i < |w| ==> w[i] == 0
  {
    hide Nonzero, Kept;
    var keep := Kept(w);
    assert keep != [] ==> w[keep[0]] > 0;
    if i :| 0 <= i < |w| && w[i] > 0 {
      assert i in keep;
    }
  }

  const I64_MAX := 0x7FFF_FFFF_FFFF_FFFF

  /** On an accepted split no deficit, credited or not, leaves the 64-bit range and no index the
      16-bit one. */
  lemma WordsSuffice(w: seq<nat>, t: nat, i: nat)
    requires ValidateSplit(w).Success? && Nonzero(w) != []
    requires t <= Sum(TableWeights(w)) && i < |TableWeights(w)|
    ensures var v := TableWeights(w);
            && Positive(v) && -I64_MAX <= Deficits(v, t)[i] <= Deficits(v, t)[i] + v[i] <= I64_MAX
            && AsU16(PickAt(v, t)) == PickAt(v, t)
  {
    AcceptedSplits(w);
    TableWeightsExact(w);
    hide Sum, Nonzero, Deficits, PickAt, TableWeights, ValidateSplit, Served, AsU16, Gcd.OfAll;
    var v := TableWeights(w);
    DeficitIsShortfall(v, t, i);
    DeficitAboveMinusTotal(v, t, i);
    WeightAtMostSum(v, i);
    Arithmetic.MulMonotone(t, v[i], MAX_TABLE_LEN);
    Arithmetic.MulMonotone(Sum(v), 0, Served(v, t, i));
  }

  /** The compiled table, walked by a wrapping index, is the plain maximum-deficit rule run for
      ever on the weights as written in the manifest. */
  lemma TableRefinesRule(w: seq<nat>, t: nat)
    requires Nonzero(w) != []
    ensures var v := TableWeights(w);
            && Positive(v)
            && t % Sum(v) < |Schedule(v, Sum(v))|
            && Schedule(v, Sum(v))[t % Sum(v)] < |Kept(w)|
            && PickAt(w, t) == Kept(w)[Schedule(v, Sum(v))[t % Sum(v)]]
  {
    hide Sum, Nonzero, Kept, PickAt, Deficits, Gcd.OfAll, Schedule;
    TableWeightsExact(w);
    var v := TableWeights(w);
    DrainedNeverPicked(w, t);
    ScaleInvariant(Nonzero(w), v, Gcd.OfAll(Nonzero(w)), t);
    PeriodicMod(v, t);
    ScheduleAt(v, Sum(v), t % Sum(v));
  }

  // ---------------------------------------------------------------- no shorter table

  ghost predicate IsPeriod(v: seq<nat>, p: nat)
    requires |v| > 0
  {
    p > 0 && forall t: nat :: PickAt(v, t + p) == PickAt(v, t)
  }

  lemma {:induction false} PeriodServes(v: seq<nat>, p: nat, n: nat, i: nat)
    requires |v| > 0 && IsPeriod(v, p)
    ensures Served(v, p + n, i) == Served(v, p, i) + Served(v, n, i)
  {
    hide Sum, PickAt, Deficits, Served, Schedule;
    if n == 0 {
      Start(v);
    } else {
      PeriodServes(v, p, n - 1, i);
      Step(v, n - 1);
      Step(v, p + (n - 1));
      assert PickAt(v, n - 1 + p) == PickAt(v, n - 1);
      assert p + (n - 1) == n - 1 + p && p + (n - 1) + 1 == p + n;
    }
  }

  lemma {:induction false} PeriodsServe(v: seq<nat>, p: nat, k: nat, i: nat)
    requires |v| > 0 && IsPeriod(v, p)
    ensures Served(v, k * p, i) == k * Served(v, p, i)
  {
    hide Sum, PickAt, Deficits, Served, Schedule, IsPeriod;
    if k == 0 {
      Start(v);
    } else {
      PeriodsServe(v, p, k - 1, i);
      PeriodServes(v, p, (k - 1) * p, i);
      assert p + (k - 1) * p == k * p;
    }
  }

  lemma {:induction false} FullPeriods(v: seq<nat>, k: nat, i: nat)
    requires Positive(v) && i < |v|
    ensures Served(v, k * Sum(v), i) == k * v[i]
  {
    hide Sum, PickAt, Deficits, Served, Schedule;
    if k == 0 {
      Start(v);
    } else {
      FullPeriods(v, k - 1, i);
      AnyWindow(v, (k - 1) * Sum(v), i);
      assert (k - 1) * Sum(v) + Sum(v) == k * Sum(v);
    }
  }

  /** Every period of the pick sequence is a multiple of the table length, so no shorter table
      could hold the schedule. */
  lemma TableIsShortest(w: seq<nat>, p: nat)
    requires Nonzero(w) != [] && IsPeriod(TableWeights(w), p)
    ensures Sum(TableWeights(w)) > 0 && Gcd.Multiple(Sum(TableWeights(w)), p)
  {
    hide Sum, Nonzero, PickAt, Deficits, Served, Gcd.Of, Gcd.OfAll, TableWeights, IsPeriod, Gcd.Multiple;
    TableWeightsExact(w);
    var v, l, g := TableWeights(w), Sum(TableWeights(w)), Gcd.OfAll(Nonzero(w));
    forall j | 0 <= j < |v| ensures Gcd.Multiple(l * g, p * Nonzero(w)[j]) {
      PeriodsServe(v, p, l, j);
      FullPeriods(v, p, j);
      ShareOfPeriod(l, g, p, v[j], Served(v, p, j), Nonzero(w)[j]);
    }
    Gcd.GreatestOfAll(l * g, p, Nonzero(w));
    CancelFactor(l, g, p);
  }

  lemma ShareOfPeriod(l: nat, g: nat, p: nat, x: nat, c: nat, z: nat)
    requires l > 0 && g > 0 && p * x == l * c && z == g * x
    ensures l * g > 0 && Gcd.Multiple(l * g, p * z)
  {
    assert p * z == g * (p * x) == c * (l * g);
  }

  lemma CancelFactor(l: nat, g: nat, p: nat)
    requires l > 0 && g > 0 && l * g > 0 && Gcd.Multiple(l * g, p * g)
    ensures Gcd.Multiple(l, p)
  {
    var q: int :| p * g == q * (l * g);
    assert (p - q * l) * g == 0;
    ZeroProduct(g, p - q * l);
    assert p == q * l;
  }
}
