/** What the fill order means for the share of each backend. */
module MaglevShares {
  import Arithmetic
  import opened Apportionment
  import opened Permutation
  import opened MaglevTurns
  import opened Maglev
  import opened Counting
  import opened Wrappers

  lemma {:induction false} RoundTurnsShort(ws: seq<nat>, max: nat, r: nat, k: nat)
    requires max > 0 && r > 0 && k <= |ws|
    ensures |RoundTurns(ws, max, r, k)| <= k
  {
    hide Takes;
    if k > 0 { RoundTurnsShort(ws, max, r, k - 1); }
  }

  lemma AtLeastOneTurn(w: nat, max: nat, r: nat)
    requires 0 < w <= max && r > 0
    ensures Turns(w, max, r) >= 1
  {
  }

  /** Nobody with a positive weight is starved, as soon as there is a slot for everyone. */
  lemma EveryoneOwnsASlot(es: seq<Backend>, m: nat, i: nat)
    requires Prime(m) && |es| <= m && i < |es| && es[i].weight > 0
    ensures MaxWeight(Weights(es)) > 0 && Owned(es, m, i) >= 1
  {
    var ws := Weights(es);
    var max := MaxWeight(ws);
    assert ws[i] <= max;
    hide MaxWeight, Prime, Owned, Turns, TurnOrder, RoundTurns;
    var r, k := OwnedIsTurns(es, m);
    if r == 1 {
      RoundTurnsShort(ws, max, 1, k);
      assert Rounds(ws, max, 0) == [];
      assert |TurnOrder(ws, m)| <= k;
    }
    AtLeastOneTurn(es[i].weight, max, if i < k then r else r - 1);
  }

  // ---------------------------------------------------------------- all the shares together

  ghost function Shares(es: seq<Backend>, m: nat): (c: seq<nat>)
    requires Prime(m) && MaxWeight(Weights(es)) > 0
    ensures |c| == |es|
    ensures forall i :: 0 <= i < |es| ==> c[i] == Owned(es, m, i)
  {
    seq(|es|, i requires 0 <= i < |es| => Owned(es, m, i))
  }

  function Counted(t: seq<int>, n: nat): (c: seq<nat>)
    ensures |c| == n
    ensures forall i :: 0 <= i < n ==> c[i] == multiset(t)[i]
  {
    seq(n, i requires 0 <= i < n => multiset(t)[i])
  }

  lemma {:induction false} CountsAddUp(t: seq<int>, n: nat)
    requires forall c :: 0 <= c < |t| ==> 0 <= t[c] < n
    ensures Sum(Counted(t, n)) == |t|
  {
    if t == [] {
      SumZeros(Counted(t, n));
    } else {
      var l := |t| - 1;
      var before, x := Counted(t[..l], n), t[l];
      CountsAddUp(t[..l], n);
      assert t == t[..l] + [x];
      assert Counted(t, n) == before[x := before[x] + 1];
      SumUpdate(before, x, before[x] + 1);
    }
  }

  lemma SharesAddUp(es: seq<Backend>, m: nat)
    requires Prime(m) && MaxWeight(Weights(es)) > 0
    ensures Sum(Shares(es, m)) == m
  {
    hide Sum, MaxWeight, Prime, MaglevTable;
    CountsAddUp(MaglevTable(es, m), |es|);
    assert Shares(es, m) == Counted(MaglevTable(es, m), |es|);
  }

  /** `c_i * w_j - c_j * w_i` for every `j`. */
  function Cross(c: seq<int>, w: seq<int>, i: nat): (x: seq<int>)
    requires |c| == |w| && i < |c|
    ensures |x| == |c|
    ensures forall j :: 0 <= j < |x| ==> x[j] == c[i] * w[j] - c[j] * w[i]
  {
    seq(|c|, j requires 0 <= j < |c| => c[i] * w[j] - c[j] * w[i])
  }

  lemma {:induction false} LinearSum(c: seq<int>, w: seq<int>, a: int, b: int, x: seq<int>)
    requires |c| == |w| == |x|
    requires forall j :: 0 <= j < |x| ==> x[j] == a * w[j] - c[j] * b
    ensures Sum(x) == a * Sum(w) - b * Sum(c)
  {
    if x != [] {
      var n := |x| - 1;
      LinearSum(c[..n], w[..n], a, b, x[..n]);
      assert a * (Sum(w[..n]) + w[n]) == a * Sum(w[..n]) + a * w[n];
      assert b * (Sum(c[..n]) + c[n]) == b * Sum(c[..n]) + b * c[n];
    }
  }

  lemma {:induction false} SumBetween(x: seq<int>, b: seq<int>)
    requires |x| == |b|
    requires forall j :: 0 <= j < |x| ==> -b[j] <= x[j] <= b[j]
    ensures -Sum(b) <= Sum(x) <= Sum(b)
  {
    if x != [] { SumBetween(x[..|x| - 1], b[..|b| - 1]); }
  }

  /** The most that the comparisons with the other backends can add up to. */
  function Slack(w: seq<int>, i: nat): (b: seq<int>)
    requires i < |w|
    ensures |b| == |w| && b[i] == 0
    ensures forall j :: 0 <= j < |w| && j != i ==> b[j] == w[i] + w[j] - 1
  {
    seq(|w|, j requires 0 <= j < |w| => if j == i then 0 else w[i] + w[j] - 1)
  }

  lemma SlackSum(w: seq<int>, i: nat)
    requires i < |w|
    ensures Sum(Slack(w, i)) == (|w| - 1) * (w[i] - 1) + Sum(w) - w[i]
  {
    hide Sum;
    var full := seq(|w|, j requires 0 <= j < |w| => w[i] + w[j] - 1);
    PlusConstant(w, w[i] - 1, full);
    SumUpdate(full, i, 0);
    assert full[i := 0] == Slack(w, i);
    OneFewer(|w|, w[i] - 1);
  }

  lemma OneFewer(n: nat, k: int)
    ensures n * k == (n - 1) * k + k
  {
  }

  lemma {:induction false} PlusConstant(w: seq<int>, k: int, x: seq<int>)
    requires |x| == |w| && forall j :: 0 <= j < |w| ==> x[j] == w[j] + k
    ensures Sum(x) == Sum(w) + |w| * k
  {
    if w != [] {
      var n := |w| - 1;
      PlusConstant(w[..n], k, x[..n]);
      assert (n + 1) * k == n * k + k;
    }
  }

  /** Two counts about in proportion to their weights. */
  predicate Near(ci: int, wi: int, cj: int, wj: int) {
    -(wi + wj) < ci * wj - cj * wi < wi + wj
  }

  lemma ProportionalBound(c: seq<int>, w: seq<int>, i: nat)
    requires |c| == |w| && i < |c|
    requires forall j :: 0 <= j < |c| && j != i ==> Near(c[i], w[i], c[j], w[j])
    ensures var slack := (|w| - 1) * (w[i] - 1) + Sum(w) - w[i];
            -slack <= c[i] * Sum(w) - w[i] * Sum(c) <= slack
  {
    hide Sum;
    var x, b := Cross(c, w, i), Slack(w, i);
    SumBetween(x, b);
    SlackSum(w, i);
    LinearSum(c, w, c[i], w[i], x);
  }

  /** A count about `r - 1` times the part `w / max` of a turn. */
  predicate AboutRounds(max: int, c: int, w: int, r: int) {
    (r - 2) * w < max * c <= (r - 1) * w + max
  }

  lemma {:induction false} CountBetween(w: nat, max: nat, r: nat, rj: nat)
    requires 0 < w <= max && r - 1 <= rj <= r
    ensures AboutRounds(max, Turns(w, max, rj), w, r)
  {
    hide Turns;
    TurnsBetween(w, max, rj);
    Arithmetic.MulMonotone(w, r - 2, rj - 1);
    Arithmetic.MulMonotone(w, rj - 1, r - 1);
  }

  lemma SharesAboutRounds(es: seq<Backend>, m: nat) returns (r: int)
    requires Prime(m) && MaxWeight(Weights(es)) > 0 && forall j :: 0 <= j < |es| ==> es[j].weight > 0
    ensures forall j :: 0 <= j < |es| ==> AboutRounds(MaxWeight(Weights(es)), Shares(es, m)[j], Weights(es)[j], r)
  {
    hide AboutRounds, MaxWeight, Prime, Owned, TurnOrder, Rounds, RoundTurns, Turns;
    var last, k := OwnedIsTurns(es, m);
    r := last;
    forall j | 0 <= j < |es|
      ensures AboutRounds(MaxWeight(Weights(es)), Shares(es, m)[j], Weights(es)[j], r)
    {
      WeightBound(es, j);
      CountBetween(es[j].weight, MaxWeight(Weights(es)), last, if j < k then last else last - 1);
    }
  }

  /** Termwise more, more in all. */
  lemma {:induction false} MoreInAll(c: seq<int>, w: seq<int>, a: int, b: int)
    requires |c| == |w| > 0 && forall j :: 0 <= j < |c| ==> AboutRounds(a, c[j], w[j], b + 2)
    ensures a * Sum(c) > b * Sum(w)
  {
    var n := |c| - 1;
    if n == 0 {
      assert Sum(c[..0]) == 0 && Sum(w[..0]) == 0;
    } else {
      MoreInAll(c[..n], w[..n], a, b);
    }
    assert a * (Sum(c[..n]) + c[n]) == a * Sum(c[..n]) + a * c[n];
    assert b * (Sum(w[..n]) + w[n]) == b * Sum(w[..n]) + b * w[n];
  }

  lemma OvershootArithmetic(max: int, ci: int, wi: int, r: int, total: int, m: int)
    requires wi > 0 && total > 0
    requires max * ci <= (r - 1) * wi + max && max * m > (r - 2) * total
    ensures max * (ci * total - wi * m) < (wi + max) * total
  {
    var x, y := max * ci, max * m;
    Arithmetic.MulMonotone(total, x, (r - 1) * wi + max);
    Arithmetic.MulMonotone(wi, (r - 2) * total + 1, y);
    Expanded(max, wi, r, total);
    assert max * (ci * total - wi * m) == total * x - wi * y by { Regrouped(max, ci, wi, total, m); }
  }

  lemma Expanded(max: int, wi: int, r: int, total: int)
    ensures total * ((r - 1) * wi + max) - wi * ((r - 2) * total + 1) == (wi + max) * total - wi
  {
    var z := (r - 2) * wi;
    assert (r - 1) * wi == z + wi;
    assert wi * ((r - 2) * total) == total * z;
    assert total * (z + wi + max) == total * z + (wi + max) * total;
  }

  lemma Regrouped(max: int, ci: int, wi: int, total: int, m: int)
    ensures max * (ci * total - wi * m) == total * (max * ci) - wi * (max * m)
  {
  }

  /** No backend is ahead of its proportional share `m * w_i / W` by `1 + w_i / max` slots, so never by
      two, however many backends there are. */
  lemma BelowTwoSlotsAhead(es: seq<Backend>, m: nat, i: nat)
    requires Prime(m) && i < |es| && forall j :: 0 <= j < |es| ==> es[j].weight > 0
    ensures var max := MaxWeight(Weights(es));
            && 0 < es[i].weight <= max
            && max * (Owned(es, m, i) * Sum(Weights(es)) - es[i].weight * m) < (es[i].weight + max) * Sum(Weights(es))
            && (Owned(es, m, i) - 2) * Sum(Weights(es)) < es[i].weight * m
  {
    hide Sum, MaxWeight, Prime, Owned, AboutRounds;
    WeightBound(es, i);
    var ws: seq<int> := Weights(es);
    var max, c: seq<int> := MaxWeight(Weights(es)), Shares(es, m);
    var r := SharesAboutRounds(es, m);
    MoreInAll(c, ws, max, r - 2);
    SharesAddUp(es, m);
    SumPositive(Weights(es));
    assert AboutRounds(max, c[i], ws[i], r);
    Overshoot(max, c[i], ws[i], r, Sum(ws), m);
  }

  lemma Overshoot(max: int, ci: int, wi: int, r: int, total: int, m: int)
    requires 0 < wi <= max && total > 0 && AboutRounds(max, ci, wi, r) && max * m > (r - 2) * total
    ensures max * (ci * total - wi * m) < (wi + max) * total
    ensures (ci - 2) * total < wi * m
  {
    OvershootArithmetic(max, ci, wi, r, total, m);
    TwoSlots(max, ci, wi, total, m);
  }

  lemma WeightBound(es: seq<Backend>, j: nat)
    requires j < |es|
    ensures es[j].weight <= MaxWeight(Weights(es))
  {
    assert Weights(es)[j] <= MaxWeight(Weights(es));
  }

  lemma TwoSlots(max: int, ci: int, wi: int, total: int, m: int)
    requires 0 < wi <= max && total > 0
    requires max * (ci * total - wi * m) < (wi + max) * total
    ensures (ci - 2) * total < wi * m
  {
    Arithmetic.MulMonotone(total, wi + max, 2 * max);
    if (ci - 2) * total >= wi * m {
      assert ci * total - wi * m >= 2 * total;
      Arithmetic.MulMonotone(max, 2 * total, ci * total - wi * m);
    }
  }

  /** Nor behind it by more than one slot plus `(n - 2) * w_i / W`; the same bounds it above, which is
      sharper for light backends. */
  lemma NearProportional(es: seq<Backend>, m: nat, i: nat)
    requires Prime(m) && i < |es| && forall j :: 0 <= j < |es| ==> es[j].weight > 0
    ensures MaxWeight(Weights(es)) > 0
    ensures var ws: seq<int> := Weights(es);
            var slack := (|ws| - 1) * (ws[i] - 1) + Sum(ws) - ws[i];
            -slack <= Owned(es, m, i) * Sum(ws) - ws[i] * m <= slack
  {
    var ws: seq<int> := Weights(es);
    hide Sum, MaxWeight, Prime, Owned, Near;
    WeightBound(es, i);
    var c: seq<int> := Shares(es, m);
    forall j | 0 <= j < |es| && j != i ensures Near(c[i], ws[i], c[j], ws[j]) {
      SharesAreNear(es, m, i, j);
    }
    ProportionalBound(c, ws, i);
    SharesAddUp(es, m);
  }

  lemma SharesAreNear(es: seq<Backend>, m: nat, i: nat, j: nat)
    requires Prime(m) && i < |es| && j < |es| && i != j && es[i].weight > 0 && es[j].weight > 0
    requires MaxWeight(Weights(es)) > 0
    ensures Near(Owned(es, m, i), es[i].weight, Owned(es, m, j), es[j].weight)
  {
    hide MaxWeight, Prime, Owned;
    SharesFollowWeights(es, m, i, j);
  }

  lemma WithinOneSlot(w: nat, x: int, y: int)
    requires w > 0 && -(w + w) < x * w - y * w < w + w
    ensures -1 <= x - y <= 1
  {
    assert (x - y) * w == x * w - y * w;
    if x - y >= 2 { Arithmetic.MulMonotone(w, 2, x - y); }
    if x - y <= -2 { Arithmetic.MulMonotone(w, x - y, -2); }
  }

  lemma EqualWeightsWithinOne(es: seq<Backend>, m: nat, w: nat, i: nat, j: nat)
    requires Prime(m) && i < |es| && j < |es| && w > 0 && es[i].weight == es[j].weight == w
    requires MaxWeight(Weights(es)) > 0
    ensures -1 <= Owned(es, m, i) - Owned(es, m, j) <= 1
  {
    hide MaxWeight, Prime, Owned;
    SharesFollowWeights(es, m, i, j);
    WithinOneSlot(w, Owned(es, m, i), Owned(es, m, j));
  }

  lemma EqualWeightsSpread(es: seq<Backend>, m: nat, w: nat, i: nat)
    requires Prime(m) && i < |es| && w > 0 && forall j :: 0 <= j < |es| ==> es[j].weight == w
    ensures MaxWeight(Weights(es)) > 0
    ensures -(|es| - 1) <= Owned(es, m, i) * |es| - m <= |es| - 1
  {
    assert Weights(es)[i] <= MaxWeight(Weights(es));
    hide Sum, MaxWeight, Prime, Owned;
    var c: seq<int> := Shares(es, m);
    forall j | 0 <= j < |es| ensures -1 <= c[i] - c[j] <= 1 {
      EqualWeightsWithinOne(es, m, w, i, j);
    }
    SharesAddUp(es, m);
    EvenSpread(c, i);
  }

  /** Equal weights are the unweighted algorithm: every backend owns floor or ceil of `m / n`. */
  lemma EqualWeightsBalance(es: seq<Backend>, m: nat, w: nat, i: nat)
    requires Prime(m) && i < |es| && w > 0 && forall j :: 0 <= j < |es| ==> es[j].weight == w
    ensures MaxWeight(Weights(es)) > 0
    ensures m / |es| <= Owned(es, m, i) <= (m + |es| - 1) / |es|
  {
    hide MaxWeight, Prime, Owned;
    EqualWeightsSpread(es, m, w, i);
    FloorOrCeil(m, |es|, Owned(es, m, i));
  }

  lemma EvenSpread(c: seq<int>, i: nat)
    requires i < |c| && forall j :: 0 <= j < |c| ==> -1 <= c[i] - c[j] <= 1
    ensures -(|c| - 1) <= c[i] * |c| - Sum(c) <= |c| - 1
  {
    hide Sum;
    var ones := seq(|c|, _ => 1);
    var x, b := Cross(c, ones, i), ones[i := 0];
    assert forall j :: 0 <= j < |c| ==> x[j] == c[i] - c[j];
    SumBetween(x, b);
    SumOnes(ones);
    SumUpdate(ones, i, 0);
    LinearSum(c, ones, c[i], 1, x);
  }

  lemma SumOnes(ones: seq<int>)
    requires forall j :: 0 <= j < |ones| ==> ones[j] == 1
    ensures Sum(ones) == |ones|
  {
  }

  lemma FloorOrCeil(m: nat, n: nat, c: nat)
    requires n > 0 && -(n - 1) <= c * n - m <= n - 1
    ensures m / n <= c <= (m + n - 1) / n
  {
    var q, r := m / n, m % n;
    assert m == q * n + r;
    assert n * (c + 1) == c * n + n;
    if c < q { Arithmetic.MulMonotone(n, c + 1, q); }
    var u := (m + n - 1) / n;
    assert m + n - 1 == u * n + (m + n - 1) % n;
    assert n * (u + 1) == u * n + n;
    if c > u { Arithmetic.MulMonotone(n, u + 1, c); }
  }

  // ---------------------------------------------------------------- what the shares mean for keys

  function One(b: bool): nat {
    if b then 1 else 0
  }

  /** How many of the `n` key hashes from `from` on are sent to instance `i`. */
  function SentTo(table: seq<nat>, i: nat, from: nat, n: nat): nat {
    if n == 0 then 0
    else SentTo(table, i, from, n - 1) + One(Lookup(table, from + n - 1) == Some(i))
  }

  /** Only the remainder of a key hash counts. */
  lemma SameRemainderSameInstance(table: seq<nat>, a: nat, b: nat)
    requires table != [] ==> a % |table| == b % |table|
    ensures Lookup(table, a) == Lookup(table, b)
  {
  }

  lemma LookupAt(table: seq<nat>, c: nat)
    requires c < |table|
    ensures Lookup(table, c) == Some(table[c]) == Lookup(table, c + |table|)
  {
    Arithmetic.DivModUnique(c, |table|, 0, c);
    Arithmetic.ModShift(c, |table|, 1);
  }

  lemma {:induction false} SentFromZero(table: seq<nat>, i: nat, n: nat)
    requires n <= |table|
    ensures SentTo(table, i, 0, n) == multiset(table[..n])[i]
  {
    hide Lookup;
    if n > 0 {
      var l := n - 1;
      SentFromZero(table, i, l);
      LookupAt(table, l);
      assert table[..n] == table[..l] + [table[l]];
      CountAppend(table[..l], table[l], i);
    }
  }

  lemma {:induction false} SentSlides(table: seq<nat>, i: nat, from: nat, n: nat)
    ensures SentTo(table, i, from + 1, n) + One(Lookup(table, from) == Some(i))
         == SentTo(table, i, from, n) + One(Lookup(table, from + n) == Some(i))
  {
    hide Lookup, One;
    if n > 0 {
      var l := n - 1;
      SentSlides(table, i, from, l);
      assert from + 1 + n - 1 == from + n && from + l == from + n - 1;
    }
  }

  /** Of any `|table|` key hashes in a row each slot gets exactly one. */
  lemma {:induction false} KeysMeetEverySlot(table: seq<nat>, i: nat, from: nat)
    requires table != []
    ensures SentTo(table, i, from, |table|) == multiset(table)[i]
  {
    hide Lookup, One;
    if from == 0 {
      SentFromZero(table, i, |table|);
      assert table[..|table|] == table;
    } else {
      var f := from - 1;
      KeysMeetEverySlot(table, i, f);
      SentSlides(table, i, f, |table|);
      Arithmetic.ModShift(f, |table|, 1);
      SameRemainderSameInstance(table, f, f + |table|);
    }
  }

  /** Of any `m` key hashes in a row, exactly the slots a backend owns are sent to it. */
  lemma KeysFollowSlots(es: seq<Backend>, m: nat, table: seq<nat>, i: nat, from: nat)
    requires Prime(m) && MaxWeight(Weights(es)) > 0 && i < |es| && table == MaglevTable(es, m)
    ensures SentTo(table, i, from, m) == Owned(es, m, i)
  {
    hide MaxWeight, Prime, MaglevTable, SentTo;
    assert table != [] by { MaglevNotEmpty(m); }
    KeysMeetEverySlot(table, i, from);
    assert forall x: nat :: multiset(table)[x] == multiset(MaglevTable(es, m))[x] by { SameCounts(table, MaglevTable(es, m)); }
  }

  lemma MaglevNotEmpty(m: nat)
    requires Prime(m)
    ensures m > 0
  {
  }

  lemma SameCounts(table: seq<nat>, t: seq<int>)
    requires table == t
    ensures forall x: nat :: multiset(table)[x] == multiset(t)[x]
  {
  }

  /** So the requests themselves follow the weights: among any `m` key hashes in a row the numbers sent
      to two backends are in proportion to their weights, up to less than one turn of each. */
  lemma KeysFollowWeights(es: seq<Backend>, m: nat, table: seq<nat>, i: nat, j: nat, from: nat)
    requires Prime(m) && i < |es| && j < |es| && es[i].weight > 0 && es[j].weight > 0
    requires MaxWeight(Weights(es)) > 0 && table == MaglevTable(es, m)
    ensures var ci, cj := SentTo(table, i, from, m), SentTo(table, j, from, m);
            -(es[i].weight + es[j].weight) < ci * es[j].weight - cj * es[i].weight < es[i].weight + es[j].weight
  {
    hide MaxWeight, Prime, MaglevTable, SentTo, Owned;
    KeysFollowSlots(es, m, table, i, from);
    KeysFollowSlots(es, m, table, j, from);
    SharesFollowWeights(es, m, i, j);
  }
}
