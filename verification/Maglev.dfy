/** The weighted Maglev table: backends take turns claiming their most-preferred empty slot. */
module Maglev {
  import Arithmetic
  import opened Permutation
  import opened MaglevTurns
  import opened Wrappers
  import opened Words

  /** What the manifest guarantees: prime table sizes stay below this. */
  const MAX_TABLE := 5_000_011

  /** A backend: its weight and the two hashes of its name. */
  datatype Backend = Backend(weight: nat, h1: nat, h2: nat)

  function Weights(es: seq<Backend>): (ws: seq<nat>)
    ensures |ws| == |es|
    ensures forall i :: 0 <= i < |es| ==> ws[i] == es[i].weight
  {
    seq(|es|, i requires 0 <= i < |es| => es[i].weight)
  }

  function SkipOf(e: Backend, m: nat): (s: nat)
    requires m >= 2
    ensures 0 < s < m
  {
    e.h2 % (m - 1) + 1
  }

  /** The `j`-th slot in the backend's order of preference. */
  function Preferred(e: Backend, m: nat, j: nat): (c: nat)
    requires m >= 2
    ensures c < m
  {
    Slot(e.h1 % m, SkipOf(e, m), m, j)
  }

  lemma SkipOnce(x: nat, s: nat, m: nat)
    requires m > 0
    ensures (x + s) % m == (x % m + s) % m
  {
    Arithmetic.ModShift(x % m + s, m, x / m);
  }

  /** The order of preference: the first slot is the remainder of one hash, and each next one is a fixed
      number of slots on, one more than the remainder of the other by `m - 1`. */
  lemma PreferenceOrder(e: Backend, m: nat, j: nat)
    requires m >= 2
    ensures Preferred(e, m, 0) == e.h1 % m
    ensures var l := j + 1; Preferred(e, m, l) == (Preferred(e, m, j) + 1 + e.h2 % (m - 1)) % m
  {
    var o, s := e.h1 % m, SkipOf(e, m);
    Arithmetic.DivModUnique(o, m, 0, o);
    assert (j + 1) * s == j * s + s;
    SkipOnce(o + j * s, s, m);
  }

  /** Two backends prefer the slots in the same order exactly if their hashes agree in those two
      remainders. */
  lemma SameOrderIff(e: Backend, f: Backend, m: nat)
    requires m >= 2
    ensures (forall j: nat :: Preferred(e, m, j) == Preferred(f, m, j)) <==>
            e.h1 % m == f.h1 % m && e.h2 % (m - 1) == f.h2 % (m - 1)
  {
    hide Preferred;
    var one: nat := 1;
    PreferenceOrder(e, m, 0);
    PreferenceOrder(f, m, 0);
    if forall j: nat :: Preferred(e, m, j) == Preferred(f, m, j) {
      assert Preferred(e, m, 0) == Preferred(f, m, 0) && Preferred(e, m, one) == Preferred(f, m, one);
      SameSkip(e.h1 % m, 1 + e.h2 % (m - 1), 1 + f.h2 % (m - 1), m);
    }
    if e.h1 % m == f.h1 % m && e.h2 % (m - 1) == f.h2 % (m - 1) {
      forall j: nat ensures Preferred(e, m, j) == Preferred(f, m, j) {
        SameOrder(e, f, m, j);
      }
    }
  }

  lemma SameOrder(e: Backend, f: Backend, m: nat, j: nat)
    requires m >= 2 && e.h1 % m == f.h1 % m && e.h2 % (m - 1) == f.h2 % (m - 1)
    ensures Preferred(e, m, j) == Preferred(f, m, j)
  {
  }

  lemma SameSkip(o: nat, s: nat, t: nat, m: nat)
    requires o < m && 0 < s < m && 0 < t < m && (o + s) % m == (o + t) % m
    ensures s == t
  {
    Arithmetic.DivModUnique(o + s, m, if o + s < m then 0 else 1, if o + s < m then o + s else o + s - m);
    Arithmetic.DivModUnique(o + t, m, if o + t < m then 0 else 1, if o + t < m then o + t else o + t - m);
  }

  /** The rank of the backend's most-preferred empty slot, from rank `j` on. */
  function FirstEmpty(t: seq<int>, e: Backend, m: nat, j: nat): (r: nat)
    requires m >= 2 && |t| == m
    requires exists k :: j <= k < m && t[Preferred(e, m, k)] < 0
    ensures j <= r < m && t[Preferred(e, m, r)] < 0
    ensures forall k :: j <= k < r ==> t[Preferred(e, m, k)] >= 0
    decreases m - j
  {
    hide Preferred;
    if t[Preferred(e, m, j)] < 0 then j else FirstEmpty(t, e, m, j + 1)
  }

  predicate HasEmpty(t: seq<int>) {
    exists c :: 0 <= c < |t| && t[c] < 0
  }

  /** Some rank always leads to an empty slot while there is one. */
  lemma EmptyIsPreferred(t: seq<int>, e: Backend, m: nat)
    requires Prime(m) && |t| == m && HasEmpty(t)
    ensures exists k :: 0 <= k < m && t[Preferred(e, m, k)] < 0
  {
    var c :| 0 <= c < |t| && t[c] < 0;
    var j := EverySlotIsReached(m, e.h1 % m, SkipOf(e, m), c);
    assert Preferred(e, m, j) == c;
  }

  /** One turn of backend `i`. */
  ghost function Claim(t: seq<int>, es: seq<Backend>, m: nat, i: nat): (t': seq<int>)
    requires Prime(m) && |t| == m && i < |es| && HasEmpty(t)
    ensures |t'| == m
  {
    EmptyIsPreferred(t, es[i], m);
    t[Preferred(es[i], m, FirstEmpty(t, es[i], m, 0)) := i]
  }

  /** One claim takes one empty slot for its backend. */
  lemma ClaimTakesOne(t: seq<int>, es: seq<Backend>, m: nat, i: nat)
    requires Prime(m) && |t| == m && i < |es| && HasEmpty(t)
    requires forall c :: 0 <= c < m ==> t[c] == -1 || 0 <= t[c] < |es|
    ensures var t' := Claim(t, es, m, i);
            && (forall c :: 0 <= c < m ==> t'[c] == -1 || 0 <= t'[c] < |es|)
            && multiset(t')[-1] == multiset(t)[-1] - 1
            && (forall x: nat :: multiset(t')[x] == multiset(t)[x] + if x == i then 1 else 0)
  {
    hide Preferred;
    EmptyIsPreferred(t, es[i], m);
    ClaimCounts(t, Preferred(es[i], m, FirstEmpty(t, es[i], m, 0)), i);
  }

  lemma TurnCounts(turns: seq<nat>)
    requires turns != []
    ensures var n := |turns| - 1;
            forall x: nat :: multiset(turns)[x] == multiset(turns[..n])[x] + if x == turns[n] then 1 else 0
  {
    LastTurn(turns);
  }

  /** The table after the given turns: the published fill, one claim per turn. */
  ghost function Fill(es: seq<Backend>, m: nat, turns: seq<nat>): (t: seq<int>)
    requires Prime(m) && |turns| <= m && forall x :: x in turns ==> x < |es|
    ensures |t| == m
    ensures forall c :: 0 <= c < m ==> t[c] == -1 || 0 <= t[c] < |es|
    ensures multiset(t)[-1] == m - |turns|
    ensures forall i: nat :: multiset(t)[i] == multiset(turns)[i]
  {
    hide Claim, Prime;
    if turns == [] then Empties(m)
    else
      var n := |turns| - 1;
      LastTurn(turns);
      TurnCounts(turns);
      assert forall x :: x in turns[..n] ==> x in turns;
      var t := Fill(es, m, turns[..n]);
      StillEmpty(t);
      ClaimTakesOne(t, es, m, turns[n]);
      Claim(t, es, m, turns[n])
  }

  function Empties(m: nat): (t: seq<int>)
    ensures |t| == m && multiset(t)[-1] == m
    ensures forall c :: 0 <= c < m ==> t[c] == -1
    ensures forall i: nat :: multiset(t)[i] == 0
  {
    if m == 0 then [] else Empties(m - 1) + [-1]
  }

  lemma StillEmpty(t: seq<int>)
    requires multiset(t)[-1] > 0
    ensures HasEmpty(t)
  {
    assert -1 in t;
  }

  lemma LastTurn(turns: seq<nat>)
    requires turns != []
    ensures multiset(turns) == multiset(turns[..|turns| - 1]) + multiset{turns[|turns| - 1]}
    ensures forall x :: x in turns[..|turns| - 1] ==> x in turns
    ensures turns[|turns| - 1] in turns
  {
    assert turns == turns[..|turns| - 1] + [turns[|turns| - 1]];
  }

  lemma ClaimCounts(t: seq<int>, c: nat, i: nat)
    requires c < |t| && t[c] == -1
    ensures multiset(t[c := i])[-1] == multiset(t)[-1] - 1
    ensures multiset(t[c := i])[i] == multiset(t)[i] + 1
    ensures forall x: nat :: x != i ==> multiset(t[c := i])[x] == multiset(t)[x]
  {
    assert multiset(t[c := i]) == multiset(t) - multiset{t[c]} + multiset{i};
  }

  // ---------------------------------------------------------------- the nested loops

  /** The ranks below `next[i]` are known to be taken. */
  ghost predicate Probed(es: seq<Backend>, m: nat, next: seq<nat>, t: seq<int>)
    requires m >= 2
  {
    && |next| == |es| && |t| == m
    && forall i, j :: 0 <= i < |es| && 0 <= j < next[i] ==> t[Preferred(es[i], m, j)] >= 0
  }

  /** Each backend's running target, `k` backends into round `r`. */
  ghost predicate OnTarget(ws: seq<nat>, max: nat, target: seq<nat>, r: nat, k: nat)
    requires max > 0 && r > 0
  {
    && |target| == |ws|
    && forall i :: 0 <= i < |ws| && ws[i] > 0 ==>
         target[i] == ws[i] + max * Turns(ws[i], max, if i < k then r else r - 1)
  }

  /** The position arithmetic on 64-bit words agrees with the unbounded one. */
  function ProbeAt(e: Backend, m: nat, next: nat): (c: nat)
    requires 2 <= m <= MAX_TABLE && next <= m
    ensures c == Preferred(e, m, next)
  {
    NoWrap(next, SkipOf(e, m), m);
    (e.h1 % m + (next * SkipOf(e, m)) % U64) % m
  }

  lemma NoWrap(next: nat, skip: nat, m: nat)
    requires next <= m <= MAX_TABLE && skip < m
    ensures (next * skip) % U64 == next * skip
  {
    Arithmetic.MulMonotone(next, skip, m);
    Arithmetic.MulMonotone(m, next, m);
    Arithmetic.MulMonotone(m, m, MAX_TABLE);
    Arithmetic.DivModUnique(next * skip, U64, 0, next * skip);
  }

  /** Rank `r` leads to an empty slot, and every better rank to a taken one. */
  ghost predicate MostPreferredEmpty(t: seq<int>, e: Backend, m: nat, r: nat)
    requires m >= 2 && |t| == m
  {
    t[Preferred(e, m, r)] < 0 && forall k :: 0 <= k < r ==> t[Preferred(e, m, k)] >= 0
  }

  /** The inner loop: probe from the remembered rank for an empty slot, and claim it. */
  method ProbeAndClaim(es: seq<Backend>, m: nat, i: nat, next: array<nat>, entry: array<int>)
    requires Prime(m) && m <= MAX_TABLE && i < |es|
    requires next.Length == |es| && entry.Length == m
    requires Probed(es, m, next[..], entry[..]) && HasEmpty(entry[..])
    modifies next, entry
    ensures entry[..] == Claim(old(entry[..]), es, m, i)
    ensures exists r :: 0 <= r < m && MostPreferredEmpty(old(entry[..]), es[i], m, r)
                        && entry[..] == old(entry[..])[Preferred(es[i], m, r) := i]
    ensures Probed(es, m, next[..], entry[..])
  {
    hide Preferred, SkipOf;
    ghost var t, ranks := entry[..], next[..];
    EmptyIsPreferred(t, es[i], m);
    ghost var first := FirstEmpty(t, es[i], m, 0);
    assert MostPreferredEmpty(t, es[i], m, first);
    var c := ProbeAt(es[i], m, next[i]);
    while entry[c] >= 0
      invariant next[i] <= first && c == Preferred(es[i], m, next[i])
      invariant entry[..] == t && next[..] == ranks[i := next[i]]
      decreases m - next[i]
    {
      next[i] := next[i] + 1;
      c := ProbeAt(es[i], m, next[i]);
    }
    entry[c] := i;
    next[i] := next[i] + 1;
    ClaimKeepsProbed(es, m, ranks, t, i, first);
  }

  lemma ClaimKeepsProbed(es: seq<Backend>, m: nat, next: seq<nat>, t: seq<int>, i: nat, first: nat)
    requires m >= 2 && Probed(es, m, next, t) && i < |es| && first < m
    requires forall j :: 0 <= j < first ==> t[Preferred(es[i], m, j)] >= 0
    ensures Probed(es, m, next[i := first + 1], t[Preferred(es[i], m, first) := i])
  {
    hide Preferred;
  }

  /** The state `k` backends into round `r`, after the given turns. */
  ghost predicate Reached(es: seq<Backend>, m: nat, r: nat, k: nat, turns: seq<nat>,
                          target: seq<nat>, next: seq<nat>, entry: seq<int>)
    requires Prime(m) && MaxWeight(Weights(es)) > 0 && r > 0
  {
    var ws := Weights(es);
    var max := MaxWeight(ws);
    && k <= |es| == |target| == |next| && |turns| <= m == |entry|
    && (forall x :: x in turns ==> x < |es|)
    && turns == Rounds(ws, max, r - 1) + RoundTurns(ws, max, r, k)
    && OnTarget(ws, max, target, r, k)
    && Probed(es, m, next, entry)
    && entry == Fill(es, m, turns)
  }

  lemma TurnSkipped(es: seq<Backend>, m: nat, r: nat, k: nat, turns: seq<nat>,
                    target: seq<nat>, next: seq<nat>, entry: seq<int>)
    requires Prime(m) && MaxWeight(Weights(es)) > 0 && r > 0 && k < |es|
    requires Reached(es, m, r, k, turns, target, next, entry)
    requires es[k].weight == 0 || r * es[k].weight < target[k]
    ensures Reached(es, m, r, k + 1, turns, target, next, entry)
  {
    hide Probed, Fill, Turns, Rounds, Takes, MaxWeight;
    var ws := Weights(es);
    var max := MaxWeight(ws);
    if ws[k] > 0 { TargetDecides(ws[k], max, r, target[k]); } else { NeverTakes(max, r); }
    TurnStep(ws[k], max, r);
    assert RoundTurns(ws, max, r, k + 1) == RoundTurns(ws, max, r, k);
  }

  lemma NeverTakes(max: nat, r: nat)
    requires max > 0 && r > 0
    ensures !Takes(0, max, r)
  {
  }

  lemma TurnTaken(es: seq<Backend>, m: nat, r: nat, k: nat, turns: seq<nat>,
                  target: seq<nat>, next: seq<nat>, entry: seq<int>, next': seq<nat>)
    requires Prime(m) && MaxWeight(Weights(es)) > 0 && r > 0 && k < |es|
    requires Reached(es, m, r, k, turns, target, next, entry) && |turns| < m && HasEmpty(entry)
    requires es[k].weight > 0 && r * es[k].weight >= target[k]
    requires |next'| == |es| && Probed(es, m, next', Claim(entry, es, m, k))
    ensures Reached(es, m, r, k + 1, turns + [k], target[k := target[k] + MaxWeight(Weights(es))],
                    next', Claim(entry, es, m, k))
  {
    hide Probed, Turns, Rounds, RoundTurns, Takes, MaxWeight, Claim, OnTarget, Fill, Prime;
    var ws := Weights(es);
    var max := MaxWeight(ws);
    TargetAdvanced(ws, max, r, k, target);
    assert turns + [k] == Rounds(ws, max, r - 1) + RoundTurns(ws, max, r, k + 1);
    FilledOnce(es, m, turns, k);
  }

  lemma TargetAdvanced(ws: seq<nat>, max: nat, r: nat, k: nat, target: seq<nat>)
    requires max > 0 && r > 0 && k < |ws| && 0 < ws[k] <= max && OnTarget(ws, max, target, r, k)
    requires r * ws[k] >= target[k]
    ensures OnTarget(ws, max, target[k := target[k] + max], r, k + 1)
    ensures RoundTurns(ws, max, r, k + 1) == RoundTurns(ws, max, r, k) + [k]
  {
    hide Turns, Takes;
    TargetDecides(ws[k], max, r, target[k]);
    TurnStep(ws[k], max, r);
    var t := Turns(ws[k], max, r - 1);
    assert max * (t + 1) == max * t + max;
  }

  lemma FilledOnce(es: seq<Backend>, m: nat, turns: seq<nat>, k: nat)
    requires Prime(m) && |turns| < m && k < |es| && forall x :: x in turns ==> x < |es|
    requires HasEmpty(Fill(es, m, turns))
    ensures forall x :: x in turns + [k] ==> x < |es|
    ensures Fill(es, m, turns + [k]) == Claim(Fill(es, m, turns), es, m, k)
  {
    hide Claim, Prime;
    assert (turns + [k])[..|turns|] == turns;
  }

  lemma RoomLeft(es: seq<Backend>, m: nat, turns: seq<nat>)
    requires Prime(m) && |turns| < m && forall x :: x in turns ==> x < |es|
    ensures HasEmpty(Fill(es, m, turns))
  {
    hide Fill;
    StillEmpty(Fill(es, m, turns));
  }

  lemma TurnsAtMostRounds(w: nat, max: nat, r: nat)
    requires 0 < w <= max
    ensures Turns(w, max, r) <= r
  {
    if r > 0 {
      Arithmetic.MulMonotone(r - 1, w, max);
      Arithmetic.DivModUnique((r - 1) * max, max, r - 1, 0);
      if ((r - 1) * w) / max >= r { AtLeastQuotient((r - 1) * w, max, r); }
    }
  }

  /** With 32-bit weights neither the product that decides a turn nor any running target, advanced
      once more, leaves a 64-bit word. */
  lemma WordsSuffice(ws: seq<nat>, target: seq<nat>, m: nat, r: nat, k: nat, i: nat)
    requires 0 < MaxWeight(ws) < U32 && 0 < r <= m <= MAX_TABLE && k <= |ws| && i < |ws| && ws[i] > 0
    requires OnTarget(ws, MaxWeight(ws), target, r, k)
    ensures |target| == |ws| && r * ws[i] < U64 && target[i] + MaxWeight(ws) < U64
  {
    hide Turns, MaxWeight;
    var max, u := MaxWeight(ws), if i < k then r else r - 1;
    TurnsAtMostRounds(ws[i], max, u);
    Arithmetic.MulMonotone(max, Turns(ws[i], max, u), MAX_TABLE);
    Arithmetic.MulMonotone(MAX_TABLE, max, U32);
    Arithmetic.MulMonotone(r, ws[i], U32);
    Arithmetic.MulMonotone(U32, r, MAX_TABLE);
  }

  lemma Unwrapped(x: nat)
    requires x < U64
    ensures x % U64 == x
  {
  }

  /** The inner body for backend `i`, on 64-bit words: not its turn, or one claim. */
  method OneTurn(es: seq<Backend>, m: nat, maxWeight: nat, round: nat, i: nat, target: array<nat>,
                 next: array<nat>, entry: array<int>, filled: nat, ghost turns: seq<nat>)
    returns (filled': nat, ghost turns': seq<nat>)
    requires Prime(m) && 0 < round <= m <= MAX_TABLE && i < |es| && filled == |turns| < m
    requires maxWeight == MaxWeight(Weights(es)) > 0 && maxWeight < U32
    requires target != next
    requires Reached(es, m, round, i, turns, target[..], next[..], entry[..])
    modifies target, next, entry
    ensures Reached(es, m, round, i + 1, turns', target[..], next[..], entry[..])
    ensures filled' == |turns'| <= m
  {
    hide MaxWeight, Claim, Fill, Probed, Preferred, Rounds, RoundTurns, OnTarget, Prime;
    ghost var target0, next0, entry0 := target[..], next[..], entry[..];
    if es[i].weight > 0 {
      WordsSuffice(Weights(es), target0, m, round, i, i);
      Unwrapped(round * es[i].weight);
      Unwrapped(target[i] + maxWeight);
    }
    if es[i].weight == 0 || (round * es[i].weight) % U64 < target[i] {
      TurnSkipped(es, m, round, i, turns, target0, next0, entry0);
      return filled, turns;
    }
    RoomLeft(es, m, turns);
    target[i] := (target[i] + maxWeight) % U64;
    ProbeAndClaim(es, m, i, next, entry);
    TurnTaken(es, m, round, i, turns, target0, next0, entry0, next[..]);
    return filled + 1, turns + [i];
  }

  /** One round: every backend whose turn it is claims a slot, until the table is full. */
  method OneRound(es: seq<Backend>, m: nat, maxWeight: nat, round: nat, target: array<nat>,
                  next: array<nat>, entry: array<int>, filled: nat, ghost turns: seq<nat>)
    returns (filled': nat, ghost turns': seq<nat>, ghost k: nat)
    requires Prime(m) && m <= MAX_TABLE && 0 < round <= m && filled < m
    requires maxWeight == MaxWeight(Weights(es)) > 0 && maxWeight < U32
    requires target != next && filled == |turns|
    requires Reached(es, m, round, 0, turns, target[..], next[..], entry[..])
    modifies target, next, entry
    ensures Reached(es, m, round, k, turns', target[..], next[..], entry[..])
    ensures filled' == |turns'| <= m && (filled' < m ==> k == |es|)
  {
    hide *;
    filled', turns', k := filled, turns, 0;
    var i := 0;
    while i < |es| && filled' < m
      invariant k == i <= |es| && filled' == |turns'| <= m
      invariant Reached(es, m, round, i, turns', target[..], next[..], entry[..])
    {
      filled', turns' := OneTurn(es, m, maxWeight, round, i, target, next, entry, filled', turns');
      i := i + 1;
      k := i;
    }
  }

  /** The reference: the first `m` turns of the weighted order, one claim each. */
  ghost function MaglevTable(es: seq<Backend>, m: nat): (t: seq<int>)
    requires Prime(m) && MaxWeight(Weights(es)) > 0
    ensures |t| == m
    ensures forall c :: 0 <= c < m ==> 0 <= t[c] < |es|
    ensures forall i: nat :: multiset(t)[i] == multiset(TurnOrder(Weights(es), m))[i]
  {
    hide Fill, TurnOrder, MaxWeight;
    var t := Fill(es, m, TurnOrder(Weights(es), m));
    assert forall c :: 0 <= c < m ==> t[c] in t;
    t
  }

  /** The narrowing cast of each entry. */
  function Narrowed(t: seq<int>): (r: seq<nat>)
    ensures |r| == |t|
    ensures (forall c :: 0 <= c < |t| ==> 0 <= t[c] < U16) ==> r == t
  {
    seq(|t|, c requires 0 <= c < |t| => t[c] % U16)
  }

  lemma StartReached(es: seq<Backend>, m: nat, next: seq<nat>, entry: seq<int>)
    requires Prime(m) && MaxWeight(Weights(es)) > 0
    requires |next| == |es| && forall i :: 0 <= i < |es| ==> next[i] == 0
    requires |entry| == m && forall c :: 0 <= c < m ==> entry[c] == -1
    ensures Reached(es, m, 1, 0, [], Weights(es), next, entry)
  {
    hide MaxWeight, Prime;
    assert entry == Empties(m);
  }

  lemma NextRound(es: seq<Backend>, m: nat, r: nat, turns: seq<nat>,
                  target: seq<nat>, next: seq<nat>, entry: seq<int>)
    requires Prime(m) && MaxWeight(Weights(es)) > 0 && r > 0
    requires Reached(es, m, r, |es|, turns, target, next, entry)
    ensures Reached(es, m, r + 1, 0, turns, target, next, entry)
    ensures |turns| >= r
  {
    hide MaxWeight, Prime, Fill, Turns, RoundTurns, Probed;
    var ws := Weights(es);
    RoundsGrow(ws, r);
    assert RoundTurns(ws, MaxWeight(ws), r + 1, 0) == [] by { FirstOfRound(ws, MaxWeight(ws), r + 1); }
    assert turns == Rounds(ws, MaxWeight(ws), r) + [];
  }

  lemma FirstOfRound(ws: seq<nat>, max: nat, r: nat)
    requires max > 0 && r > 0
    ensures RoundTurns(ws, max, r, 0) == []
  {
  }

  lemma Finished(es: seq<Backend>, m: nat, r: nat, k: nat, turns: seq<nat>,
                 target: seq<nat>, next: seq<nat>, entry: seq<int>)
    requires Prime(m) && MaxWeight(Weights(es)) > 0 && 0 < r <= m && |turns| == m
    requires Reached(es, m, r, k, turns, target, next, entry)
    ensures entry == MaglevTable(es, m)
  {
    hide MaxWeight, Prime, Fill, Turns, RoundTurns, Probed, OnTarget, Rounds, TurnOrder;
    StoppedRun(Weights(es), m, r, k);
  }

  method NewArrays(es: seq<Backend>, m: nat) returns (target: array<nat>, next: array<nat>, entry: array<int>)
    ensures fresh(target) && fresh(next) && fresh(entry) && target != next
    ensures target[..] == Weights(es)
    ensures next.Length == |es| && forall i :: 0 <= i < |es| ==> next[..][i] == 0
    ensures entry.Length == m && forall c :: 0 <= c < m ==> entry[..][c] == -1
  {
    target := new nat[|es|](i requires 0 <= i < |es| => es[i].weight);
    next := new nat[|es|](_ => 0);
    entry := new int[m](_ => -1);
  }

  /** Build the table: empty when no backend could ever take a turn, else every slot filled in the
      published order of turns. */
  method Build(es: seq<Backend>, m: nat) returns (table: seq<nat>)
    requires m < 2 || (Prime(m) && m <= MAX_TABLE)
    requires |es| < U16 && forall i :: 0 <= i < |es| ==> es[i].weight < U32
    ensures m < 2 || MaxWeight(Weights(es)) == 0 ==> table == []
    ensures m >= 2 && MaxWeight(Weights(es)) > 0 ==> table == MaglevTable(es, m)
  {
    var maxWeight := MaxWeight(Weights(es));
    if |es| == 0 || maxWeight == 0 || m < 2 {
      return [];
    }
    hide MaxWeight, Prime, MaglevTable, Empties;
    var entry := FillAll(es, m, maxWeight);
    table := Narrowed(entry[..]);
  }

  /** The outer loop. */
  method FillAll(es: seq<Backend>, m: nat, maxWeight: nat) returns (entry: array<int>)
    requires Prime(m) && m <= MAX_TABLE && maxWeight == MaxWeight(Weights(es)) > 0 && maxWeight < U32
    ensures fresh(entry) && entry[..] == MaglevTable(es, m)
  {
    assert m > 0;
    hide MaxWeight, Prime, Fill, Reached, MaglevTable, Empties;
    var target, next;
    target, next, entry := NewArrays(es, m);
    var filled, round := 0, 0;
    ghost var turns: seq<nat>, k: nat := [], 0;
    StartReached(es, m, next[..], entry[..]);
    while filled < m
      invariant filled == |turns| <= m && round <= |turns|
      invariant fresh(target) && fresh(next) && fresh(entry) && target != next
      invariant filled < m ==> Reached(es, m, round + 1, 0, turns, target[..], next[..], entry[..])
      invariant filled == m ==> round > 0 && Reached(es, m, round, k, turns, target[..], next[..], entry[..])
      decreases m - round
    {
      round := round + 1;
      filled, turns, k := OneRound(es, m, maxWeight, round, target, next, entry, filled, turns);
      if filled < m {
        NextRound(es, m, round, turns, target[..], next[..], entry[..]);
      }
    }
    Finished(es, m, round, k, turns, target[..], next[..], entry[..]);
  }

  /** A key's slot is its hash modulo the table length. */
  function Lookup(table: seq<nat>, keyHash: nat): (r: Option<nat>)
    ensures r.None? <==> table == []
    ensures r.Some? ==> r.value == table[keyHash % |table|] && r.value in table
  {
    if table == [] then None else Some(table[keyHash % |table|])
  }

  // ---------------------------------------------------------------- shares

  /** The slots backend `i` owns. */
  ghost function Owned(es: seq<Backend>, m: nat, i: nat): nat
    requires Prime(m) && MaxWeight(Weights(es)) > 0
  {
    multiset(MaglevTable(es, m))[i]
  }

  /** Where the first `m` turns stop: in round `r`, after its first `k` backends. */
  lemma {:induction false} RoundOfStop(ws: seq<nat>, m: nat, s: nat) returns (r: nat)
    requires MaxWeight(ws) > 0 && |Rounds(ws, MaxWeight(ws), s)| >= m > 0
    ensures 0 < r <= s
    ensures |Rounds(ws, MaxWeight(ws), r - 1)| < m <= |Rounds(ws, MaxWeight(ws), r)|
  {
    if |Rounds(ws, MaxWeight(ws), s - 1)| < m {
      r := s;
    } else {
      r := RoundOfStop(ws, m, s - 1);
    }
  }

  lemma {:induction false} CutRound(ws: seq<nat>, max: nat, r: nat, l: nat, n: nat) returns (k: nat)
    requires max > 0 && r > 0 && n <= |ws| && l <= |RoundTurns(ws, max, r, n)|
    ensures k <= n && RoundTurns(ws, max, r, k) == RoundTurns(ws, max, r, n)[..l]
  {
    hide Takes;
    var s := RoundTurns(ws, max, r, n);
    if l == |s| {
      k := n;
      assert s[..l] == s;
    } else {
      k := CutRound(ws, max, r, l, n - 1);
      assert RoundTurns(ws, max, r, n - 1)[..l] == s[..l];
    }
  }

  lemma StopPoint(ws: seq<nat>, m: nat) returns (r: nat, k: nat)
    requires MaxWeight(ws) > 0 && m > 0
    ensures r > 0 && k <= |ws|
    ensures TurnOrder(ws, m) == Rounds(ws, MaxWeight(ws), r - 1) + RoundTurns(ws, MaxWeight(ws), r, k)
  {
    hide MaxWeight, RoundTurns;
    var max := MaxWeight(ws);
    RoundsGrow(ws, m);
    r := RoundOfStop(ws, m, m);
    var before := Rounds(ws, max, r - 1);
    k := CutRound(ws, max, r, m - |before|, |ws|);
    RoundsPrefix(ws, max, r, m);
    var all := Rounds(ws, max, r);
    assert all == before + RoundTurns(ws, max, r, |ws|);
    assert all[..m] == before + RoundTurns(ws, max, r, k);
  }

  lemma OwnedAtStop(es: seq<Backend>, m: nat, r: nat, k: nat, i: nat)
    requires Prime(m) && MaxWeight(Weights(es)) > 0 && r > 0 && k <= |es| && i < |es|
    requires TurnOrder(Weights(es), m) ==
             Rounds(Weights(es), MaxWeight(Weights(es)), r - 1) + RoundTurns(Weights(es), MaxWeight(Weights(es)), r, k)
    ensures Owned(es, m, i) == Turns(es[i].weight, MaxWeight(Weights(es)), if i < k then r else r - 1)
  {
    hide MaxWeight, Prime, Rounds, RoundTurns, TurnOrder, Turns, MaglevTable, Takes;
    var ws := Weights(es);
    var max := MaxWeight(ws);
    RoundsCount(ws, max, r - 1, i);
    RoundTurnsCount(ws, max, r, k, i);
    TurnStep(ws[i], max, r);
  }

  /** Every backend owns exactly the turns of `r` or `r - 1` whole rounds. */
  lemma OwnedIsTurns(es: seq<Backend>, m: nat) returns (r: nat, k: nat)
    requires Prime(m) && MaxWeight(Weights(es)) > 0
    ensures r > 0 && k <= |es|
    ensures forall i :: 0 <= i < |es| ==>
              Owned(es, m, i) == Turns(es[i].weight, MaxWeight(Weights(es)), if i < k then r else r - 1)
    ensures TurnOrder(Weights(es), m) ==
            Rounds(Weights(es), MaxWeight(Weights(es)), r - 1) + RoundTurns(Weights(es), MaxWeight(Weights(es)), r, k)
  {
    assert m > 0;
    hide MaxWeight, Prime, Rounds, RoundTurns, TurnOrder, Turns, MaglevTable, Takes, Owned;
    r, k := StopPoint(Weights(es), m);
    forall i | 0 <= i < |es|
      ensures Owned(es, m, i) == Turns(es[i].weight, MaxWeight(Weights(es)), if i < k then r else r - 1)
    {
      OwnedAtStop(es, m, r, k, i);
    }
  }

  /** The count lies within one turn of `(r - 1) * w / max`. */
  lemma TurnsBetween(w: nat, max: nat, r: nat)
    requires 0 < w <= max
    ensures (r - 1) * w < max * Turns(w, max, r) <= (r - 1) * w + max
  {
    if r > 0 {
      var x := (r - 1) * w;
      var q := x / max;
      assert x == q * max + x % max;
      assert max * (q + 1) == max * q + max;
    } else {
      assert (r - 1) * w + w == 0;
    }
  }

  lemma CrossLeft(wi: nat, wj: nat, max: nat, ri: int, ci: nat)
    requires max * ci <= ri * wi + max
    ensures max * (ci * wj) <= ri * (wi * wj) + max * wj
  {
    Arithmetic.MulMonotone(wj, max * ci, ri * wi + max);
    assert wj * (max * ci) == max * (ci * wj);
    assert wj * (ri * wi + max) == ri * (wi * wj) + max * wj;
  }

  lemma CrossRight(wi: nat, wj: nat, max: nat, rj: int, cj: nat)
    requires wi > 0 && rj * wj < max * cj
    ensures rj * (wi * wj) < max * (cj * wi)
  {
    Arithmetic.MulMonotone(wi, rj * wj + 1, max * cj);
    assert wi * (rj * wj + 1) == rj * (wi * wj) + wi;
    assert wi * (max * cj) == max * (cj * wi);
  }

  lemma CrossCancel(wi: nat, wj: nat, max: nat, p: nat, ri: int, rj: int, x: int, y: int)
    requires max > 0 && p <= max * wi && ri <= rj + 1
    requires max * x <= ri * p + max * wj && rj * p < max * y
    ensures x - y < wi + wj
  {
    Arithmetic.MulMonotone(p, ri - rj, 1);
    assert p * (ri - rj) == ri * p - rj * p;
    assert max * (x - y) == max * x - max * y;
    assert max * (wi + wj) == max * wi + max * wj;
    if x - y >= wi + wj { Arithmetic.MulMonotone(max, wi + wj, x - y); }
  }

  lemma CrossBound(wi: nat, wj: nat, max: nat, ri: int, rj: int, ci: nat, cj: nat)
    requires 0 < wi <= max && 0 < wj <= max && ri <= rj + 1
    requires max * ci <= ri * wi + max && rj * wj < max * cj
    ensures ci * wj - cj * wi < wi + wj
  {
    CrossLeft(wi, wj, max, ri, ci);
    CrossRight(wi, wj, max, rj, cj);
    Arithmetic.MulMonotone(wi, wj, max);
    assert wi * max == max * wi;
    CrossCancel(wi, wj, max, wi * wj, ri, rj, ci * wj, cj * wi);
  }

  /** Shares are proportional to weights, to within one turn of each of the two backends. */
  lemma SharesFollowWeights(es: seq<Backend>, m: nat, i: nat, j: nat)
    requires Prime(m) && i < |es| && j < |es| && es[i].weight > 0 && es[j].weight > 0
    ensures MaxWeight(Weights(es)) > 0
    ensures var x := Owned(es, m, i) * es[j].weight - Owned(es, m, j) * es[i].weight;
            -(es[i].weight + es[j].weight) < x < es[i].weight + es[j].weight
  {
    var max := MaxWeight(Weights(es));
    assert Weights(es)[i] <= max && Weights(es)[j] <= max;
    hide MaxWeight, Prime, Owned, Turns, TurnOrder, Rounds, RoundTurns;
    var r, k := OwnedIsTurns(es, m);
    OneRoundApart(es[i].weight, es[j].weight, max, if i < k then r else r - 1, if j < k then r else r - 1);
    OneRoundApart(es[j].weight, es[i].weight, max, if j < k then r else r - 1, if i < k then r else r - 1);
  }

  lemma OneRoundApart(wi: nat, wj: nat, max: nat, ri: nat, rj: nat)
    requires 0 < wi <= max && 0 < wj <= max && ri <= rj + 1
    ensures Turns(wi, max, ri) * wj - Turns(wj, max, rj) * wi < wi + wj
  {
    hide Turns;
    TurnsBetween(wi, max, ri);
    TurnsBetween(wj, max, rj);
    CrossBound(wi, wj, max, ri - 1, rj - 1, Turns(wi, max, ri), Turns(wj, max, rj));
  }
}
