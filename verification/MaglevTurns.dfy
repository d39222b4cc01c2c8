/** Weighted turn taking: a backend of weight `w` takes a turn every `max / w` rounds. */
module MaglevTurns {
  import Arithmetic
  import opened Counting

  function MaxWeight(ws: seq<nat>): (r: nat)
    ensures forall i :: 0 <= i < |ws| ==> ws[i] <= r
    ensures r > 0 ==> exists i :: 0 <= i < |ws| && ws[i] == r
  {
    if ws == [] then 0
    else
      var n := |ws| - 1;
      var r := MaxWeight(ws[..n]);
      if ws[n] > r then
        assert ws[n] == ws[n];
        ws[n]
      else
        assert r > 0 ==> exists i :: 0 <= i < n && ws[..n][i] == r;
        r
  }

  /** The closed form: turns taken by a backend of weight `w` in the first `r` rounds. */
  function Turns(w: nat, max: nat, r: nat): nat
    requires max > 0
  {
    if w == 0 || r == 0 then 0 else ((r - 1) * w) / max + 1
  }

  predicate Takes(w: nat, max: nat, r: nat)
    requires max > 0 && r > 0
  {
    Turns(w, max, r) > Turns(w, max, r - 1)
  }

  lemma QuotientGrows(x: nat, w: nat, max: nat)
    requires 0 < w <= max
    ensures x / max <= (x + w) / max <= x / max + 1
  {
    var q, r := x / max, x % max;
    assert x == q * max + r;
    if r + w < max {
      Arithmetic.DivModUnique(x + w, max, q, r + w);
    } else {
      assert x + w == (q + 1) * max + (r + w - max);
      Arithmetic.DivModUnique(x + w, max, q + 1, r + w - max);
    }
  }

  lemma TurnStep(w: nat, max: nat, r: nat)
    requires 0 < max && w <= max && r > 0
    ensures Turns(w, max, r) == Turns(w, max, r - 1) + if Takes(w, max, r) then 1 else 0
  {
    if w > 0 && r > 1 {
      QuotientGrows((r - 2) * w, w, max);
      assert (r - 2) * w + w == (r - 1) * w;
    } else if w > 0 {
      assert (r - 1) * w == 0;
    }
  }

  lemma AtLeastQuotient(x: nat, max: nat, t: nat)
    requires max > 0
    ensures x >= max * t <==> x / max >= t
  {
    var q, r := x / max, x % max;
    assert x == max * q + r;
    if q >= t {
      Arithmetic.MulMonotone(max, t, q);
    } else {
      Arithmetic.MulMonotone(max, q + 1, t);
      assert max * (q + 1) == max * q + max;
    }
  }

  /** The running target decides exactly as the closed form does. */
  lemma TargetDecides(w: nat, max: nat, r: nat, target: nat)
    requires 0 < w <= max && r > 0
    requires target == w + max * Turns(w, max, r - 1)
    ensures r * w >= target <==> Takes(w, max, r)
  {
    var t := Turns(w, max, r - 1);
    assert r * w == (r - 1) * w + w;
    AtLeastQuotient((r - 1) * w, max, t);
  }

  lemma HeaviestAlwaysTakes(max: nat, r: nat)
    requires max > 0 && r > 0
    ensures Takes(max, max, r)
  {
    Arithmetic.DivModUnique((r - 1) * max, max, r - 1, 0);
    if r > 1 { Arithmetic.DivModUnique((r - 2) * max, max, r - 2, 0); }
  }

  // ---------------------------------------------------------------- the order of turns

  /** The turns of round `r` among the first `k` backends. */
  function RoundTurns(ws: seq<nat>, max: nat, r: nat, k: nat): (s: seq<nat>)
    requires max > 0 && r > 0 && k <= |ws|
    ensures forall x :: x in s ==> x < k
  {
    if k == 0 then []
    else RoundTurns(ws, max, r, k - 1) + if Takes(ws[k - 1], max, r) then [k - 1] else []
  }

  /** All turns of the first `r` rounds. */
  function Rounds(ws: seq<nat>, max: nat, r: nat): (s: seq<nat>)
    requires max > 0
    ensures forall x :: x in s ==> x < |ws|
  {
    if r == 0 then [] else Rounds(ws, max, r - 1) + RoundTurns(ws, max, r, |ws|)
  }

  lemma RoundTurnsStep(ws: seq<nat>, max: nat, r: nat, k: nat)
    requires max > 0 && r > 0 && k < |ws|
    ensures RoundTurns(ws, max, r, 0) == []
    ensures RoundTurns(ws, max, r, k + 1) ==
            if Takes(ws[k], max, r) then RoundTurns(ws, max, r, k) + [k] else RoundTurns(ws, max, r, k)
  {
    hide Takes;
    var s := RoundTurns(ws, max, r, k);
    assert s + [] == s;
  }

  lemma {:induction false} RoundTurnsCount(ws: seq<nat>, max: nat, r: nat, k: nat, i: nat)
    requires max > 0 && r > 0 && k <= |ws| && i < |ws|
    ensures multiset(RoundTurns(ws, max, r, k))[i] == if i < k && Takes(ws[i], max, r) then 1 else 0
  {
    hide Takes, RoundTurns;
    if k == 0 {
      RoundTurnsStep(ws, max, r, 0);
    } else {
      var l := k - 1;
      RoundTurnsCount(ws, max, r, l, i);
      RoundTurnsStep(ws, max, r, l);
      CountAppend(RoundTurns(ws, max, r, l), l, i);
    }
  }

  lemma {:induction false} RoundsCount(ws: seq<nat>, max: nat, r: nat, i: nat)
    requires max > 0 && i < |ws| && ws[i] <= max
    ensures multiset(Rounds(ws, max, r))[i] == Turns(ws[i], max, r)
  {
    hide Takes, Turns, RoundTurns;
    if r == 0 {
      NoTurns(ws[i], max);
    } else {
      RoundsCount(ws, max, r - 1, i);
      RoundTurnsCount(ws, max, r, |ws|, i);
      TurnStep(ws[i], max, r);
      CountConcat(Rounds(ws, max, r - 1), RoundTurns(ws, max, r, |ws|), i);
    }
  }

  lemma NoTurns(w: nat, max: nat)
    requires max > 0
    ensures Turns(w, max, 0) == 0
  {
  }

  /** Every round makes progress. */
  lemma RoundNotEmpty(ws: seq<nat>, r: nat)
    requires MaxWeight(ws) > 0 && r > 0
    ensures RoundTurns(ws, MaxWeight(ws), r, |ws|) != []
  {
    hide RoundTurns, Takes;
    var max := MaxWeight(ws);
    var i :| 0 <= i < |ws| && ws[i] == max;
    HeaviestAlwaysTakes(max, r);
    RoundTurnsCount(ws, max, r, |ws|, i);
  }

  lemma {:induction false} RoundsGrow(ws: seq<nat>, r: nat)
    requires MaxWeight(ws) > 0
    ensures |Rounds(ws, MaxWeight(ws), r)| >= r
  {
    hide RoundTurns, MaxWeight;
    if r > 0 {
      RoundsGrow(ws, r - 1);
      RoundNotEmpty(ws, r);
    }
  }

  lemma {:induction false} RoundsPrefix(ws: seq<nat>, max: nat, r: nat, s: nat)
    requires max > 0 && r <= s
    ensures Rounds(ws, max, r) <= Rounds(ws, max, s)
    decreases s
  {
    hide RoundTurns;
    if r < s { RoundsPrefix(ws, max, r, s - 1); }
  }

  lemma {:induction false} RoundTurnsPrefix(ws: seq<nat>, max: nat, r: nat, k: nat, l: nat)
    requires max > 0 && r > 0 && k <= l <= |ws|
    ensures RoundTurns(ws, max, r, k) <= RoundTurns(ws, max, r, l)
    decreases l
  {
    hide Takes;
    if k < l { RoundTurnsPrefix(ws, max, r, k, l - 1); }
  }

  /** The first `m` turns ever taken. */
  function TurnOrder(ws: seq<nat>, m: nat): (s: seq<nat>)
    requires MaxWeight(ws) > 0
    ensures |s| == m
    ensures forall x :: x in s ==> x < |ws|
  {
    hide Rounds, RoundTurns, MaxWeight;
    RoundsGrow(ws, m);
    var s := Rounds(ws, MaxWeight(ws), m);
    assert forall k :: 0 <= k < m ==> s[..m][k] in s;
    s[..m]
  }

  /** A run stopped part-way through round `r`, once `m` turns are taken, took exactly those. */
  lemma StoppedRun(ws: seq<nat>, m: nat, r: nat, k: nat)
    requires MaxWeight(ws) > 0 && 0 < r && k <= |ws|
    requires |Rounds(ws, MaxWeight(ws), r - 1)| <= m
    requires |Rounds(ws, MaxWeight(ws), r - 1) + RoundTurns(ws, MaxWeight(ws), r, k)| == m
    requires r <= m
    ensures Rounds(ws, MaxWeight(ws), r - 1) + RoundTurns(ws, MaxWeight(ws), r, k) == TurnOrder(ws, m)
  {
    hide RoundTurns, MaxWeight;
    var max := MaxWeight(ws);
    RoundTurnsPrefix(ws, max, r, k, |ws|);
    RoundsPrefix(ws, max, r, m);
    assert Rounds(ws, max, r) == Rounds(ws, max, r - 1) + RoundTurns(ws, max, r, |ws|);
    var s := Rounds(ws, max, r - 1) + RoundTurns(ws, max, r, k);
    assert s <= Rounds(ws, max, r);
    RoundsGrow(ws, m);
  }
}
