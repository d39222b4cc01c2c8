/** The runtime object of a weighted route: compiled once, then picked from without a lock. */
module WeightedBackends {
  import Arithmetic
  import Gcd
  import opened Apportionment
  import opened WeightedSplit
  import opened Wrappers
  import opened Words
  import opened Counting

  function Weights<G>(targets: seq<(G, nat)>): (w: seq<nat>)
    ensures |w| == |targets|
    ensures forall i :: 0 <= i < |w| ==> w[i] == targets[i].1
  {
    seq(|targets|, i requires 0 <= i < |targets| => targets[i].1)
  }

  /** The groups of the backends with a non-zero weight, in manifest order. */
  function LiveGroups<G>(targets: seq<(G, nat)>): (r: seq<G>)
    ensures |r| == |Nonzero(Weights(targets))|
    ensures forall j :: 0 <= j < |r| ==> r[j] == targets[Kept(Weights(targets))[j]].0
  {
    if targets == [] then []
    else
      var n := |targets| - 1;
      assert Weights(targets)[..n] == Weights(targets[..n]);
      LiveGroups(targets[..n]) + if targets[n].1 > 0 then [targets[n].0] else []
  }

  ghost predicate IndexesInto(table: seq<nat>, n: nat) {
    table != [] && forall k :: 0 <= k < |table| ==> table[k] < n
  }

  /** The entry `off` places after `start`, going round. */
  function Entry(table: seq<nat>, start: nat, off: nat): nat
    requires table != []
  {
    table[(start + off) % |table|]
  }

  /** How many entries a pick skips: the distance to the first one, going round, that is up. */
  function Skip(table: seq<nat>, up: seq<bool>, start: nat, off: nat): (r: Option<nat>)
    requires IndexesInto(table, |up|) && off <= |table|
    ensures r.None? ==> forall k :: off <= k < |table| ==> !up[Entry(table, start, k)]
    ensures r.Some? ==>
              && off <= r.value < |table|
              && up[Entry(table, start, r.value)]
              && forall k :: off <= k < r.value ==> !up[Entry(table, start, k)]
    decreases |table| - off
  {
    hide Entry;
    if off == |table| then None
    else if up[Entry(table, start, off)] then Some(off)
    else Skip(table, up, start, off + 1)
  }

  /** The group a pick at cursor `c` takes. */
  function Chosen(table: seq<nat>, up: seq<bool>, c: nat): (g: nat)
    requires IndexesInto(table, |up|) && Skip(table, up, c % |table|, 0).Some?
    ensures g < |up| && up[g]
  {
    Entry(table, c % |table|, Skip(table, up, c % |table|, 0).value)
  }

  // ---------------------------------------------------------------- forward, on the table itself

  predicate UpAhead(table: seq<nat>, up: seq<bool>, c: nat, d: nat)
    requires IndexesInto(table, |up|)
  {
    up[table[(c + d) % |table|]]
  }

  /** The first position at or after the cursor, going round, whose group is up. */
  ghost predicate FirstUp(table: seq<nat>, up: seq<bool>, c: nat, d: nat)
    requires IndexesInto(table, |up|)
  {
    d < |table| && UpAhead(table, up, c, d) && forall k :: 0 <= k < d ==> !UpAhead(table, up, c, k)
  }

  lemma SamePlace(c: nat, d: nat, len: nat)
    requires len > 0
    ensures (c % len + d) % len == (c + d) % len
  {
    Arithmetic.ModShift(c % len + d, len, c / len);
  }

  /** What `Skip` and `Chosen` compute, said on the table. */
  lemma ChosenIsFirstUp(table: seq<nat>, up: seq<bool>, c: nat)
    requires IndexesInto(table, |up|) && Skip(table, up, c % |table|, 0).Some?
    ensures var d := Skip(table, up, c % |table|, 0).value;
            FirstUp(table, up, c, d) && Chosen(table, up, c) == table[(c + d) % |table|]
  {
    hide Skip;
    var start, d := c % |table|, Skip(table, up, c % |table|, 0).value;
    SamePlace(c, d, |table|);
    forall k | 0 <= k < d ensures !UpAhead(table, up, c, k) {
      SamePlace(c, k, |table|);
      assert !up[Entry(table, start, k)];
    }
  }

  class Backends<G> {
    const groups: seq<G>
    const table: seq<nat>
    var cursor: nat

    /** Every table entry names a group and every group is in the table. */
    ghost predicate Valid()
      reads this
    {
      && IndexesInto(table, |groups|)
      && (forall g :: 0 <= g < |groups| ==> g in table)
      && cursor < U64
    }

    constructor (groups: seq<G>, table: seq<nat>)
      ensures this.groups == groups && this.table == table && cursor == 0
    {
      this.groups := groups;
      this.table := table;
      cursor := 0;
    }

    /** One request.  `up[g]` is whether group `g` has an eligible instance.  The cursor moves on
        only when something is up; then the first group that is up, from the cursor on, is taken. */
    method Pick(up: seq<bool>) returns (r: Option<nat>)
      requires Valid() && |up| == |groups|
      modifies this`cursor
      ensures Valid()
      ensures r.None? <==> forall g :: 0 <= g < |groups| ==> !up[g]
      ensures r.None? ==> cursor == old(cursor)
      ensures r.Some? ==> exists d: nat :: FirstUp(table, up, old(cursor), d) && r.value == table[(old(cursor) + d) % |table|]
      ensures r.Some? ==> Skip(table, up, old(cursor) % |table|, 0).Some? && r.value == Chosen(table, up, old(cursor))
      ensures r.Some? ==> cursor == (old(cursor) + 1) % U64
    {
      if forall g :: 0 <= g < |groups| ==> !up[g] {
        return None;
      }
      var len := |table|;
      if len == 0 {
        return None;
      }
      var start := cursor % len;
      cursor := (cursor + 1) % U64;
      ghost var g :| 0 <= g < |groups| && up[g];
      AnyUpIsFound(table, up, start, g);
      for off := 0 to len
        invariant Skip(table, up, start, 0) == Skip(table, up, start, off)
      {
        var backend := Entry(table, start, off);
        if up[backend] {
          ChosenIsFirstUp(table, up, old(cursor));
          return Some(backend);
        }
      }
      assert false;
    }
  }

  lemma AnyUpIsFound(table: seq<nat>, up: seq<bool>, start: nat, g: nat)
    requires IndexesInto(table, |up|) && start < |table|
    requires g < |up| && up[g] && g in table
    ensures Skip(table, up, start, 0).Some?
  {
    var p :| 0 <= p < |table| && table[p] == g;
    var k := if p >= start then p - start else p + |table| - start;
    RoundTrip(start, k, p, |table|);
    assert Entry(table, start, k) == g;
    hide Entry, Skip;
  }

  lemma RoundTrip(start: nat, k: nat, p: nat, len: nat)
    requires p < len && (start + k == p || start + k == p + len)
    ensures (start + k) % len == p
  {
    Arithmetic.DivModUnique(start + k, len, if start + k == p then 0 else 1, p);
  }

  // ---------------------------------------------------------------- building

  ghost function Table(w: seq<nat>): (table: seq<nat>)
    requires Nonzero(w) != []
  {
    SumNonneg(TableWeights(w));
    TableWeightsExact(w);
    Schedule(TableWeights(w), Sum(TableWeights(w)))
  }

  lemma TableUsable(w: seq<nat>)
    requires Nonzero(w) != []
    ensures IndexesInto(Table(w), |Nonzero(w)|)
    ensures forall g :: 0 <= g < |Nonzero(w)| ==> g in Table(w)
  {
    hide Nonzero, Sum, PickAt, Deficits, TableWeights, Schedule;
    TableWeightsExact(w);
    var v := TableWeights(w);
    FullPeriod(v);
    forall g | 0 <= g < |v| ensures g in Table(w) {
      ServedCounts(v, Sum(v), g);
      assert multiset(Table(w))[g] == v[g] > 0;
    }
  }

  /** Compile a split: refused for the reasons `ValidateSplit` gives, otherwise ready to pick. */
  method New<G>(targets: seq<(G, nat)>) returns (r: Result<Backends<G>, SplitError>)
    ensures ValidateSplit(Weights(targets)).Failure? ==>
              r.Failure? && r.error == ValidateSplit(Weights(targets)).error
    ensures ValidateSplit(Weights(targets)).Success? ==>
              && r.Success? && fresh(r.value) && r.value.Valid()
              && Nonzero(Weights(targets)) != []
              && r.value.groups == LiveGroups(targets)
              && r.value.table == Table(Weights(targets))
              && r.value.cursor == 0
  {
    var w := Weights(targets);
    var checked := ValidateSplit(w);
    if checked.Failure? {
      return Failure(checked.error);
    }
    AcceptedSplits(w);
    TableUsable(w);
    TableWeightsExact(w);
    hide Nonzero, Sum, ValidateSplit, TableWeights, LiveGroups, Schedule, Kept;
    var schedule := WeightedSchedule(TableWeights(w));
    var b := new Backends(LiveGroups(targets), schedule);
    r := Success(b);
  }

  // ---------------------------------------------------------------- runs of picks

  /** Where the cursor stands after `k` picks that found something, counted from `c`. */
  function CursorAfter(c: nat, k: nat): (r: nat)
    ensures r < U64
  {
    (c + k) % U64
  }

  /** From wherever it starts, a pick finds a group that is up. */
  ghost predicate Findable(table: seq<nat>, up: seq<bool>)
    requires IndexesInto(table, |up|)
  {
    forall start: nat :: start < |table| ==> Skip(table, up, start, 0).Some?
  }

  /** The groups taken by `k` consecutive picks from cursor `c`, the same groups being up. */
  function Run(table: seq<nat>, up: seq<bool>, c: nat, k: nat): (r: seq<nat>)
    requires IndexesInto(table, |up|)
    requires Findable(table, up)
    ensures |r| == k
  {
    if k == 0 then [] else Run(table, up, c, k - 1) + [Chosen(table, up, CursorAfter(c, k - 1))]
  }

  ghost predicate SomeUp(up: seq<bool>) {
    exists g :: 0 <= g < |up| && up[g]
  }

  lemma AllFound(table: seq<nat>, up: seq<bool>)
    requires IndexesInto(table, |up|) && SomeUp(up) && forall g :: 0 <= g < |up| ==> g in table
    ensures Findable(table, up)
  {
    hide Skip;
    var g :| 0 <= g < |up| && up[g];
    forall start: nat | start < |table| ensures Skip(table, up, start, 0).Some? {
      AnyUpIsFound(table, up, start, g);
    }
  }

  /** Requests one after the other: `Pick`, called `k` times while something is up, takes the groups of
      `Run` and leaves the cursor `k` further, going round at 2^64. */
  method PickTimes<G>(b: Backends<G>, up: seq<bool>, k: nat) returns (taken: seq<nat>)
    requires b.Valid() && |up| == |b.groups| && SomeUp(up)
    modifies b`cursor
    ensures b.Valid() && b.cursor == CursorAfter(old(b.cursor), k)
    ensures Findable(b.table, up)
    ensures taken == Run(b.table, up, old(b.cursor), k)
  {
    hide Skip, Chosen;
    AllFound(b.table, up);
    taken := [];
    Arithmetic.DivModUnique(b.cursor, U64, 0, b.cursor);
    for j := 0 to k
      invariant b.Valid() && b.cursor == CursorAfter(old(b.cursor), j)
      invariant taken == Run(b.table, up, old(b.cursor), j)
    {
      NextCursor(old(b.cursor), j);
      var g := b.Pick(up);
      taken := taken + [g.value];
    }
  }

  lemma NextCursor(c: nat, j: nat)
    ensures CursorAfter(c, j + 1) == (CursorAfter(c, j) + 1) % U64
  {
    var x, m: int := c + j, U64;
    Arithmetic.ModShift(x % m + 1, m, x / m);
  }

  lemma ChosenWhenUp(w: seq<nat>, up: seq<bool>, c: nat)
    requires Nonzero(w) != [] && |up| == |Nonzero(w)| && IndexesInto(Table(w), |up|)
    ensures PickAt(TableWeights(w), c) < |up|
    ensures up[PickAt(TableWeights(w), c)] ==>
              && Skip(Table(w), up, c % |Table(w)|, 0).Some?
              && Chosen(Table(w), up, c) == PickAt(TableWeights(w), c)
  {
    hide Nonzero, Sum, PickAt, Deficits, TableWeights, Schedule;
    TableWeightsExact(w);
    var v := TableWeights(w);
    PeriodicMod(v, c);
    ScheduleAt(v, Sum(v), c % Sum(v));
    Arithmetic.DivModUnique(c % Sum(v), Sum(v), 0, c % Sum(v));
    assert Entry(Table(w), c % Sum(v), 0) == PickAt(v, c);
  }

  /** In terms of the rule: a pick at cursor `c` takes the first of the picks it makes from step `c` on
      whose group is up. */
  lemma PickSkipsForward(w: seq<nat>, up: seq<bool>, c: nat, d: nat)
    requires Nonzero(w) != [] && |up| == |Nonzero(w)|
    requires IndexesInto(Table(w), |up|) && FirstUp(Table(w), up, c, d)
    ensures var v := TableWeights(w);
            && Table(w)[(c + d) % |Table(w)|] == PickAt(v, c + d)
            && up[PickAt(v, c + d)]
            && forall t :: c <= t < c + d ==> PickAt(v, t) < |up| && !up[PickAt(v, t)]
  {
    hide Nonzero, Sum, PickAt, Deficits, TableWeights, Schedule, Table;
    TableAhead(w, c + d);
    forall t | c <= t < c + d ensures PickAt(TableWeights(w), t) < |up| && !up[PickAt(TableWeights(w), t)] {
      TableAhead(w, t);
      assert !UpAhead(Table(w), up, c, t - c);
    }
  }

  lemma TableAhead(w: seq<nat>, t: nat)
    requires Nonzero(w) != []
    ensures |Table(w)| > 0 && |TableWeights(w)| > 0 && Table(w)[t % |Table(w)|] == PickAt(TableWeights(w), t)
  {
    hide Nonzero, Sum, PickAt, Deficits, TableWeights, Schedule;
    TableWeightsExact(w);
    var v := TableWeights(w);
    PeriodicMod(v, t);
    ScheduleAt(v, Sum(v), t % Sum(v));
  }

  lemma AlwaysFound(w: seq<nat>, up: seq<bool>)
    requires Nonzero(w) != [] && |up| == |Nonzero(w)| && SomeUp(up)
    ensures IndexesInto(Table(w), |up|)
    ensures Findable(Table(w), up)
  {
    hide Nonzero, Table, Skip;
    TableUsable(w);
    AllFound(Table(w), up);
  }

  /** Whether `k` picks from cursor `c` see the schedule without a break: the cursor does not go round
      on the way, or going round does not matter. */
  ghost predicate Unbroken(w: seq<nat>, c: nat, k: nat)
    requires Nonzero(w) != []
  {
    c + k <= U64 || (|Table(w)| > 0 && U64 % |Table(w)| == 0)
  }

  lemma SameSlot(c: nat, j: nat, k: nat, len: nat)
    requires len > 0 && j < k && (c + k <= U64 || U64 % len == 0)
    ensures CursorAfter(c, j) % len == (c + j) % len
  {
    var x, m: int := c + j, U64;
    if c + k <= U64 {
      Arithmetic.DivModUnique(x, m, 0, x);
    } else {
      SlotAcross(x, m, len);
    }
  }

  lemma SlotAcross(x: nat, m: nat, len: nat)
    requires len > 0 && m > 0 && m % len == 0
    ensures (x % m) % len == x % len
  {
    assert x % m == x + (-(x / m) * (m / len)) * len;
    Arithmetic.ModShift(x, len, -(x / m) * (m / len));
  }

  lemma UnbrokenPick(w: seq<nat>, up: seq<bool>, c: nat, j: nat, k: nat)
    requires Nonzero(w) != [] && |up| == |Nonzero(w)| && IndexesInto(Table(w), |up|)
    requires j < k && Unbroken(w, c, k)
    requires Findable(Table(w), up)
    ensures Skip(Table(w), up, (c + j) % |Table(w)|, 0).Some?
    ensures Skip(Table(w), up, CursorAfter(c, j) % |Table(w)|, 0).Some?
    ensures Chosen(Table(w), up, CursorAfter(c, j)) == Chosen(Table(w), up, c + j)
  {
    hide Nonzero, Table, Skip, Entry, CursorAfter;
    SameSlot(c, j, k, |Table(w)|);
  }

  /** What `n` turns of backend `i` in a run are, next to the plain rule's turns from `c` to `d`. */
  ghost predicate AtLeastItsTurns(v: seq<nat>, up: seq<bool>, c: nat, d: nat, i: nat, n: nat)
    requires |v| > 0 && i < |up|
  {
    && (up[i] ==> n >= Served(v, d, i) - Served(v, c, i))
    && (!up[i] ==> n == 0)
    && ((forall g :: 0 <= g < |up| ==> up[g]) ==> n == Served(v, d, i) - Served(v, c, i))
  }

  lemma OneMoreTurn(w: seq<nat>, up: seq<bool>, c: nat, d: nat, d': nat, i: nat, n: nat)
    requires Nonzero(w) != [] && |up| == |Nonzero(w)| && i < |up| && IndexesInto(Table(w), |up|)
    requires Skip(Table(w), up, d % |Table(w)|, 0).Some? && d' == d + 1
    requires AtLeastItsTurns(TableWeights(w), up, c, d, i, n)
    ensures AtLeastItsTurns(TableWeights(w), up, c, d', i, n + if Chosen(Table(w), up, d) == i then 1 else 0)
  {
    hide Nonzero, Sum, PickAt, Deficits, TableWeights, Served, Skip, Chosen, Table;
    ChosenWhenUp(w, up, d);
    Step(TableWeights(w), d);
  }

  lemma RunOfNone(table: seq<nat>, up: seq<bool>, c: nat)
    requires IndexesInto(table, |up|) && Findable(table, up)
    ensures Run(table, up, c, 0) == []
  {
  }

  lemma RunStep(table: seq<nat>, up: seq<bool>, c: nat, j: nat, k: nat)
    requires IndexesInto(table, |up|) && Findable(table, up) && k == j + 1
    requires Skip(table, up, CursorAfter(c, j) % |table|, 0).Some?
    ensures Run(table, up, c, k) == Run(table, up, c, j) + [Chosen(table, up, CursorAfter(c, j))]
  {
    hide Skip, Chosen, CursorAfter;
  }

  /** Skipping only ever adds to the share of a backend that is up. */
  lemma {:induction false} RunServes(w: seq<nat>, up: seq<bool>, c: nat, k: nat, i: nat)
    requires Nonzero(w) != [] && |up| == |Nonzero(w)| && SomeUp(up) && i < |up|
    requires IndexesInto(Table(w), |up|) && Unbroken(w, c, k)
    requires Findable(Table(w), up)
    ensures AtLeastItsTurns(TableWeights(w), up, c, c + k, i, multiset(Run(Table(w), up, c, k))[i])
  {
    hide Nonzero, Sum, PickAt, Deficits, TableWeights, Served, Skip, Chosen, Table, CursorAfter, AtLeastItsTurns,
      Findable, Entry, Unbroken, Run, SomeUp, IndexesInto;
    var j: int := k - 1;
    if k == 0 {
      RunOfNone(Table(w), up, c);
      NoTurns(TableWeights(w), up, c, i);
    } else {
      UnbrokenBefore(w, c, j, k);
      RunServes(w, up, c, j, i);
      UnbrokenPick(w, up, c, j, k);
      RunStep(Table(w), up, c, j, k);
      OneMoreTurn(w, up, c, c + j, c + k, i, multiset(Run(Table(w), up, c, j))[i]);
      CountAppend(Run(Table(w), up, c, j), Chosen(Table(w), up, c + j), i);
    }
  }

  lemma UnbrokenBefore(w: seq<nat>, c: nat, j: nat, k: nat)
    requires Nonzero(w) != [] && Unbroken(w, c, k) && j <= k
    ensures Unbroken(w, c, j)
  {
    hide Table;
  }

  lemma NoTurns(v: seq<nat>, up: seq<bool>, c: nat, i: nat)
    requires |v| > 0 && i < |up|
    ensures AtLeastItsTurns(v, up, c, c, i, 0)
  {
  }

  lemma TableLength(w: seq<nat>)
    requires Nonzero(w) != []
    ensures |Table(w)| == Sum(TableWeights(w))
  {
    hide Nonzero, Sum, TableWeights;
  }

  /** One table length of consecutive picks, from any cursor, unless the cursor goes round on the way
      and its modulus is no multiple of the table length: with every backend up each gets exactly its
      reduced weight; with some down, those get nothing and every other one still gets at least its
      own. */
  lemma AnyPeriodOfPicks(w: seq<nat>, up: seq<bool>, c: nat, i: nat)
    requires Nonzero(w) != [] && |up| == |Nonzero(w)| && SomeUp(up) && i < |up|
    requires Unbroken(w, c, |Table(w)|)
    ensures IndexesInto(Table(w), |up|)
    ensures Findable(Table(w), up)
    ensures i < |TableWeights(w)|
    ensures var n := multiset(Run(Table(w), up, c, |Table(w)|))[i];
            && (up[i] ==> n >= TableWeights(w)[i])
            && (!up[i] ==> n == 0)
            && ((forall g :: 0 <= g < |up| ==> up[g]) ==> n == TableWeights(w)[i])
  {
    hide Nonzero, Sum, PickAt, Deficits, TableWeights, Served, Skip, Chosen, Run, Unbroken, Table;
    TableLength(w);
    AlwaysFound(w, up);
    TableWeightsExact(w);
    RunServes(w, up, c, |Table(w)|, i);
    AnyWindow(TableWeights(w), c, i);
  }

  function AllUp(n: nat): (up: seq<bool>)
    ensures |up| == n && forall g :: 0 <= g < n ==> up[g]
  {
    seq(n, _ => true)
  }

  /** With everything up, the pick at cursor `c` is the one the plain rule makes at step `c` on the
      weights as written. */
  lemma PickFollowsRule<G>(targets: seq<(G, nat)>, c: nat)
    requires Nonzero(Weights(targets)) != []
    ensures var w := Weights(targets);
            var up := AllUp(|Nonzero(w)|);
            && IndexesInto(Table(w), |up|) && Skip(Table(w), up, c % |Table(w)|, 0).Some?
            && Kept(w)[Chosen(Table(w), up, c)] == PickAt(w, c)
            && LiveGroups(targets)[Chosen(Table(w), up, c)] == targets[PickAt(w, c)].0
  {
    var w := Weights(targets);
    var up := AllUp(|Nonzero(w)|);
    hide Nonzero, Sum, PickAt, Deficits, Skip, Chosen, Kept, TableWeights, LiveGroups, Schedule, AllUp;
    TableUsable(w);
    ChosenWhenUp(w, up, c);
    TableRefinesRule(w, c);
    TableWeightsExact(w);
    PeriodicMod(TableWeights(w), c);
    ScheduleAt(TableWeights(w), Sum(TableWeights(w)), c % Sum(TableWeights(w)));
  }

  // ---------------------------------------------------------------- when the cursor goes round

  /** Pick number `k` since the split was compiled, everything being up, is the plain rule's. */
  ghost predicate OnSchedule(w: seq<nat>, k: nat)
    requires Nonzero(w) != []
  {
    var up := AllUp(|Nonzero(w)|);
    && IndexesInto(Table(w), |up|) && Skip(Table(w), up, CursorAfter(0, k) % |Table(w)|, 0).Some?
    && Kept(w)[Chosen(Table(w), up, CursorAfter(0, k))] == PickAt(w, k)
  }

  lemma OnScheduleIff(w: seq<nat>, k: nat)
    requires Nonzero(w) != []
    ensures OnSchedule(w, k) <==> PickAt(w, CursorAfter(0, k)) == PickAt(w, k)
  {
    var targets := seq(|w|, i requires 0 <= i < |w| => (i, w[i]));
    assert Weights(targets) == w;
    hide Nonzero, PickAt, Skip, Chosen, Kept, Table, LiveGroups, AllUp, CursorAfter, Weights;
    PickFollowsRule(targets, CursorAfter(0, k));
  }

  /** The picks stay on schedule for ever exactly when the table length divides 2^64; until the cursor
      first goes round they always do. */
  lemma OnScheduleForever(w: seq<nat>)
    requires Nonzero(w) != []
    ensures forall k: nat :: k < U64 ==> OnSchedule(w, k)
    ensures |Table(w)| > 0
    ensures (forall k: nat :: OnSchedule(w, k)) <==> U64 % |Table(w)| == 0
  {
    hide Nonzero, PickAt, TableWeights, OnSchedule, CursorAfter, Sum, Schedule;
    TableWeightsExact(w);
    forall k: nat | k < U64 ensures OnSchedule(w, k) {
      OnScheduleIff(w, k);
      SmallCursor(k);
    }
    if U64 % |Table(w)| == 0 {
      forall k: nat ensures OnSchedule(w, k) {
        StaysOnSchedule(w, k);
      }
    }
    if forall k: nat :: OnSchedule(w, k) {
      MustDivide(w);
    }
  }

  lemma SmallCursor(k: nat)
    requires k < U64
    ensures CursorAfter(0, k) == k
  {
    Arithmetic.DivModUnique(k, U64, 0, k);
  }

  /** The plain rule on the weights as written has the table length for a period. */
  lemma RuleIsPeriodic(w: seq<nat>, t: nat, u: nat)
    requires Nonzero(w) != [] && |Table(w)| > 0 && t % |Table(w)| == u % |Table(w)|
    ensures PickAt(w, t) == PickAt(w, u)
  {
    hide Nonzero, PickAt, Deficits, Sum, TableWeights, Kept, Schedule;
    TableRefinesRule(w, t);
    TableRefinesRule(w, u);
  }

  lemma StaysOnSchedule(w: seq<nat>, k: nat)
    requires Nonzero(w) != [] && |Table(w)| > 0 && U64 % |Table(w)| == 0
    ensures OnSchedule(w, k)
  {
    hide Nonzero, PickAt, Table, OnSchedule;
    OnScheduleIff(w, k);
    SlotAcross(k, U64, |Table(w)|);
    RuleIsPeriodic(w, CursorAfter(0, k), k);
  }

  lemma MustDivide(w: seq<nat>)
    requires Nonzero(w) != [] && |Table(w)| > 0 && forall k: nat :: OnSchedule(w, k)
    ensures U64 % |Table(w)| == 0
  {
    hide Nonzero, PickAt, TableWeights, OnSchedule, Sum, Schedule, Gcd.Multiple;
    TableWeightsExact(w);
    var v, p: nat := TableWeights(w), U64;
    forall t: nat ensures PickAt(v, t + p) == PickAt(v, t) {
      SamePicks(w, t);
    }
    TableIsShortest(w, p);
    MultipleDivides(Sum(v), p);
  }

  lemma MultipleDivides(l: nat, p: nat)
    requires l > 0 && Gcd.Multiple(l, p)
    ensures p % l == 0
  {
    var q: int :| p == q * l;
    Arithmetic.DivModUnique(p, l, q, 0);
  }

  /** On schedule before and after the cursor went round, the table's picks repeat. */
  lemma SamePicks(w: seq<nat>, t: nat)
    requires Nonzero(w) != [] && OnSchedule(w, t) && OnSchedule(w, t + U64)
    ensures |TableWeights(w)| > 0 && PickAt(TableWeights(w), t + U64) == PickAt(TableWeights(w), t)
  {
    hide Nonzero, PickAt, TableWeights, OnSchedule, Sum, Deficits, Kept, Gcd.OfAll;
    var u: nat := t + U64;
    OnScheduleIff(w, t);
    OnScheduleIff(w, u);
    Arithmetic.ModShift(t, U64, 1);
    TableWeightsExact(w);
    var v, g := TableWeights(w), Gcd.OfAll(Nonzero(w));
    DrainedNeverPicked(w, t);
    DrainedNeverPicked(w, u);
    ScaleInvariant(Nonzero(w), v, g, t);
    ScaleInvariant(Nonzero(w), v, g, u);
  }
}
