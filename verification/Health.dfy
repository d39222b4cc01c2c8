/** Active health of one upstream instance: streaks of probe outcomes put it in and out of rotation. */
module Health {
  import opened Words

  type Word32 = x: nat | x < U32

  /** A health policy; `probe` is everything else about it. */
  datatype HealthConfig = HealthConfig(healthyThreshold: Word32, unhealthyThreshold: Word32, probe: string)

  function AtLeastOne(x: Word32): (r: Word32)
    ensures if x == 0 then r == 1 else r == x
  {
    if x == 0 then 1 else x
  }

  datatype Standing = Standing(healthy: bool, ok: Word32, fail: Word32, everHealthy: bool)

  /** Out of rotation until a probe passes. */
  const PESSIMISTIC := Standing(false, 0, 0, false)

  function Saturating(x: Word32): Word32 {
    if x == U32 - 1 then x else x + 1
  }

  /** A passed probe; `up` is the threshold for coming back, the first promotion needs one. */
  function AfterSuccess(s: Standing, up: Word32): Standing {
    if s.healthy then s.(fail := 0)
    else
      var ok := Saturating(s.ok);
      if ok >= (if s.everHealthy then up else 1) then Standing(true, 0, 0, true) else s.(ok := ok, fail := 0)
  }

  /** A failed probe, or a request that could not connect. */
  function AfterFailure(s: Standing, down: Word32): Standing {
    var fail := Saturating(s.fail);
    if s.healthy && fail >= down then s.(healthy := false, ok := 0, fail := 0) else s.(ok := 0, fail := fail)
  }

  /** The standing a list of outcomes leads to, from a fresh start. */
  function After(outcomes: seq<bool>, up: Word32, down: Word32): Standing {
    if outcomes == [] then PESSIMISTIC
    else
      var n := |outcomes| - 1;
      var before := After(outcomes[..n], up, down);
      if outcomes[n] then AfterSuccess(before, up) else AfterFailure(before, down)
  }

  // ---------------------------------------------------------------- what the counters amount to

  /** `n` outcomes in a row equal to `b`, the last of them at `k`. */
  ghost predicate Streak(h: seq<bool>, k: int, n: nat, b: bool) {
    n <= k + 1 <= |h| && forall j :: k + 1 - n <= j <= k ==> h[j] == b
  }

  /** Put out of rotation at `k`: `down` failures in a row, some time after a first success. */
  ghost predicate EjectedAt(h: seq<bool>, k: int, down: nat) {
    Streak(h, k, down, false) && exists f :: 0 <= f <= k - down && h[f]
  }

  /** Some such point, and no `up` successes in a row since. */
  ghost predicate StillOut(h: seq<bool>, up: nat, down: nat) {
    exists k :: 0 <= k < |h| && EjectedAt(h, k, down) && forall r :: k < r < |h| ==> !Streak(h, r, up, true)
  }

  /** In rotation: probed successfully at least once, and not still out. */
  ghost predicate InRotation(h: seq<bool>, up: nat, down: nat) {
    true in h && !StillOut(h, up, down)
  }

  /** The length of the streak at the end. */
  function Trailing(h: seq<bool>, b: bool): (n: nat)
    ensures n <= |h| && Streak(h, |h| - 1, n, b)
    ensures n < |h| ==> h[|h| - 1 - n] != b
  {
    if h == [] || h[|h| - 1] != b then 0
    else
      var init := h[..|h| - 1];
      var n := Trailing(init, b);
      assert forall j :: |init| - n <= j < |init| ==> h[j] == init[j];
      n + 1
  }

  lemma StreakIsTrailing(h: seq<bool>, n: nat, b: bool)
    ensures Streak(h, |h| - 1, n, b) <==> n <= Trailing(h, b)
  {
    var m := Trailing(h, b);
    if m < n <= |h| { assert h[|h| - 1 - m] != b; }
  }

  lemma StreakEarlier(h: seq<bool>, x: bool, k: int, n: nat, b: bool)
    requires k < |h|
    ensures Streak(h + [x], k, n, b) <==> Streak(h, k, n, b)
  {
    assert forall j :: 0 <= j < |h| ==> (h + [x])[j] == h[j];
  }

  lemma EjectedEarlier(h: seq<bool>, x: bool, k: int, down: nat)
    requires k < |h| && down > 0
    ensures EjectedAt(h + [x], k, down) <==> EjectedAt(h, k, down)
  {
    StreakEarlier(h, x, k, down, false);
    assert forall j :: 0 <= j < |h| ==> (h + [x])[j] == h[j];
  }

  /** One more outcome: what it does to being out. */
  lemma StillOutStep(h: seq<bool>, x: bool, up: nat, down: nat)
    requires up > 0 && down > 0
    ensures var g := h + [x];
            StillOut(g, up, down) <==>
            || EjectedAt(g, |h|, down)
            || (StillOut(h, up, down) && !Streak(g, |h|, up, true))
  {
    hide Streak, EjectedAt;
    var g := h + [x];
    forall k | 0 <= k < |h| ensures EjectedAt(g, k, down) <==> EjectedAt(h, k, down) {
      EjectedEarlier(h, x, k, down);
    }
    forall k | 0 <= k < |h| ensures Streak(g, k, up, true) <==> Streak(h, k, up, true) {
      StreakEarlier(h, x, k, up, true);
    }
    if StillOut(g, up, down) {
      var k :| 0 <= k < |g| && EjectedAt(g, k, down) && forall r :: k < r < |g| ==> !Streak(g, r, up, true);
      if k < |h| {
        assert EjectedAt(h, k, down) && forall r :: k < r < |h| ==> !Streak(h, r, up, true);
        assert !Streak(g, |h|, up, true);
      }
    }
    if StillOut(h, up, down) && !Streak(g, |h|, up, true) {
      var k :| 0 <= k < |h| && EjectedAt(h, k, down) && forall r :: k < r < |h| ==> !Streak(h, r, up, true);
      assert EjectedAt(g, k, down);
      forall r | k < r < |g| ensures !Streak(g, r, up, true) {
        if r < |h| { assert !Streak(h, r, up, true); }
      }
    }
  }

  lemma TrailingStep(h: seq<bool>, x: bool, b: bool)
    ensures Trailing(h + [x], b) == if x == b then Trailing(h, b) + 1 else 0
  {
    assert (h + [x])[..|h|] == h;
  }

  lemma OutWasIn(h: seq<bool>, up: nat, down: nat)
    requires StillOut(h, up, down)
    ensures true in h
  {
    var k :| 0 <= k < |h| && EjectedAt(h, k, down);
    var f :| 0 <= f <= k - down && h[f];
  }

  lemma SuccessBefore(h: seq<bool>, x: bool, down: nat)
    requires 0 < down <= |h| + 1
    ensures (exists f :: 0 <= f <= |h| - down && (h + [x])[f]) <==> exists f :: 0 <= f <= |h| - down && h[f]
  {
    assert forall j :: 0 <= j < |h| ==> (h + [x])[j] == h[j];
  }

  /** Ejected just now: the failures at the end are enough, and there was a success before them. */
  lemma EjectedNow(h: seq<bool>, x: bool, down: nat)
    requires down > 0 && Trailing(h, false) < down
    ensures EjectedAt(h + [x], |h|, down) <==> !x && true in h && Trailing(h, false) + 1 == down
  {
    hide Streak, Trailing;
    var g, n := h + [x], Trailing(h, false);
    TrailingStep(h, x, false);
    StreakIsTrailing(g, down, false);
    if !x && true in h && n + 1 == down {
      SomeSuccess(h, n);
      SuccessBefore(h, x, down);
      assert h[|h| - down];
    }
    if EjectedAt(g, |h|, down) {
      StreakFits(g, |h|, down);
      SuccessBefore(h, x, down);
    }
  }

  lemma StreakFits(h: seq<bool>, k: int, n: nat)
    requires Streak(h, k, n, false)
    ensures n <= k + 1
  {
  }

  lemma SomeSuccess(h: seq<bool>, n: nat)
    requires true in h && n == Trailing(h, false)
    ensures n < |h| && h[|h| - 1 - n]
  {
    var f :| 0 <= f < |h| && h[f];
    assert Streak(h, |h| - 1, n, false);
  }

  lemma NotEjectedBySuccess(h: seq<bool>, down: nat)
    requires down > 0
    ensures !EjectedAt(h + [true], |h|, down)
  {
    assert (h + [true])[|h|];
  }

  /** What the counters hold. */
  ghost predicate CountersMean(h: seq<bool>, s: Standing, up: Word32, down: Word32) {
    && s.everHealthy == (true in h)
    && s.healthy == InRotation(h, up, down)
    && (s.healthy ==> s.everHealthy && s.fail == Trailing(h, false) < down)
    && (s.healthy || !s.everHealthy ==> s.ok == 0)
    && (!s.healthy && s.everHealthy ==> s.ok == Trailing(h, true) < up)
  }

  lemma MeanAfterSuccess(h: seq<bool>, s: Standing, up: Word32, down: Word32)
    requires up > 0 && down > 0 && CountersMean(h, s, up, down)
    ensures CountersMean(h + [true], AfterSuccess(s, up), up, down)
  {
    hide StillOut, EjectedAt, Streak, Trailing;
    var g := h + [true];
    StillOutStep(h, true, up, down);
    NotEjectedBySuccess(h, down);
    TrailingStep(h, true, true);
    TrailingStep(h, true, false);
    StreakIsTrailing(g, up, true);
    if StillOut(h, up, down) { OutWasIn(h, up, down); }
    assert g[|h|];
  }

  lemma MeanAfterFailure(h: seq<bool>, s: Standing, up: Word32, down: Word32)
    requires up > 0 && down > 0 && CountersMean(h, s, up, down)
    ensures CountersMean(h + [false], AfterFailure(s, down), up, down)
  {
    hide StillOut, EjectedAt, Streak, Trailing;
    var g := h + [false];
    StillOutStep(h, false, up, down);
    TrailingStep(h, false, true);
    TrailingStep(h, false, false);
    StreakIsTrailing(g, up, true);
    if s.healthy { EjectedNow(h, false, down); }
    assert true in g <==> true in h;
  }

  lemma {:induction false} CountersAlwaysMean(h: seq<bool>, up: Word32, down: Word32)
    requires up > 0 && down > 0
    ensures CountersMean(h, After(h, up, down), up, down)
  {
    hide CountersMean, AfterSuccess, AfterFailure;
    if h == [] {
      NothingProbed(up, down);
    } else {
      var n := |h| - 1;
      CountersAlwaysMean(h[..n], up, down);
      var before := After(h[..n], up, down);
      assert h == h[..n] + [h[n]];
      if h[n] { MeanAfterSuccess(h[..n], before, up, down); } else { MeanAfterFailure(h[..n], before, up, down); }
    }
  }

  lemma NothingProbed(up: Word32, down: Word32)
    requires up > 0 && down > 0
    ensures CountersMean([], PESSIMISTIC, up, down)
  {
  }

  /** The policy as documented: an instance is in rotation exactly when some probe of it passed and,
      since it was last put out by `down` failures in a row, `up` passed in a row. */
  lemma HealthyExactly(h: seq<bool>, up: Word32, down: Word32)
    requires up > 0 && down > 0
    ensures After(h, up, down).healthy <==> InRotation(h, up, down)
  {
    CountersAlwaysMean(h, up, down);
  }

  // ---------------------------------------------------------------- the instance

  class Instance {
    const address: string
    const weight: nat
    const up: Word32
    const down: Word32
    var standing: Standing
    /** Every outcome recorded since the instance was created. */
    ghost var outcomes: seq<bool>

    ghost predicate Valid()
      reads this
    {
      up > 0 && down > 0 && standing == After(outcomes, up, down)
    }

    constructor (address: string, weight: nat, health: HealthConfig)
      ensures Valid() && this.address == address && this.weight == (if weight == 0 then 1 else weight)
      ensures up == AtLeastOne(health.healthyThreshold) && down == AtLeastOne(health.unhealthyThreshold)
      ensures outcomes == []
    {
      this.address, this.weight := address, if weight == 0 then 1 else weight;
      up, down := AtLeastOne(health.healthyThreshold), AtLeastOne(health.unhealthyThreshold);
      standing, outcomes := PESSIMISTIC, [];
    }

    method RecordSuccess()
      requires Valid()
      modifies this
      ensures Valid() && outcomes == old(outcomes) + [true]
    {
      assert (outcomes + [true])[..|outcomes|] == outcomes;
      outcomes := outcomes + [true];
      standing := standing.(fail := 0);
      if standing.healthy {
        return;
      }
      standing := standing.(ok := Saturating(standing.ok));
      var need := if standing.everHealthy then up else 1;
      if standing.ok >= need {
        standing := standing.(everHealthy := true, ok := 0, healthy := true);
      }
    }

    method RecordFailure()
      requires Valid()
      modifies this
      ensures Valid() && outcomes == old(outcomes) + [false]
    {
      assert (outcomes + [false])[..|outcomes|] == outcomes;
      outcomes := outcomes + [false];
      standing := standing.(ok := 0, fail := Saturating(standing.fail));
      if standing.healthy && standing.fail >= down {
        standing := standing.(fail := 0, healthy := false);
      }
    }

    method IsHealthy() returns (r: bool)
      requires Valid()
      ensures r <==> InRotation(outcomes, up, down)
    {
      HealthyExactly(outcomes, up, down);
      r := standing.healthy;
    }
  }
}
