/** Unbiased bounded integers by multiply-shift with rejection, over a given stream of 64-bit draws. */
module BoundedDraw {
  import Arithmetic
  import opened Wrappers
  import opened Words

  /** The value a draw `x` maps to: the high word of `x * n`. */
  function Mapped(x: nat, n: nat): nat {
    (x * n) / U64
  }

  /** A draw is rejected when the low word falls in the biased remainder. */
  predicate Accepted(x: nat, n: nat)
    requires n > 0
  {
    (x * n) % U64 >= U64 % n
  }

  /** The remainder the code computes from a wrapped negation. */
  function NegMod(n: nat): (t: nat)
    requires 0 < n <= U64
    ensures t == U64 % n
  {
    Arithmetic.ModShift(U64 - n, n, 1);
    (U64 - n) % n
  }

  /** The first accepted draw of a stream. */
  function FirstAccepted(draws: seq<nat>, n: nat): (r: Option<nat>)
    requires n > 0
    ensures r.Some? ==>
              && r.value < |draws| && Accepted(draws[r.value], n)
              && forall j :: 0 <= j < r.value ==> !Accepted(draws[j], n)
    ensures r.None? <==> forall j :: 0 <= j < |draws| ==> !Accepted(draws[j], n)
    decreases |draws|
  {
    if draws == [] then None
    else if Accepted(draws[0], n) then Some(0)
    else
      hide Accepted;
      var r := FirstAccepted(draws[1..], n);
      assert forall j :: 1 <= j < |draws| ==> draws[j] == draws[1..][j - 1];
      if r.None? then None else Some(r.value + 1)
  }

  /** One worker's stream of draws and how far it has been consumed. */
  class Stream {
    const draws: seq<nat>
    var pos: nat

    constructor (draws: seq<nat>)
      requires forall k :: 0 <= k < |draws| ==> draws[k] < U64
      ensures Valid() && this.draws == draws && pos == 0
    {
      this.draws := draws;
      pos := 0;
    }

    ghost predicate Valid()
      reads this
    {
      pos <= |draws| && forall k :: 0 <= k < |draws| ==> draws[k] < U64
    }

    ghost function Rest(): seq<nat>
      requires Valid()
      reads this
    {
      draws[pos..]
    }

    /** One draw, unless the stream has ended. */
    method Next() returns (x: Option<nat>)
      requires Valid()
      modifies this`pos
      ensures Valid()
      ensures old(Rest()) == [] ==> x.None? && pos == old(pos)
      ensures old(Rest()) != [] ==> x.Some? && x.value == old(Rest())[0] && pos == old(pos) + 1
    {
      if pos == |draws| {
        return None;
      }
      x := Some(draws[pos]);
      pos := pos + 1;
    }

    /** A uniform integer below `n`: the first accepted draw decides and nothing after it is
        consumed.  No value when the stream ends first. */
    method Below(n: nat) returns (r: Option<nat>)
      requires Valid() && 0 < n < U32
      modifies this`pos
      ensures Valid()
      ensures var first := FirstAccepted(old(Rest()), n);
              if first.None? then r.None? && pos == |draws|
              else r == Some(Mapped(old(Rest())[first.value], n)) && pos == old(pos) + first.value + 1
    {
      hide Mapped;
      ghost var rest, start := Rest(), pos;
      var x := Next();
      if x.None? {
        return None;
      }
      var l := Low(x.value, n);
      if l < n {
        var threshold := NegMod(n);
        while l < threshold
          invariant Valid() && x.Some? && l == Low(x.value, n)
          invariant start < pos && x.value == rest[pos - start - 1] && rest == draws[start..]
          invariant forall k :: 0 <= k < pos - start - 1 ==> !Accepted(rest[k], n)
          decreases |draws| - pos
        {
          assert !Accepted(x.value, n);
          x := Next();
          if x.None? {
            return None;
          }
          l := Low(x.value, n);
        }
      }
      LowDecides(x.value, n, l);
      FirstIs(rest, n, pos - start - 1);
      r := Some(Mapped(x.value, n));
    }

    /** Two distinct indices: the second is drawn one short and moved past the first.  None exactly when
        the stream ends before both are decided; nothing is consumed beyond the second. */
    method TwoDistinctBelow(n: nat) returns (r: Option<(nat, nat)>)
      requires Valid() && 2 <= n < U32
      modifies this`pos
      ensures Valid()
      ensures r.None? <==> FirstTwo(old(Rest()), n).None?
      ensures r.None? ==> pos == |draws|
      ensures r.Some? ==>
                var (i, j) := FirstTwo(old(Rest()), n).value;
                && r.value == Spread(Mapped(old(Rest())[i], n), Mapped(old(Rest())[j], n - 1))
                && pos == old(pos) + j + 1
    {
      hide Mapped, FirstAccepted, Accepted, Decide;
      ghost var rest := Rest();
      var i := Below(n);
      if i.None? {
        return None;
      }
      ghost var first := FirstAccepted(rest, n).value;
      assert Rest() == rest[first + 1..];
      var j := Below(n - 1);
      if j.None? {
        return None;
      }
      r := Some((i.value, if j.value >= i.value then j.value + 1 else j.value));
    }
  }

  /** Draw `i` is the first accepted for `n`, and draw `j` the first after it accepted for `n - 1`. */
  ghost predicate Decide(draws: seq<nat>, n: nat, i: int, j: int)
    requires n >= 2
  {
    && 0 <= i < j < |draws|
    && Accepted(draws[i], n) && (forall k :: 0 <= k < i ==> !Accepted(draws[k], n))
    && Accepted(draws[j], n - 1) && (forall k :: i < k < j ==> !Accepted(draws[k], n - 1))
  }

  lemma FirstTwoIs(draws: seq<nat>, n: nat)
    requires n >= 2
    ensures var first := FirstAccepted(draws, n);
            if first.None? then forall i, j :: !Decide(draws, n, i, j)
            else
              var at := first.value + 1;
              var second := FirstAccepted(draws[at..], n - 1);
              if second.None? then forall i, j :: !Decide(draws, n, i, j)
              else Decide(draws, n, first.value, at + second.value)
  {
    hide Accepted, FirstAccepted;
    var first := FirstAccepted(draws, n);
    if first.Some? {
      var at := first.value + 1;
      var after := draws[at..];
      var second := FirstAccepted(after, n - 1);
      assert forall k :: at <= k < |draws| ==> draws[k] == after[k - at];
      forall i, j | Decide(draws, n, i, j) ensures i == first.value && second.Some? {
        SameFirst(draws, n, i, first.value);
        assert Accepted(after[j - at], n - 1);
      }
    }
  }

  lemma SameFirst(draws: seq<nat>, n: nat, i: nat, k: nat)
    requires n > 0 && i < |draws| && k < |draws|
    requires Accepted(draws[i], n) && forall l :: 0 <= l < i ==> !Accepted(draws[l], n)
    requires Accepted(draws[k], n) && forall l :: 0 <= l < k ==> !Accepted(draws[l], n)
    ensures i == k
  {
    hide Accepted;
  }

  /** The positions of the draws that decide a pair: the first accepted for `n`, and the first after it
      accepted for `n - 1`. */
  function FirstTwo(draws: seq<nat>, n: nat): (r: Option<(nat, nat)>)
    requires n >= 2
    ensures r.Some? ==> Decide(draws, n, r.value.0, r.value.1)
    ensures r.None? ==> forall i, j :: !Decide(draws, n, i, j)
  {
    hide Accepted, FirstAccepted;
    FirstTwoIs(draws, n);
    var first := FirstAccepted(draws, n);
    if first.None? then None
    else
      var second := FirstAccepted(draws[first.value + 1..], n - 1);
      if second.None? then None else Some((first.value, first.value + 1 + second.value))
  }

  /** The low word of the 128-bit product. */
  function Low(x: nat, n: nat): nat {
    (x * n) % U64
  }

  /** The cheap comparison with `n` first never changes the verdict. */
  lemma LowDecides(x: nat, n: nat, l: nat)
    requires 0 < n && l == Low(x, n)
    ensures Accepted(x, n) <==> l >= U64 % n
    ensures l >= n ==> Accepted(x, n)
  {
  }

  lemma {:induction false} FirstIs(draws: seq<nat>, n: nat, k: nat)
    requires n > 0 && k < |draws| && Accepted(draws[k], n)
    requires forall j :: 0 <= j < k ==> !Accepted(draws[j], n)
    ensures FirstAccepted(draws, n) == Some(k)
  {
    hide Accepted;
  }

  function Spread(i: nat, j: nat): (nat, nat) {
    (i, if j >= i then j + 1 else j)
  }

  // ---------------------------------------------------------------- counting draws

  function CeilDiv(a: nat, n: nat): nat
    requires n > 0
  {
    (a + n - 1) / n
  }

  lemma CeilDivIs(a: nat, n: nat, y: int)
    requires n > 0
    ensures y * n >= a <==> y >= CeilDiv(a, n)
  {
    var c := CeilDiv(a, n);
    assert a + n - 1 == c * n + (a + n - 1) % n;
    assert n * (c - 1) == c * n - n;
    if y >= c { Arithmetic.MulMonotone(n, c, y); } else { Arithmetic.MulMonotone(n, y, c - 1); }
  }

  /** In terms of the product: high word `k`, low word at or above the remainder. */
  lemma AcceptedBand(p: int, k: nat, t: int, top: int)
    requires 0 <= t && top == U64 - t && 0 <= p
    ensures p % U64 >= t && p / U64 == k <==> k * U64 + t <= p < k * U64 + t + top
  {
    assert p == (p / U64) * U64 + p % U64;
    if k * U64 + t <= p < k * U64 + t + top {
      Arithmetic.DivModUnique(p, U64, k, p - k * U64);
    }
  }

  lemma BelowWord(x: nat, n: nat, k: nat)
    requires 0 < n && k < n && x * n < k * U64 + U64
    ensures x < U64
  {
    Arithmetic.MulMonotone(U64, k + 1, n);
    assert U64 * (k + 1) == k * U64 + U64;
    if x >= U64 { Arithmetic.MulMonotone(n, U64, x); }
  }

  lemma BandIsInterval(x: nat, n: nat, a: nat, q: nat)
    requires n > 0
    ensures a <= x * n < a + q * n <==> CeilDiv(a, n) <= x < CeilDiv(a, n) + q
  {
    hide CeilDiv;
    CeilDivIs(a, n, x);
    CeilDivIs(a, n, x - q);
    assert (x - q) * n == x * n - q * n;
  }

  /** The accepted draws that map to `k` are an interval of exactly floor(U64 / n) values. */
  lemma DrawsFor(x: nat, n: nat, k: nat)
    requires 0 < n < U32 && k < n
    ensures var lo := CeilDiv(k * U64 + U64 % n, n);
            x < U64 && Accepted(x, n) && Mapped(x, n) == k <==> lo <= x < lo + U64 / n
  {
    hide CeilDiv;
    var t, q, p := U64 % n, U64 / n, x * n;
    assert U64 == q * n + t;
    AcceptedBand(p, k, t, q * n);
    BandIsInterval(x, n, k * U64 + t, q);
    if p < k * U64 + U64 { BelowWord(x, n, k); }
  }

  function Interval(lo: nat, len: nat): (s: set<nat>)
    ensures forall x :: x in s <==> lo <= x < lo + len
    ensures |s| == len
  {
    if len == 0 then {} else Interval(lo, len - 1) + {lo + len - 1}
  }

  /** The accepted draws mapping to `k`. */
  ghost function DrawSet(n: nat, k: nat): set<nat>
    requires 0 < n < U32
  {
    set x: nat | x < U64 && Accepted(x, n) && Mapped(x, n) == k
  }

  /** Uniform: every value has the same number of accepted draws. */
  lemma EveryValueEquallyLikely(n: nat, k: nat)
    requires 0 < n < U32 && k < n
    ensures |DrawSet(n, k)| == U64 / n
  {
    var s := Interval(CeilDiv(k * U64 + U64 % n, n), U64 / n);
    hide CeilDiv, Mapped, Accepted;
    forall x: nat ensures x in DrawSet(n, k) <==> x in s {
      DrawsFor(x, n, k);
    }
    assert DrawSet(n, k) == s;
  }

  lemma MappedInRange(x: nat, n: nat)
    requires 0 < n && x < U64
    ensures Mapped(x, n) < n
  {
    var q := Mapped(x, n);
    assert x * n == q * U64 + (x * n) % U64;
    if q >= n {
      Arithmetic.MulMonotone(U64, n, q);
      Arithmetic.MulMonotone(n, x + 1, U64);
    }
  }

  ghost function Pairs(a: set<nat>, b: set<nat>): set<(nat, nat)> {
    set x, y | x in a && y in b :: (x, y)
  }

  lemma {:induction false} PairsWithOne(x: nat, b: set<nat>)
    ensures |Pairs({x}, b)| == |b|
    decreases b
  {
    if b == {} {
      assert Pairs({x}, b) == {};
    } else {
      var y :| y in b;
      PairsWithOne(x, b - {y});
      assert Pairs({x}, b) == Pairs({x}, b - {y}) + {(x, y)};
    }
  }

  lemma PairsSplit(a: set<nat>, x: nat, b: set<nat>)
    requires x in a
    ensures |Pairs(a, b)| == |Pairs(a - {x}, b)| + |Pairs({x}, b)|
  {
    var s, t := Pairs(a - {x}, b), Pairs({x}, b);
    assert Pairs(a, b) == s + t;
    assert s !! t;
  }

  lemma {:induction false} PairsCount(a: set<nat>, b: set<nat>)
    ensures |Pairs(a, b)| == |a| * |b|
    decreases a
  {
    if a == {} {
      assert Pairs(a, b) == {};
    } else {
      var x :| x in a;
      hide Pairs;
      PairsCount(a - {x}, b);
      PairsWithOne(x, b);
      PairsSplit(a, x, b);
      assert |a| * |b| == (|a| - 1) * |b| + |b|;
    }
  }

  /** The two-draw trick hits every ordered pair of distinct indices from exactly one (i, j). */
  lemma SpreadIsBijective(n: nat, a: nat, b: nat, i: nat, j: nat)
    requires n >= 2 && i < n && j < n - 1
    ensures Spread(i, j).0 != Spread(i, j).1 && Spread(i, j).0 < n && Spread(i, j).1 < n
    ensures a != b && a < n && b < n ==>
              (Spread(i, j) == (a, b) <==> i == a && j == (if b > a then b - 1 else b))
  {
  }

  ghost function PairDrawSet(n: nat, a: nat, b: nat): (s: set<(nat, nat)>)
    requires 2 <= n < U32
  {
    set x: nat, y: nat | x < U64 && y < U64 && Accepted(x, n) && Accepted(y, n - 1)
                         && Spread(Mapped(x, n), Mapped(y, n - 1)) == (a, b) :: (x, y)
  }

  /** So every ordered pair of distinct indices is equally likely. */
  lemma EveryPairEquallyLikely(n: nat, a: nat, b: nat)
    requires 2 <= n < U32 && a < n && b < n && a != b
    ensures |PairDrawSet(n, a, b)| == (U64 / n) * (U64 / (n - 1))
  {
    hide Accepted, Mapped;
    var j := if b > a then b - 1 else b;
    EveryValueEquallyLikely(n, a);
    EveryValueEquallyLikely(n - 1, j);
    PairsCount(DrawSet(n, a), DrawSet(n - 1, j));
    forall p: (nat, nat) | p.0 < U64 && p.1 < U64
      ensures p in PairDrawSet(n, a, b) <==> p in Pairs(DrawSet(n, a), DrawSet(n - 1, j))
    {
      MappedInRange(p.0, n);
      MappedInRange(p.1, n - 1);
      SpreadIsBijective(n, a, b, Mapped(p.0, n), Mapped(p.1, n - 1));
    }
    assert PairDrawSet(n, a, b) == Pairs(DrawSet(n, a), DrawSet(n - 1, j));
  }
}
