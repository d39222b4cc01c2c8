/** The plain blocking run of a filter chain: one filter after the other, the message and the host
    state threaded through, until one of them answers. */
module ChainSpec {

  /** What one filter makes of the message: pass it on, or answer now. */
  datatype Step<M, T> = Go(message: M) | Stop(answer: T)

  datatype End<M, T> = Passed(message: M) | Answered(answer: T)

  /** How a run ended, the host state it left, and every call it made with the message seen. */
  datatype Ran<F, M, T, H> = Ran(end: End<M, T>, state: H, log: seq<(F, M)>)

  type Hook<!F, !M, !T, !H> = (F, M, H) -> (Step<M, T>, H)

  function Drive<F, M, T, H>(hook: Hook<F, M, T, H>, fs: seq<F>, m: M, h: H): Ran<F, M, T, H> {
    if fs == [] then Ran(Passed(m), h, [])
    else
      var (step, h') := hook(fs[0], m, h);
      match step
      case Stop(t) => Ran(Answered(t), h', [(fs[0], m)])
      case Go(m') =>
        var rest := Drive(hook, fs[1..], m', h');
        rest.(log := [(fs[0], m)] + rest.log)
  }

  /** Running the rest of a chain after a first part, as a caller that was interrupted would. */
  function Then<F, M, T, H>(first: Ran<F, M, T, H>, hook: Hook<F, M, T, H>, rest: seq<F>): Ran<F, M, T, H> {
    match first.end
    case Answered(_) => first
    case Passed(m) =>
      var second := Drive(hook, rest, m, first.state);
      second.(log := first.log + second.log)
  }

  /** Interrupting a run anywhere and resuming it there changes nothing. */
  lemma {:induction false} DriveSplits<F, M, T, H>(hook: Hook<F, M, T, H>, a: seq<F>, b: seq<F>, m: M, h: H)
    ensures Drive(hook, a + b, m, h) == Then(Drive(hook, a, m, h), hook, b)
  {
    if a == [] {
      assert a + b == b;
      var second := Drive(hook, b, m, h);
      assert [] + second.log == second.log;
    } else {
      assert (a + b)[1..] == a[1..] + b;
      var (step, h') := hook(a[0], m, h);
      if step.Go? {
        DriveSplits(hook, a[1..], b, step.message, h');
        var first := Drive(hook, a[1..], step.message, h');
        if first.end.Passed? {
          var second := Drive(hook, b, first.end.message, first.state);
          assert [(a[0], m)] + (first.log + second.log) == ([(a[0], m)] + first.log) + second.log;
        }
      }
    }
  }

  /** The filters called are the first of the chain, each once and in order; all of them when the
      message passed. */
  lemma {:induction false} CallsInOrder<F, M, T, H>(hook: Hook<F, M, T, H>, fs: seq<F>, m: M, h: H)
    ensures var log := Drive(hook, fs, m, h).log;
            && |log| <= |fs|
            && (forall i :: 0 <= i < |log| ==> log[i].0 == fs[i])
            && (Drive(hook, fs, m, h).end.Passed? ==> |log| == |fs|)
            && (Drive(hook, fs, m, h).end.Answered? ==> log != [])
  {
    if fs != [] {
      var (step, h') := hook(fs[0], m, h);
      if step.Go? { CallsInOrder(hook, fs[1..], step.message, h'); }
    }
  }

  /** Nothing after the filter that answered has any say: another rest of the chain gives the same
      run. */
  lemma NothingAfterAnswer<F, M, T, H>(hook: Hook<F, M, T, H>, fs: seq<F>, other: seq<F>, m: M, h: H)
    requires Drive(hook, fs, m, h).end.Answered?
    ensures var n := |Drive(hook, fs, m, h).log|;
            && 0 < n <= |fs|
            && Drive(hook, fs[..n] + other, m, h) == Drive(hook, fs, m, h)
            && Drive(hook, fs[..n - 1], m, h).end.Passed?
  {
    var n := |Drive(hook, fs, m, h).log|;
    CallsInOrder(hook, fs, m, h);
    assert fs == fs[..n] + fs[n..];
    DriveSplits(hook, fs[..n], fs[n..], m, h);
    DriveSplits(hook, fs[..n], other, m, h);
    CallsInOrder(hook, fs[..n], m, h);
    CallsInOrder(hook, fs[..n - 1], m, h);
    assert fs[..n] == fs[..n - 1] + fs[n - 1..n];
    DriveSplits(hook, fs[..n - 1], fs[n - 1..n], m, h);
    if Drive(hook, fs[..n], m, h).end.Passed? {
      var first := Drive(hook, fs[..n], m, h);
      CallsInOrder(hook, fs[n..], first.end.message, first.state);
    }
  }

  lemma DriveNothing<F, M, T, H>(hook: Hook<F, M, T, H>, m: M, h: H)
    ensures Drive(hook, [], m, h) == Ran(Passed(m), h, [])
  {
  }

  lemma DriveOne<F, M, T, H>(hook: Hook<F, M, T, H>, f: F, m: M, h: H)
    ensures Drive(hook, [f], m, h) ==
            var (step, h') := hook(f, m, h);
            Ran(if step.Go? then Passed(step.message) else Answered(step.answer), h', [(f, m)])
  {
    assert [f][1..] == [];
    var nothing: seq<(F, M)> := [];
    assert [(f, m)] + nothing == [(f, m)];
  }

  /** The message passes exactly when every filter, on what it is given, passes it on. */
  lemma {:induction false} PassedIffAllWentOn<F, M, T, H>(hook: Hook<F, M, T, H>, fs: seq<F>, m: M, h: H)
    ensures Drive(hook, fs, m, h).end.Passed? <==>
            forall k :: 0 <= k < |fs| ==>
              && Drive(hook, fs[..k], m, h).end.Passed?
              && var before := Drive(hook, fs[..k], m, h);
                 hook(fs[k], before.end.message, before.state).0.Go?
  {
    if Drive(hook, fs, m, h).end.Passed? {
      forall k | 0 <= k < |fs|
        ensures Drive(hook, fs[..k], m, h).end.Passed?
        ensures var before := Drive(hook, fs[..k], m, h);
                hook(fs[k], before.end.message, before.state).0.Go?
      {
        assert fs == fs[..k] + fs[k..];
        DriveSplits(hook, fs[..k], fs[k..], m, h);
      }
    } else {
      var n := |Drive(hook, fs, m, h).log|;
      NothingAfterAnswer(hook, fs, [], m, h);
      assert fs[..n] + [] == fs[..n] == fs[..n - 1] + [fs[n - 1]];
      DriveSplits(hook, fs[..n - 1], [fs[n - 1]], m, h);
      var before := Drive(hook, fs[..n - 1], m, h);
      DriveOne(hook, fs[n - 1], before.end.message, before.state);
      assert !hook(fs[n - 1], before.end.message, before.state).0.Go?;
    }
  }

  /** Whatever every filter that passes a message on keeps, every filter sees and the result has. */
  lemma {:induction false} DriveKeeps<F, M(!new), T, H(!new)>(hook: Hook<F, M, T, H>, fs: seq<F>, m: M, h: H,
                                                             keeps: M -> bool)
    requires keeps(m)
    requires forall f, x, s :: f in fs && keeps(x) && hook(f, x, s).0.Go? ==> keeps(hook(f, x, s).0.message)
    ensures forall c :: c in Drive(hook, fs, m, h).log ==> keeps(c.1)
    ensures Drive(hook, fs, m, h).end.Passed? ==> keeps(Drive(hook, fs, m, h).end.message)
  {
    if fs != [] {
      var (step, h') := hook(fs[0], m, h);
      if step.Go? {
        assert keeps(hook(fs[0], m, h).0.message);
        DriveKeeps(hook, fs[1..], step.message, h', keeps);
      }
    }
  }

  function Reverse<F>(fs: seq<F>): (r: seq<F>)
    ensures |r| == |fs|
    ensures forall i :: 0 <= i < |fs| ==> r[i] == fs[|fs| - 1 - i]
  {
    if fs == [] then [] else Reverse(fs[1..]) + [fs[0]]
  }

  /** A reverse run may be cut just above filter `k`: the rest is the reverse run of the first
      `k + 1` filters. */
  lemma ReverseDriveSplits<F, M, T, H>(hook: Hook<F, M, T, H>, fs: seq<F>, k: nat, m: M, h: H)
    requires k < |fs|
    ensures Drive(hook, Reverse(fs), m, h)
         == Then(Drive(hook, Reverse(fs)[..|fs| - 1 - k], m, h), hook, Reverse(fs[..k + 1]))
  {
    hide Reverse, Drive, Then;
    var order := Reverse(fs);
    assert order == order[..|fs| - 1 - k] + Reverse(fs[..k + 1]);
    DriveSplits(hook, order[..|fs| - 1 - k], Reverse(fs[..k + 1]), m, h);
  }
}
