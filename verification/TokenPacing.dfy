/** The load generator's token counter: workers take a token with one atomic subtraction and give it
    back if there was none, while a pacer credits the counter from a value it read earlier. */
module TokenPacing {
  import Arithmetic
  import opened Wrappers

  /** Where a worker is between two atomic operations. */
  datatype Phase = AtHead | Ready | Undo | Sending | Exited

  /** `pacer` is the counter value the pacer has read and not yet acted on. */
  datatype State = State(tokens: int, granted: nat, sent: nat, workers: seq<Phase>, pacer: Option<int>, slots: nat, done: bool)

  datatype Config = Config(cap: nat, perSlot: nat)

  /** One atomic operation of one participant. */
  datatype Action =
    | LoadDone(i: nat)
    | FetchSub(i: nat)
    | FetchAddBack(i: nat)
    | Respond(i: nat)
    | PacerLoad
    | PacerAdd
    | StoreDone

  function Start(workers: nat, slots: nat): State {
    State(0, 0, 0, seq(workers, _ => AtHead), None, slots, false)
  }

  function Min(a: int, b: int): int {
    if a < b then a else b
  }

  /** The state after an action, if it is enabled. */
  function Next(c: Config, s: State, a: Action): Option<State> {
    match a
    case LoadDone(i) =>
      if i < |s.workers| && s.workers[i] == AtHead
      then Some(s.(workers := s.workers[i := if s.done then Exited else Ready]))
      else None
    case FetchSub(i) =>
      if i < |s.workers| && s.workers[i] == Ready
      then Some(s.(tokens := s.tokens - 1, workers := s.workers[i := if s.tokens <= 0 then Undo else Sending]))
      else None
    case FetchAddBack(i) =>
      if i < |s.workers| && s.workers[i] == Undo
      then Some(s.(tokens := s.tokens + 1, workers := s.workers[i := AtHead]))
      else None
    case Respond(i) =>
      if i < |s.workers| && s.workers[i] == Sending
      then Some(s.(sent := s.sent + 1, workers := s.workers[i := AtHead]))
      else None
    case PacerLoad =>
      if s.slots > 0 && s.pacer.None?
      then Some(if s.tokens < c.cap then s.(pacer := Some(s.tokens)) else s.(slots := s.slots - 1))
      else None
    case PacerAdd =>
      if s.slots > 0 && s.pacer.Some? && s.pacer.value < c.cap
      then
        var credit := Min(c.perSlot, c.cap - s.pacer.value);
        Some(s.(tokens := s.tokens + credit, granted := s.granted + credit, pacer := None, slots := s.slots - 1))
      else None
    case StoreDone =>
      if s.slots == 0 then Some(s.(done := true)) else None
  }

  /** The state a list of actions leads to, if each is enabled in turn. */
  function Run(c: Config, s: State, acts: seq<Action>): Option<State> {
    if acts == [] then Some(s)
    else
      var n := |acts| - 1;
      match Run(c, s, acts[..n])
      case None => None
      case Some(s') => Next(c, s', acts[n])
  }

  function In(s: State, p: Phase): nat {
    multiset(s.workers)[p]
  }

  // ---------------------------------------------------------------- safety

  ghost predicate Inv(c: Config, s: State) {
    && s.granted == s.sent + In(s, Sending) + s.tokens + In(s, Undo)
    && s.tokens + In(s, Undo) >= 0
    && s.tokens + In(s, Undo) <= (if s.pacer.Some? then s.pacer.value else c.cap) + |s.workers|
    && (s.pacer.Some? ==> s.pacer.value < c.cap)
  }

  lemma Moved(ws: seq<Phase>, i: nat, p: Phase)
    requires i < |ws|
    ensures multiset(ws[i := p]) == multiset(ws) - multiset{ws[i]} + multiset{p}
    ensures multiset(ws)[ws[i]] >= 1
  {
    assert ws[i] in multiset(ws);
  }

  lemma {:induction false} AtMostAll(ws: seq<Phase>, p: Phase)
    ensures multiset(ws)[p] <= |ws|
  {
    if ws != [] {
      AtMostAll(ws[..|ws| - 1], p);
      assert ws == ws[..|ws| - 1] + [ws[|ws| - 1]];
    }
  }

  lemma InvStart(c: Config, workers: nat, slots: nat)
    ensures Inv(c, Start(workers, slots))
  {
    var s := Start(workers, slots);
    assert forall p :: p in multiset(s.workers) ==> p == AtHead;
  }

  /** How one worker's move shifts the counts. */
  lemma CountsAfter(s: State, i: nat, p: Phase, q: Phase)
    requires i < |s.workers| && s.workers[i] != p
    ensures var t := s.(workers := s.workers[i := p]);
            In(t, q) == In(s, q) + (if q == p then 1 else 0) - if q == s.workers[i] then 1 else 0
  {
    Moved(s.workers, i, p);
  }

  lemma InvWorkerStep(c: Config, s: State, i: nat, p: Phase, tokens: int, sent: nat)
    requires Inv(c, s) && i < |s.workers|
    requires || (s.workers[i] == AtHead && (p == Ready || p == Exited) && tokens == s.tokens && sent == s.sent)
             || (s.workers[i] == Ready && tokens == s.tokens - 1 && sent == s.sent
                 && p == if s.tokens <= 0 then Undo else Sending)
             || (s.workers[i] == Undo && p == AtHead && tokens == s.tokens + 1 && sent == s.sent)
             || (s.workers[i] == Sending && p == AtHead && tokens == s.tokens && sent == s.sent + 1)
    ensures Inv(c, s.(workers := s.workers[i := p], tokens := tokens, sent := sent))
  {
    CountsAfter(s, i, p, Undo);
    CountsAfter(s, i, p, Sending);
    hide In;
    var t := s.(workers := s.workers[i := p], tokens := tokens, sent := sent);
    assert In(t, Undo) == In(s.(workers := s.workers[i := p]), Undo) by { SameWorkers(t, s.(workers := t.workers), Undo); }
    assert In(t, Sending) == In(s.(workers := s.workers[i := p]), Sending) by { SameWorkers(t, s.(workers := t.workers), Sending); }
  }

  lemma SameWorkers(s: State, t: State, p: Phase)
    requires s.workers == t.workers
    ensures In(s, p) == In(t, p)
  {
  }

  lemma InvPacerStep(c: Config, s: State, a: Action)
    requires Inv(c, s) && Next(c, s, a).Some? && (a.PacerLoad? || a.PacerAdd? || a.StoreDone?)
    ensures Inv(c, Next(c, s, a).value)
  {
    AtMostAll(s.workers, Undo);
    var t := Next(c, s, a).value;
    SameWorkers(s, t, Undo);
    SameWorkers(s, t, Sending);
    hide In;
  }

  lemma InvStep(c: Config, s: State, a: Action)
    requires Inv(c, s) && Next(c, s, a).Some?
    ensures Inv(c, Next(c, s, a).value) && |Next(c, s, a).value.workers| == |s.workers|
  {
    hide In, Inv;
    var t := Next(c, s, a).value;
    match a
    case LoadDone(i) => InvWorkerStep(c, s, i, t.workers[i], t.tokens, t.sent);
    case FetchSub(i) => InvWorkerStep(c, s, i, t.workers[i], t.tokens, t.sent);
    case FetchAddBack(i) => InvWorkerStep(c, s, i, t.workers[i], t.tokens, t.sent);
    case Respond(i) => InvWorkerStep(c, s, i, t.workers[i], t.tokens, t.sent);
    case _ => InvPacerStep(c, s, a);
  }

  lemma {:induction false} InvRun(c: Config, workers: nat, slots: nat, acts: seq<Action>)
    requires Run(c, Start(workers, slots), acts).Some?
    ensures Inv(c, Run(c, Start(workers, slots), acts).value)
    ensures |Run(c, Start(workers, slots), acts).value.workers| == workers
  {
    hide Next, Inv;
    if acts == [] {
      InvStart(c, workers, slots);
    } else {
      var n := |acts| - 1;
      InvRun(c, workers, slots, acts[..n]);
      InvStep(c, Run(c, Start(workers, slots), acts[..n]).value, acts[n]);
    }
  }

  /** Under every interleaving: credits are sent, in hand, or about to be given back; requests never
      exceed credits; the counter stays between -W and cap + W. */
  lemma EveryInterleaving(c: Config, workers: nat, slots: nat, acts: seq<Action>)
    requires Run(c, Start(workers, slots), acts).Some?
    ensures var s := Run(c, Start(workers, slots), acts).value;
            && s.granted == s.sent + In(s, Sending) + s.tokens + In(s, Undo)
            && s.sent + In(s, Sending) <= s.granted
            && 0 <= s.tokens + workers
            && s.tokens <= c.cap + workers
  {
    InvRun(c, workers, slots, acts);
    AtMostAll(Run(c, Start(workers, slots), acts).value.workers, Undo);
  }

  /** No token is ever lost to a failed take: once no give-back and no request is outstanding, every
      credit was either sent or is still in the counter. */
  lemma NothingLost(c: Config, workers: nat, slots: nat, acts: seq<Action>)
    requires Run(c, Start(workers, slots), acts).Some?
    requires var s := Run(c, Start(workers, slots), acts).value; In(s, Undo) == 0 && In(s, Sending) == 0
    ensures var s := Run(c, Start(workers, slots), acts).value;
            s.tokens >= 0 && s.granted == s.sent + s.tokens
  {
    InvRun(c, workers, slots, acts);
  }

  // ---------------------------------------------------------------- the backlog cap is soft

  lemma {:induction false} RunConcat(c: Config, s: State, a: seq<Action>, b: seq<Action>)
    requires Run(c, s, a).Some?
    ensures Run(c, s, a + b) == Run(c, Run(c, s, a).value, b)
  {
    hide Next;
    if b == [] {
      assert a + b == a;
    } else {
      RunConcat(c, s, a, b[..|b| - 1]);
      assert (a + b)[..|a + b| - 1] == a + b[..|b| - 1];
    }
  }

  lemma RunOne(c: Config, s: State, a: Action)
    ensures Run(c, s, [a]) == Next(c, s, a)
  {
    assert [a][..0] == [];
  }

  lemma RunTwo(c: Config, s: State, a: Action, b: Action)
    requires Next(c, s, a).Some?
    ensures Run(c, s, [a, b]) == Next(c, Next(c, s, a).value, b)
  {
    hide Next;
    RunOne(c, s, a);
    assert [a, b][..1] == [a];
  }

  function Mixed(workers: nat, k: nat): (ws: seq<Phase>)
    ensures |ws| == workers
    ensures forall i :: 0 <= i < workers ==> ws[i] == if i < k then Undo else AtHead
  {
    seq(workers, i => if i < k then Undo else AtHead)
  }

  /** Before anything is credited, `k` of the workers having had a failed take. */
  function Owing(workers: nat, slots: nat, k: nat): State {
    var debt: int := k;
    State(-debt, 0, 0, Mixed(workers, k), None, slots, false)
  }

  lemma OneMoreOwes(c: Config, workers: nat, slots: nat, k: nat)
    requires k < workers
    ensures Run(c, Owing(workers, slots, k), [LoadDone(k), FetchSub(k)]) == Some(Owing(workers, slots, k + 1))
  {
    hide Run;
    var ws := Mixed(workers, k);
    RunTwo(c, Owing(workers, slots, k), LoadDone(k), FetchSub(k));
    assert ws[k := Ready][k := Undo] == Mixed(workers, k + 1);
  }

  lemma NobodyOwes(workers: nat, slots: nat)
    ensures Owing(workers, slots, 0) == Start(workers, slots)
  {
    assert Mixed(workers, 0) == Start(workers, slots).workers;
  }

  /** With nothing credited yet, `k` workers can each have a failed take to give back. */
  lemma {:induction false} AllOwe(c: Config, workers: nat, slots: nat, k: nat) returns (acts: seq<Action>)
    requires k <= workers
    ensures Run(c, Start(workers, slots), acts) == Some(Owing(workers, slots, k))
  {
    if k == 0 {
      acts := [];
      NobodyOwes(workers, slots);
    } else {
      hide Run, Owing, Start;
      var l := k - 1;
      var before := AllOwe(c, workers, slots, l);
      OneMoreOwes(c, workers, slots, l);
      acts := before + [LoadDone(l), FetchSub(l)];
      RunConcat(c, Start(workers, slots), before, [LoadDone(l), FetchSub(l)]);
    }
  }

  lemma OneSlot(tokens: int, cap: int, perSlot: nat, slots: nat)
    requires tokens < cap && slots > 0
    ensures var next := tokens + Min(perSlot, cap - tokens);
            next <= cap && Min(cap, next + (slots - 1) * perSlot) == Min(cap, tokens + slots * perSlot)
  {
    assert slots * perSlot == (slots - 1) * perSlot + perSlot;
  }

  /** The pacer alone brings the counter up to the cap, or as far as its slots go. */
  lemma {:induction false} FillUp(c: Config, s: State) returns (acts: seq<Action>)
    requires s.tokens <= c.cap && s.pacer.None?
    ensures Run(c, s, acts).Some?
    ensures var t := Run(c, s, acts).value;
            t.tokens == Min(c.cap, s.tokens + s.slots * c.perSlot) && t.workers == s.workers && t.sent == s.sent
    decreases s.slots
  {
    if s.tokens == c.cap || s.slots == 0 {
      acts := [];
    } else {
      var two := [PacerLoad, PacerAdd];
      RunTwo(c, s, PacerLoad, PacerAdd);
      var t := Run(c, s, two).value;
      hide Run, Next;
      OneSlot(s.tokens, c.cap, c.perSlot, s.slots);
      var rest := FillUp(c, t);
      acts := two + rest;
      RunConcat(c, s, two, rest);
    }
  }

  lemma {:induction false} GiveBack(c: Config, s: State, k: nat) returns (acts: seq<Action>)
    requires k <= |s.workers| && s.workers == Mixed(|s.workers|, k)
    ensures Run(c, s, acts).Some? && Run(c, s, acts).value.tokens == s.tokens + k
    decreases k
  {
    if k == 0 {
      acts := [];
    } else {
      var a := FetchAddBack(k - 1);
      RunOne(c, s, a);
      var t := Next(c, s, a).value;
      assert t.workers == Mixed(|s.workers|, k - 1);
      var rest := GiveBack(c, t, k - 1);
      acts := [a] + rest;
      RunConcat(c, s, [a], rest);
    }
  }

  /** `k` give-backs landing after the pacer filled up. */
  lemma LateGiveBacks(c: Config, workers: nat, slots: nat, k: nat) returns (acts: seq<Action>)
    requires k <= workers
    ensures Run(c, Start(workers, slots), acts).Some?
    ensures Run(c, Start(workers, slots), acts).value.tokens == Min(c.cap + k, slots * c.perSlot)
  {
    hide Next, Run;
    var owe := AllOwe(c, workers, slots, k);
    var s := Run(c, Start(workers, slots), owe).value;
    var fill := FillUp(c, s);
    var t := Run(c, s, fill).value;
    var back := GiveBack(c, t, k);
    acts := owe + fill + back;
    RunConcat(c, Start(workers, slots), owe, fill);
    RunConcat(c, Start(workers, slots), owe + fill, back);
  }

  /** Enough slots, and the bound of cap + W is reached. */
  lemma CapOvershoots(c: Config, workers: nat) returns (slots: nat, acts: seq<Action>)
    requires c.perSlot > 0
    ensures Run(c, Start(workers, slots), acts).Some?
    ensures Run(c, Start(workers, slots), acts).value.tokens == c.cap + workers
  {
    hide Next, Run;
    slots := c.cap + workers;
    acts := LateGiveBacks(c, workers, slots, workers);
    Arithmetic.MulMonotone(slots, 1, c.perSlot);
  }

  // ---------------------------------------------------------------- how far it goes in a run of given length

  /** Every credit takes its share of a slot. */
  ghost predicate Paid(c: Config, s: State, slots: nat) {
    s.slots <= slots && s.granted <= (slots - s.slots) * c.perSlot
  }

  lemma SlotPays(spent: nat, perSlot: nat)
    ensures (spent + 1) * perSlot == spent * perSlot + perSlot
  {
  }

  lemma PaidStep(c: Config, s: State, a: Action, slots: nat)
    requires Paid(c, s, slots) && Next(c, s, a).Some?
    ensures Paid(c, Next(c, s, a).value, slots)
  {
    SlotPays(slots - s.slots, c.perSlot);
  }

  lemma {:induction false} PaidRun(c: Config, workers: nat, slots: nat, acts: seq<Action>)
    requires Run(c, Start(workers, slots), acts).Some?
    ensures Paid(c, Run(c, Start(workers, slots), acts).value, slots)
  {
    hide Next;
    if acts != [] {
      var n := |acts| - 1;
      PaidRun(c, workers, slots, acts[..n]);
      PaidStep(c, Run(c, Start(workers, slots), acts[..n]).value, acts[n], slots);
    }
  }

  /** The highest the counter can be in a run of so many slots. */
  function MostTokens(c: Config, workers: nat, slots: nat): int {
    Min(c.cap + workers, slots * c.perSlot)
  }

  lemma NeverMore(c: Config, workers: nat, slots: nat, acts: seq<Action>)
    requires Run(c, Start(workers, slots), acts).Some?
    ensures Run(c, Start(workers, slots), acts).value.tokens <= MostTokens(c, workers, slots)
  {
    hide Next, Run, Inv, Start;
    EveryInterleaving(c, workers, slots, acts);
    InvRun(c, workers, slots, acts);
    PaidRun(c, workers, slots, acts);
    var s := Run(c, Start(workers, slots), acts).value;
    InHand(c, s);
    Arithmetic.MulMonotone(c.perSlot, slots - s.slots, slots);
  }

  lemma InHand(c: Config, s: State)
    requires Inv(c, s)
    ensures s.tokens <= s.granted
  {
  }

  /** Exactly: no run of so many slots takes the counter above `MostTokens`, and one takes it there. */
  lemma MostTokensIsReached(c: Config, workers: nat, slots: nat)
    ensures forall acts: seq<Action> :: Run(c, Start(workers, slots), acts).Some? ==>
              Run(c, Start(workers, slots), acts).value.tokens <= MostTokens(c, workers, slots)
    ensures exists acts: seq<Action> :: Run(c, Start(workers, slots), acts).Some? &&
              Run(c, Start(workers, slots), acts).value.tokens == MostTokens(c, workers, slots)
  {
    hide Run, Start;
    forall acts: seq<Action> | Run(c, Start(workers, slots), acts).Some?
      ensures Run(c, Start(workers, slots), acts).value.tokens <= MostTokens(c, workers, slots)
    {
      NeverMore(c, workers, slots, acts);
    }
    var acts := LateGiveBacks(c, workers, slots, workers);
  }

  /** So the documented cap holds in every run of so many slots exactly when there are no workers, or
      the slots cannot bring more than the cap. */
  lemma CapHoldsExactly(c: Config, workers: nat, slots: nat)
    ensures (forall acts: seq<Action> :: Run(c, Start(workers, slots), acts).Some? ==>
               Run(c, Start(workers, slots), acts).value.tokens <= c.cap) <==>
            workers == 0 || slots * c.perSlot <= c.cap
  {
    hide Run, Start;
    MostTokensIsReached(c, workers, slots);
  }

  /** And in every run of every length exactly when there are no workers. */
  lemma CapHoldsIffNoWorkers(c: Config, workers: nat)
    requires c.perSlot > 0
    ensures (forall slots: nat, acts: seq<Action> :: Run(c, Start(workers, slots), acts).Some? ==>
               Run(c, Start(workers, slots), acts).value.tokens <= c.cap) <==> workers == 0
  {
    hide Run, Start;
    var n: nat := c.cap + 1;
    CapHoldsExactly(c, workers, n);
    Arithmetic.MulMonotone(n, 1, c.perSlot);
    if workers == 0 {
      forall slots: nat, acts: seq<Action> | Run(c, Start(workers, slots), acts).Some?
        ensures Run(c, Start(workers, slots), acts).value.tokens <= c.cap
      {
        CapHoldsExactly(c, workers, slots);
      }
    }
  }

  // ---------------------------------------------------------------- the end of a run

  ghost predicate Ending(s: State) {
    && (s.done ==> s.slots == 0)
    && forall i :: 0 <= i < |s.workers| && s.workers[i] == Exited ==> s.done
  }

  /** The flag goes up only when the pacer is through, and no worker leaves before. */
  lemma {:induction false} NobodyLeavesEarly(c: Config, workers: nat, slots: nat, acts: seq<Action>)
    requires Run(c, Start(workers, slots), acts).Some?
    ensures Ending(Run(c, Start(workers, slots), acts).value)
  {
    hide Next, Ending;
    if acts == [] {
      EndingStart(workers, slots);
    } else {
      var n := |acts| - 1;
      NobodyLeavesEarly(c, workers, slots, acts[..n]);
      EndingStep(c, Run(c, Start(workers, slots), acts[..n]).value, acts[n]);
    }
  }

  lemma EndingStart(workers: nat, slots: nat)
    ensures Ending(Start(workers, slots))
  {
  }

  lemma EndingStep(c: Config, s: State, a: Action)
    requires Ending(s) && Next(c, s, a).Some?
    ensures Ending(Next(c, s, a).value)
  {
  }

  /** How often worker `i` takes from the counter. */
  function TakesBy(acts: seq<Action>, i: nat): nat {
    if acts == [] then 0
    else
      var n := |acts| - 1;
      TakesBy(acts[..n], i) + if acts[n] == FetchSub(i) then 1 else 0
  }

  /** The takes a worker has left once the flag is up. */
  function Left(p: Phase): nat {
    if p == Ready then 1 else 0
  }

  lemma TakeLeft(c: Config, s: State, a: Action, i: nat)
    requires i < |s.workers| && s.done && Next(c, s, a).Some?
    ensures var t := Next(c, s, a).value;
            && |t.workers| == |s.workers| && t.done
            && (if a == FetchSub(i) then 1 else 0) + Left(t.workers[i]) <= Left(s.workers[i])
            && (a == LoadDone(i) ==> t.workers[i] == Exited)
  {
  }

  /** After the flag is up a worker takes at most the one token it was about to take. */
  lemma {:induction false} DoneStopsTheWorkers(c: Config, s: State, acts: seq<Action>, i: nat)
    requires i < |s.workers| && s.done && Run(c, s, acts).Some?
    ensures var t := Run(c, s, acts).value;
            && |t.workers| == |s.workers| && t.done
            && TakesBy(acts, i) + Left(t.workers[i]) <= Left(s.workers[i])
  {
    hide Next, Left;
    if acts != [] {
      var n := |acts| - 1;
      DoneStopsTheWorkers(c, s, acts[..n], i);
      TakeLeft(c, Run(c, s, acts[..n]).value, acts[n], i);
    }
  }
}
