/** The ticketer as a state machine over file checks, and what its state means in terms of the
    history of those checks. */
module StekTicketer {
  import opened Wrappers
  import opened Stek

  // ---------------------------------------------------------------- the history reference

  /** The start of the unbroken run of checks, ending before `e`, that found one key material. */
  ghost function RunStart(h: seq<Option<Keys>>, e: nat): (s: nat)
    requires 0 < e <= |h| && h[e - 1].Some?
    ensures s < e
    ensures forall k :: s <= k < e ==> h[k].Some? && h[k].value.digest == h[e - 1].value.digest
    ensures s > 0 ==> h[s - 1].None? || h[s - 1].value.digest != h[e - 1].value.digest
  {
    if e > 1 && h[e - 2].Some? && h[e - 2].value.digest == h[e - 1].value.digest then RunStart(h, e - 1)
    else e - 1
  }

  /** The epoch such a run stands for: the keys first derived, with the last time stamp seen. */
  ghost function Epoch(h: seq<Option<Keys>>, e: nat): Keys
    requires 0 < e <= |h| && h[e - 1].Some?
  {
    h[RunStart(h, e)].value.(mtime := h[e - 1].value.mtime)
  }

  ghost function Current(h: seq<Option<Keys>>): Option<Keys> {
    if h == [] || h[|h| - 1].None? then None else Some(Epoch(h, |h|))
  }

  /** The run before the current one, if no failed check lies between. */
  ghost function Previous(h: seq<Option<Keys>>): Option<Keys> {
    if h == [] || h[|h| - 1].None? then None
    else
      var s := RunStart(h, |h|);
      if s > 0 && h[s - 1].Some? then Some(Epoch(h, s)) else None
  }

  lemma {:induction false} RunStartExtends(h: seq<Option<Keys>>, x: Option<Keys>, e: nat)
    requires 0 < e <= |h| && h[e - 1].Some?
    ensures RunStart(h + [x], e) == RunStart(h, e)
    ensures Epoch(h + [x], e) == Epoch(h, e)
  {
    if e > 1 && h[e - 2].Some? && h[e - 2].value.digest == h[e - 1].value.digest {
      RunStartExtends(h, x, e - 1);
    }
  }

  /** How one more check moves the two epochs. */
  lemma OneMoreCheck(h: seq<Option<Keys>>, x: Option<Keys>)
    ensures x.None? ==> Current(h + [x]) == None && Previous(h + [x]) == None
    ensures x.Some? && Current(h).None? ==> Current(h + [x]) == x && Previous(h + [x]) == None
    ensures x.Some? && Current(h).Some? && Current(h).value.digest == x.value.digest ==>
              && Current(h + [x]) == Some(Current(h).value.(mtime := x.value.mtime))
              && Previous(h + [x]) == Previous(h)
    ensures x.Some? && Current(h).Some? && Current(h).value.digest != x.value.digest ==>
              Current(h + [x]) == x && Previous(h + [x]) == Current(h)
  {
    var g, n := h + [x], |h|;
    if x.Some? && Current(h).Some? {
      RunStartExtends(h, x, n);
      var s := RunStart(h, n);
      if s > 0 && h[s - 1].Some? { RunStartExtends(h, x, s); }
    }
  }

  /** No current epoch means no previous one, and two held epochs have different key material. */
  lemma HeldEpochs(h: seq<Option<Keys>>)
    ensures Current(h).None? ==> Previous(h).None?
    ensures Previous(h).Some? ==> Previous(h).value.digest != Current(h).value.digest
  {
  }

  // ---------------------------------------------------------------- the ticketer

  /** One check of the file: its content and time stamp, or unusable. */
  type Sighting = Option<(Bytes, int)>

  function Look(file: File): Sighting {
    match file
    case Unreadable => None
    case File(mode, mtime, content) =>
      if mode % 64 != 0 || |content| != STEK_FILE_LEN then None else Some((content, mtime))
  }

  /** What a run of checks derives. */
  ghost function Derived(c: Crypto, binding: Bytes, seen: seq<Sighting>): (h: seq<Option<Keys>>)
    ensures |h| == |seen|
    ensures forall i :: 0 <= i < |h| ==>
              h[i] == if seen[i].Some? then Some(Derive(c, seen[i].value.0, binding, seen[i].value.1)) else None
  {
    seq(|seen|, i requires 0 <= i < |seen| =>
      if seen[i].Some? then Some(Derive(c, seen[i].value.0, binding, seen[i].value.1)) else None)
  }

  lemma DerivedMore(c: Crypto, binding: Bytes, seen: seq<Sighting>, file: File)
    ensures Derived(c, binding, seen + [Look(file)]) == Derived(c, binding, seen) + [ReadAndDerive(c, file, binding)]
  {
    hide Derived;
  }

  /** The current epoch is that of this file, if it is fit for use, and there is none otherwise. */
  ghost predicate LastFound(h: seq<Option<Keys>>, file: File) {
    && (Current(h).None? <==> Faulty(file))
    && (Current(h).None? ==> Previous(h).None?)
    && (Current(h).Some? ==> Current(h).value.mtime == file.mtime)
  }

  lemma FoundNow(c: Crypto, binding: Bytes, h: seq<Option<Keys>>, file: File)
    ensures LastFound(h + [ReadAndDerive(c, file, binding)], file)
  {
    ReadIffNotFaulty(c, file, binding);
    hide ReadAndDerive, Current, Previous;
    OneMoreCheck(h, ReadAndDerive(c, file, binding));
  }

  /** Whether a check is due: at most one per `recheck` seconds, and a clock that went back waits. */
  predicate Due(lastCheck: nat, recheck: nat, now: nat) {
    recheck == 0 || now >= lastCheck + recheck
  }

  ghost function Held(h: seq<Option<Keys>>): seq<Keys> {
    (if Current(h).Some? then [Current(h).value] else []) + (if Previous(h).Some? then [Previous(h).value] else [])
  }

  /** What a build starts from: an unusable file aborts it. */
  method Open(crypto: Crypto, maxAge: nat, binding: Bytes, recheck: nat, now: nat, file: File) returns (r: Option<Ticketer>)
    ensures r.None? <==> Faulty(file)
    ensures r.None? <==> ReadAndDerive(crypto, file, binding).None?
    ensures r.Some? ==>
              && fresh(r.value) && r.value.Valid() && r.value.history == [ReadAndDerive(crypto, file, binding)]
              && r.value.seen == [Look(file)] && r.value.found == [file]
              && r.value.lastCheck == now
              && r.value.crypto == crypto && r.value.maxAge == maxAge && r.value.binding == binding
              && r.value.recheck == recheck
  {
    ReadIffNotFaulty(crypto, file, binding);
    var keys := ReadAndDerive(crypto, file, binding);
    if keys.None? {
      return None;
    }
    var t := new Ticketer(crypto, maxAge, binding, recheck, now, keys.value, Look(file).value, file);
    r := Some(t);
  }

  class Ticketer {
    const crypto: Crypto
    const maxAge: nat
    const binding: Bytes
    const recheck: nat
    const lifetime: nat
    var lastCheck: nat
    var current: Option<Keys>
    var previous: Option<Keys>
    /** What every performed check derived, oldest first. */
    ghost var history: seq<Option<Keys>>
    /** What each of them saw of the file. */
    ghost var seen: seq<Sighting>
    /** The file as each of them found it. */
    ghost var found: seq<File>

    ghost predicate Valid()
      reads this
    {
      && history != [] && current == Current(history) && previous == Previous(history)
      && history == Derived(crypto, binding, seen)
      && lifetime == LifetimeSecs(maxAge)
      && found != [] && LastFound(history, found[|found| - 1])
    }

    /** The files found after a call at `now` that would find `file`. */
    ghost function Finds(now: nat, file: File, wins: bool): seq<File>
      reads this
    {
      if Due(lastCheck, recheck, now) && wins then found + [file] else found
    }

    ghost function Last(): File
      requires Valid()
      reads this
    {
      found[|found| - 1]
    }

    /** The sightings after a call at `now` that would find `file`. */
    ghost function Sees(now: nat, file: File, wins: bool): seq<Sighting>
      reads this
    {
      if Due(lastCheck, recheck, now) && wins then seen + [Look(file)] else seen
    }

    /** The history after a call at `now` that would find `file`. */
    ghost function Checked(now: nat, file: File, wins: bool): seq<Option<Keys>>
      reads this
    {
      if Due(lastCheck, recheck, now) && wins then history + [ReadAndDerive(crypto, file, binding)] else history
    }

    constructor (crypto: Crypto, maxAge: nat, binding: Bytes, recheck: nat, now: nat, keys: Keys,
                 ghost sighting: (Bytes, int), ghost file: File)
      requires keys == Derive(crypto, sighting.0, binding, sighting.1) && ReadAndDerive(crypto, file, binding) == Some(keys)
      ensures Valid() && history == [Some(keys)] && seen == [Some(sighting)] && found == [file] && lastCheck == now
      ensures this.crypto == crypto && this.maxAge == maxAge && this.binding == binding && this.recheck == recheck
    {
      this.crypto, this.maxAge, this.binding, this.recheck := crypto, maxAge, binding, recheck;
      lifetime := LifetimeSecs(maxAge);
      lastCheck := now;
      current, previous := Some(keys), None;
      history, seen, found := [Some(keys)], [Some(sighting)], [file];
      FoundNow(crypto, binding, [], file);
      assert [] + [ReadAndDerive(crypto, file, binding)] == [Some(keys)];
    }

    /** The throttled re-read.  `wins` is whether this thread wins the race for the window. */
    method MaybeReload(now: nat, file: File, wins: bool)
      requires Valid()
      modifies this
      ensures Valid()
      ensures history == old(Checked(now, file, wins)) && seen == old(Sees(now, file, wins))
      ensures found == old(Finds(now, file, wins))
      ensures lastCheck == if Due(old(lastCheck), recheck, now) && wins then now else old(lastCheck)
      ensures found == old(found) || found == old(found) + [file]
      ensures found != old(found) <==> wins && (recheck == 0 || now >= old(lastCheck) + recheck)
    {
      hide Current, Previous, Derived, ReadAndDerive, Look, LastFound;
      var elapsed := if now < lastCheck then 0 else now - lastCheck;
      if elapsed < recheck {
        return;
      }
      if !wins {
        return;
      }
      lastCheck := now;
      var read := ReadAndDerive(crypto, file, binding);
      OneMoreCheck(history, read);
      HeldEpochs(history);
      DerivedMore(crypto, binding, seen, file);
      FoundNow(crypto, binding, history, file);
      history, seen, found := history + [read], seen + [Look(file)], found + [file];
      match read {
        case Some(keys) =>
          match current {
            case Some(held) =>
              if held.digest == keys.digest {
                current := Some(held.(mtime := keys.mtime));
              } else {
                previous := current;
                current := Some(keys);
              }
            case None =>
              current := Some(keys);
          }
        case None =>
          current, previous := None, None;
      }
    }

    /** The lifetime advertised with every ticket. */
    method Lifetime() returns (secs: nat)
      requires Valid()
      ensures secs == LifetimeSecs(maxAge)
    {
      secs := lifetime;
    }

    /** Whether tickets are offered, after the throttled check. */
    method Enabled(now: nat, wall: int, file: File, wins: bool) returns (r: bool)
      requires Valid()
      modifies this
      ensures Valid() && history == old(Checked(now, file, wins)) && seen == old(Sees(now, file, wins))
      ensures found == old(Finds(now, file, wins))
      ensures r <==> !Faulty(Last()) && (wall < Last().mtime || wall - Last().mtime <= maxAge)
      ensures r <==> Current(history).Some? && Fresh(Current(history).value, wall, maxAge)
    {
      MaybeReload(now, file, wins);
      r := current.Some? && Fresh(current.value, wall, maxAge);
    }

    /** Issue a ticket, under the current epoch only.  `iv` is the random draw, which may fail. */
    method Encrypt(now: nat, wall: int, file: File, wins: bool, plain: Bytes, iv: Option<Bytes>) returns (r: Option<Bytes>)
      requires Valid()
      modifies this
      ensures Valid() && history == old(Checked(now, file, wins)) && seen == old(Sees(now, file, wins))
      ensures found == old(Finds(now, file, wins))
      ensures r.Some? <==> !Faulty(Last()) && (wall < Last().mtime || wall - Last().mtime <= maxAge) && iv.Some?
      ensures r == if Current(history).Some? && Fresh(Current(history).value, wall, maxAge) && iv.Some?
                   then Some(Sealed(crypto, Current(history).value, iv.value, plain)) else None
    {
      MaybeReload(now, file, wins);
      if current.None? || !Fresh(current.value, wall, maxAge) || iv.None? {
        return None;
      }
      var ct := crypto.encrypt(current.value.cipher, iv.value, plain);
      var out := current.value.name + iv.value + ct;
      var tag := crypto.sign(current.value.mac, out);
      r := Some(out + tag);
    }

    /** Accept a ticket under the current or the previous epoch. */
    method Decrypt(now: nat, wall: int, file: File, wins: bool, ticket: Bytes) returns (r: Option<Bytes>)
      requires Valid()
      modifies this
      ensures Valid() && history == old(Checked(now, file, wins)) && seen == old(Sees(now, file, wins))
      ensures found == old(Finds(now, file, wins))
      ensures r == Accept(crypto, Held(history), wall, maxAge, ticket)
      ensures Faulty(Last()) ==> r.None?
      ensures history[|history| - 1].None? ==> r.None?
    {
      MaybeReload(now, file, wins);
      var held := (if current.Some? then [current.value] else []) + (if previous.Some? then [previous.value] else []);
      r := Accept(crypto, held, wall, maxAge, ticket);
    }
  }

  // ---------------------------------------------------------------- in terms of file contents

  /** The last read of other content before the run of one content that ends before `e`, unless a
      failed check lies between. */
  ghost function LastOther(seen: seq<Sighting>, e: nat): Sighting
    requires 0 < e <= |seen| && seen[e - 1].Some?
  {
    if e == 1 || seen[e - 2].None? then None
    else if seen[e - 2].value.0 == seen[e - 1].value.0 then LastOther(seen, e - 1)
    else seen[e - 2]
  }

  /** The contents in force: the last read, and the distinct one before it. */
  ghost function HeldContents(seen: seq<Sighting>): seq<(Bytes, int)> {
    if seen == [] || seen[|seen| - 1].None? then []
    else
      var other := LastOther(seen, |seen|);
      [seen[|seen| - 1].value] + if other.Some? then [other.value] else []
  }

  /** No two different contents among the reads share a digest. */
  ghost predicate DigestsDiffer(c: Crypto, seen: seq<Sighting>) {
    forall i, j :: 0 <= i < |seen| && 0 <= j < |seen| && seen[i].Some? && seen[j].Some? ==>
      c.digest(seen[i].value.0) == c.digest(seen[j].value.0) ==> seen[i].value.0 == seen[j].value.0
  }

  /** Two checks in a row found the same key material exactly if they found the same content. */
  predicate SameBefore(seen: seq<Sighting>, e: nat)
    requires e <= |seen|
  {
    e > 1 && seen[e - 1].Some? && seen[e - 2].Some? && seen[e - 2].value.0 == seen[e - 1].value.0
  }

  lemma SameContentSameKeys(c: Crypto, binding: Bytes, seen: seq<Sighting>, e: nat)
    requires DigestsDiffer(c, seen) && 0 < e <= |seen| && seen[e - 1].Some?
    ensures var h := Derived(c, binding, seen);
            && h[e - 1].Some?
            && (e > 1 ==> (h[e - 2].Some? <==> seen[e - 2].Some?))
            && (e > 1 && h[e - 2].Some? ==>
                  (h[e - 2].value.digest == h[e - 1].value.digest <==> SameBefore(seen, e)))
            && (SameBefore(seen, e) ==> h[e - 2].value.(mtime := h[e - 1].value.mtime) == h[e - 1].value)
  {
    hide Derived;
  }

  lemma EpochStep(h: seq<Option<Keys>>, e: nat)
    requires 0 < e <= |h| && h[e - 1].Some?
    ensures var same := e > 1 && h[e - 2].Some? && h[e - 2].value.digest == h[e - 1].value.digest;
            && RunStart(h, e) == (if same then RunStart(h, e - 1) else e - 1)
            && Epoch(h, e) == if same then Epoch(h, e - 1).(mtime := h[e - 1].value.mtime) else h[e - 1].value
  {
  }

  lemma LastOtherStep(seen: seq<Sighting>, e: nat)
    requires 0 < e <= |seen| && seen[e - 1].Some?
    ensures LastOther(seen, e) ==
            if SameBefore(seen, e) then LastOther(seen, e - 1) else if e == 1 then None else seen[e - 2]
  {
  }

  lemma {:induction false} RunOfContent(c: Crypto, binding: Bytes, seen: seq<Sighting>, e: nat)
    requires DigestsDiffer(c, seen) && 0 < e <= |seen| && seen[e - 1].Some?
    ensures var h := Derived(c, binding, seen);
            var s := RunStart(h, e);
            && h[e - 1].Some?
            && Epoch(h, e) == h[e - 1].value
            && LastOther(seen, e) == if s > 0 && h[s - 1].Some? then seen[s - 1] else None
  {
    hide Derived, RunStart, Epoch, LastOther, Derive, DigestsDiffer;
    SameContentSameKeys(c, binding, seen, e);
    EpochStep(Derived(c, binding, seen), e);
    LastOtherStep(seen, e);
    if SameBefore(seen, e) {
      RunOfContent(c, binding, seen, e - 1);
    }
  }

  ghost function DeriveAll(c: Crypto, binding: Bytes, contents: seq<(Bytes, int)>): (r: seq<Keys>)
    ensures |r| == |contents|
    ensures forall i :: 0 <= i < |r| ==> r[i] == Derive(c, contents[i].0, binding, contents[i].1)
  {
    seq(|contents|, i requires 0 <= i < |contents| => Derive(c, contents[i].0, binding, contents[i].1))
  }

  /** The epochs held after any run of checks are those of the contents in force. */
  lemma HeldAreContents(c: Crypto, binding: Bytes, seen: seq<Sighting>)
    requires DigestsDiffer(c, seen)
    ensures Held(Derived(c, binding, seen)) == DeriveAll(c, binding, HeldContents(seen))
  {
    hide RunStart, Epoch, LastOther, Derived, DeriveAll, Derive, DigestsDiffer;
    var h, n := Derived(c, binding, seen), |seen|;
    if n > 0 && seen[n - 1].Some? {
      RunOfContent(c, binding, seen, n);
      var s := RunStart(h, n);
      if s > 0 && h[s - 1].Some? {
        RunOfContent(c, binding, seen, s);
      }
    }
  }

  // ---------------------------------------------------------------- across replicas

  ghost predicate FreshlyHeld(contents: seq<(Bytes, int)>, v: Bytes, wall: int, maxAge: nat) {
    exists k :: 0 <= k < |contents| && contents[k].0 == v && StillFresh(contents[k].1, wall, maxAge)
  }

  /** Different (content, binding) pairs in play have different public key names. */
  ghost predicate NamesDiffer(c: Crypto, v: Bytes, b: Bytes, contents: seq<(Bytes, int)>, b': Bytes) {
    forall k :: 0 <= k < |contents| && c.expand(contents[k].0, b', KeyName) == c.expand(v, b, KeyName) ==>
      contents[k].0 == v && b' == b
  }

  lemma {:induction false} AcceptSealed(c: Crypto, v: Bytes, b: Bytes, mtime: int, iv: Bytes, plain: Bytes,
                                        contents: seq<(Bytes, int)>, b': Bytes, wall: int, maxAge: nat)
    requires c.Lawful() && |iv| == IV_LEN && NamesDiffer(c, v, b, contents, b')
    ensures Accept(c, DeriveAll(c, b', contents), wall, maxAge, Sealed(c, Derive(c, v, b, mtime), iv, plain)) ==
            if b' == b && FreshlyHeld(contents, v, wall, maxAge) then Some(plain) else None
  {
    var ticket := Sealed(c, Derive(c, v, b, mtime), iv, plain);
    var held := DeriveAll(c, b', contents);
    OpenSealed(c, Derive(c, v, b, mtime), iv, plain);
    if contents != [] {
      var rest := contents[1..];
      assert held[1..] == DeriveAll(c, b', rest);
      assert NamesDiffer(c, v, b, rest, b') by {
        assert forall k :: 0 <= k < |rest| ==> rest[k] == contents[k + 1];
      }
      AcceptSealed(c, v, b, mtime, iv, plain, rest, b', wall, maxAge);
      FreshlyHeldSplits(contents, v, wall, maxAge);
      if Fresh(held[0], wall, maxAge) && Names(held[0], ticket) {
        assert held[0] == Derive(c, v, b, mtime).(mtime := contents[0].1);
      }
    }
  }

  lemma FreshlyHeldSplits(contents: seq<(Bytes, int)>, v: Bytes, wall: int, maxAge: nat)
    requires contents != []
    ensures FreshlyHeld(contents, v, wall, maxAge) <==>
            || (contents[0].0 == v && StillFresh(contents[0].1, wall, maxAge))
            || FreshlyHeld(contents[1..], v, wall, maxAge)
  {
    assert forall k :: 1 <= k < |contents| ==> contents[k] == contents[1..][k - 1];
    if FreshlyHeld(contents[1..], v, wall, maxAge) {
      var k :| 0 <= k < |contents| - 1 && contents[1..][k].0 == v && StillFresh(contents[1..][k].1, wall, maxAge);
      assert contents[k + 1].0 == v;
    }
  }

  /** Two replicas that watched the file at different times: a ticket sealed under content `v`
      opens on the other one exactly when `v` is, freshly, its current or previous content and both
      serve the same certificates. */
  lemma AcrossReplicas(c: Crypto, v: Bytes, b: Bytes, mtime: int, iv: Bytes, plain: Bytes,
                       seen: seq<Sighting>, b': Bytes, wall: int, maxAge: nat)
    requires c.Lawful() && |iv| == IV_LEN && DigestsDiffer(c, seen)
    requires NamesDiffer(c, v, b, HeldContents(seen), b')
    ensures Accept(c, Held(Derived(c, b', seen)), wall, maxAge, Sealed(c, Derive(c, v, b, mtime), iv, plain)) ==
            if b' == b && FreshlyHeld(HeldContents(seen), v, wall, maxAge) then Some(plain) else None
  {
    HeldAreContents(c, b', seen);
    AcceptSealed(c, v, b, mtime, iv, plain, HeldContents(seen), b', wall, maxAge);
  }

  /** What a call meets: the throttle clock, the wall clock, the key file, and the race. */
  datatype Moment = Moment(now: nat, wall: int, file: File, wins: bool)

  /** The first epoch held is that of the last content seen. */
  lemma CurrentIsLastSeen(c: Crypto, binding: Bytes, seen: seq<Sighting>)
    requires seen != [] && DigestsDiffer(c, seen)
    ensures var last := seen[|seen| - 1];
            && Current(Derived(c, binding, seen)) ==
               (if last.Some? then Some(Derive(c, last.value.0, binding, last.value.1)) else None)
            && (last.Some? ==> Current(Derived(c, binding, seen)).value.mtime == last.value.1)
  {
    hide RunStart, Epoch, LastOther, Derived, DeriveAll;
    HeldAreContents(c, binding, seen);
    if seen[|seen| - 1].Some? {
      assert Held(Derived(c, binding, seen))[0] == Current(Derived(c, binding, seen)).value;
    }
  }

  /** A ticket is issued exactly if the content seen last is usable and fresh, and under that content. */
  method IssueUnderLastSeen(a: Ticketer, issue: Moment, plain: Bytes, iv: Bytes) returns (ticket: Option<Bytes>)
    requires a.Valid() && DigestsDiffer(a.crypto, a.Sees(issue.now, issue.file, issue.wins))
    modifies a
    ensures a.Valid() && a.seen == old(a.Sees(issue.now, issue.file, issue.wins)) && a.seen != []
    ensures var last := a.seen[|a.seen| - 1];
            ticket == if last.Some? && StillFresh(last.value.1, issue.wall, a.maxAge)
                      then Some(Sealed(a.crypto, Derive(a.crypto, last.value.0, a.binding, last.value.1), iv, plain))
                      else None
  {
    hide Current, Previous, Derived, Sealed, DigestsDiffer, Look, Derive, ReadAndDerive, Due;
    ticket := a.Encrypt(issue.now, issue.wall, issue.file, issue.wins, plain, Some(iv));
    CurrentIsLastSeen(a.crypto, a.binding, a.seen);
  }

  /** Two replicas: a ticket is issued by `a`, exactly if the content `a` saw last is usable and
      fresh, and then presented to `b`, which opens it exactly if that content is freshly its current
      or its previous one and both serve the same certificates. */
  method ResumeElsewhere(a: Ticketer, b: Ticketer, issue: Moment, resume: Moment, plain: Bytes, iv: Bytes)
    returns (ticket: Option<Bytes>, r: Option<Bytes>)
    requires a != b && a.Valid() && b.Valid() && a.crypto == b.crypto && a.crypto.Lawful() && |iv| == IV_LEN
    requires DigestsDiffer(a.crypto, a.Sees(issue.now, issue.file, issue.wins))
    requires DigestsDiffer(b.crypto, b.Sees(resume.now, resume.file, resume.wins))
    requires forall k :: 0 <= k < |a.Sees(issue.now, issue.file, issue.wins)| ==>
               var s := a.Sees(issue.now, issue.file, issue.wins)[k];
               s.Some? ==> NamesDiffer(a.crypto, s.value.0, a.binding,
                                       HeldContents(b.Sees(resume.now, resume.file, resume.wins)), b.binding)
    modifies a, b
    ensures a.Valid() && b.Valid()
    ensures a.seen == old(a.Sees(issue.now, issue.file, issue.wins))
    ensures b.seen == old(b.Sees(resume.now, resume.file, resume.wins))
    ensures a.seen != []
    ensures var last := a.seen[|a.seen| - 1];
            && (ticket.Some? <==> last.Some? && StillFresh(last.value.1, issue.wall, a.maxAge))
            && (ticket.None? ==> r.None?)
            && (ticket.Some? ==>
                  r == if a.binding == b.binding && FreshlyHeld(HeldContents(b.seen), last.value.0, resume.wall, b.maxAge)
                       then Some(plain) else None)
  {
    hide *;
    ticket := IssueUnderLastSeen(a, issue, plain, iv);
    if ticket.None? {
      b.MaybeReload(resume.now, resume.file, resume.wins);
      return None, None;
    }
    r := b.Decrypt(resume.now, resume.wall, resume.file, resume.wins, ticket.value);
    ghost var last := a.seen[|a.seen| - 1].value;
    assert b.history == Derived(b.crypto, b.binding, b.seen) by { HistoryIsDerived(b); }
    AcrossReplicas(a.crypto, last.0, a.binding, last.1, iv, plain, b.seen, b.binding, resume.wall, b.maxAge);
  }

  lemma HistoryIsDerived(t: Ticketer)
    requires t.Valid()
    ensures t.history == Derived(t.crypto, t.binding, t.seen)
  {
  }
}
