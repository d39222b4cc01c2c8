/** The registry of upstream groups, which outlives every configuration. */
module Registry {
  import opened Wrappers
  import opened Words
  import opened Health

  /** An upstream as declared.  `lbOk` is whether its load-balancing settings are valid, `tls` the
      TLS section, `tlsLoads` whether its certificate files load. */
  datatype Upstream = Upstream(name: string, addresses: seq<(string, nat)>, health: HealthConfig, tls: string, lbOk: bool, tlsLoads: bool)

  /** A live upstream: its instances, which configurations share, and its rotation counter. */
  class Group {
    const spec: Upstream
    const instances: seq<Instance>
    var cursor: nat

    constructor (spec: Upstream, instances: seq<Instance>, cursor: nat)
      ensures this.spec == spec && this.instances == instances && this.cursor == cursor
    {
      this.spec, this.instances, this.cursor := spec, instances, cursor;
    }

    /** The rotation counter, which moves on by one, going round at 2^64. */
    method NextTurn() returns (turn: nat)
      modifies this
      ensures turn == old(cursor) && cursor == (old(cursor) + 1) % U64
    {
      turn := cursor;
      cursor := (cursor + 1) % U64;
    }
  }

  datatype RegistryError = EmptyAddresses(name: string) | DuplicateUpstream(name: string) | InvalidLb(name: string) | BadTls(name: string)

  function FindInstance(instances: seq<Instance>, address: string, weight: nat): (r: Option<Instance>)
    ensures r.Some? ==> r.value in instances && r.value.address == address && r.value.weight == weight
    ensures r.None? ==> forall x :: x in instances ==> x.address != address || x.weight != weight
  {
    if instances == [] then None
    else if instances[0].address == address && instances[0].weight == weight then Some(instances[0])
    else FindInstance(instances[1..], address, weight)
  }

  function Lookup(groups: map<string, Group>, name: string): Option<Group> {
    if name in groups then Some(groups[name]) else None
  }

  /** The instances that may be taken over: those under the same health and TLS settings. */
  function Usable(up: Upstream, prev: Option<Group>): seq<Instance> {
    if prev.Some? && prev.value.spec.health == up.health && prev.value.spec.tls == up.tls
    then prev.value.instances else []
  }

  /** The known instance for the `j`-th address of an upstream. */
  function KnownInstance(up: Upstream, prev: Option<Group>, j: nat): Option<Instance>
    requires j < |up.addresses|
  {
    FindInstance(Usable(up, prev), up.addresses[j].0, up.addresses[j].1)
  }

  /** What a reload keeps: exactly an instance of the group of that name with the same address and
      weight, if neither the health nor the TLS settings of the upstream changed. */
  lemma StandingSurvives(up: Upstream, prev: Option<Group>, j: nat)
    requires j < |up.addresses|
    ensures KnownInstance(up, prev, j).Some? <==>
            && prev.Some? && prev.value.spec.health == up.health && prev.value.spec.tls == up.tls
            && exists x :: x in prev.value.instances && x.address == up.addresses[j].0 && x.weight == up.addresses[j].1
    ensures KnownInstance(up, prev, j).Some? ==>
              var x := KnownInstance(up, prev, j).value;
              x in prev.value.instances && x.address == up.addresses[j].0 && x.weight == up.addresses[j].1
  {
  }

  /** An instance made for this address under this policy, never probed. */
  ghost predicate Unprobed(x: Instance, up: Upstream, j: nat)
    requires j < |up.addresses|
    reads x
  {
    && x.Valid() && x.outcomes == [] && x.address == up.addresses[j].0
    && x.weight == (if up.addresses[j].1 == 0 then 1 else up.addresses[j].1)
    && x.up == AtLeastOne(up.health.healthyThreshold) && x.down == AtLeastOne(up.health.unhealthyThreshold)
  }

  /** The instances of a rebuilt group: the known ones are the same objects as before, the others new. */
  twostate predicate Renewed(new xs: seq<Instance>, up: Upstream, prev: Option<Group>)
    reads xs
  {
    && |xs| == |up.addresses|
    && forall j :: 0 <= j < |xs| ==>
         (KnownInstance(up, prev, j).Some? ==> xs[j] == KnownInstance(up, prev, j).value)
         && (KnownInstance(up, prev, j).None? ==> fresh(xs[j]) && Unprobed(xs[j], up, j))
  }

  /** A rebuilt group: as declared, its instances renewed, its rotation continued. */
  twostate predicate Rebuilt(new g: Group, up: Upstream, prev: Option<Group>)
    reads g, g.instances
  {
    && g.spec == up && Renewed(g.instances, up, prev)
    && g.cursor == if prev.Some? then old(prev.value.cursor) else 0
  }

  predicate Reconcilable(ups: seq<Upstream>) {
    && (forall i :: 0 <= i < |ups| ==> ups[i].addresses != [] && ups[i].lbOk && ups[i].tlsLoads)
    && (forall i, j :: 0 <= i < j < |ups| ==> ups[i].name != ups[j].name)
  }

  /** The first round of checks passes upstream `i`. */
  predicate SettingsOk(ups: seq<Upstream>, i: nat)
    requires i < |ups|
  {
    ups[i].addresses != [] && (forall k :: 0 <= k < i ==> ups[k].name != ups[i].name) && ups[i].lbOk
  }

  lemma ReconcilableIs(ups: seq<Upstream>)
    ensures Reconcilable(ups) <==>
            (forall i :: 0 <= i < |ups| ==> SettingsOk(ups, i)) && forall i :: 0 <= i < |ups| ==> ups[i].tlsLoads
  {
    if Reconcilable(ups) {
      forall i | 0 <= i < |ups| ensures SettingsOk(ups, i) {
      }
    }
    if forall i :: 0 <= i < |ups| ==> SettingsOk(ups, i) {
      forall i | 0 <= i < |ups| ensures ups[i].addresses != [] && ups[i].lbOk {
        assert SettingsOk(ups, i);
      }
      forall i, j | 0 <= i < j < |ups| ensures ups[i].name != ups[j].name {
        assert SettingsOk(ups, j);
      }
    }
  }

  /** Why a list is refused: its first upstream with bad settings, and the first thing wrong with it;
      or, all settings being good, the first whose TLS files do not load. */
  ghost predicate RefusedAt(ups: seq<Upstream>, i: nat, e: RegistryError) {
    && i < |ups| && e.name == ups[i].name
    && (e.BadTls? ==>
          && (forall k :: 0 <= k < |ups| ==> SettingsOk(ups, k))
          && (forall k :: 0 <= k < i ==> ups[k].tlsLoads) && !ups[i].tlsLoads)
    && (!e.BadTls? ==> forall k :: 0 <= k < i ==> SettingsOk(ups, k))
    && (e.EmptyAddresses? ==> ups[i].addresses == [])
    && (e.DuplicateUpstream? ==> ups[i].addresses != [] && exists k :: 0 <= k < i && ups[k].name == ups[i].name)
    && (e.InvalidLb? ==>
          ups[i].addresses != [] && (forall k :: 0 <= k < i ==> ups[k].name != ups[i].name) && !ups[i].lbOk)
  }

  /** The registry for exactly these upstreams, each as declared. */
  ghost predicate ReconciledFor(groups: map<string, Group>, ups: seq<Upstream>) {
    && (forall name :: name in groups <==> exists i :: 0 <= i < |ups| && ups[i].name == name)
    && (forall i :: 0 <= i < |ups| ==> ups[i].name in groups && groups[ups[i].name].spec == ups[i])
  }

  ghost function AllInstances(groups: map<string, Group>): (s: set<Instance>)
    ensures forall name, x :: name in groups && x in groups[name].instances ==> x in s
  {
    set name, x | name in groups && x in groups[name].instances :: x
  }

  class UpstreamRegistry {
    var groups: map<string, Group>

    /** Every instance's standing is what its probes amount to. */
    ghost predicate Valid()
      reads this, AllInstances(groups)
    {
      AllValid(groups)
    }

    constructor ()
      ensures groups == map[] && Valid()
    {
      groups := map[];
    }

    /** All checks run over the whole list before anything changes.  Nothing but the map of groups
        changes: an instance that is taken over is the same object, with all its probes. */
    method Reconcile(ups: seq<Upstream>) returns (err: Option<RegistryError>)
      requires Valid()
      modifies this
      ensures Valid()
      ensures err.None? <==> Reconcilable(ups)
      ensures err.Some? ==> groups == old(groups) && exists i :: 0 <= i < |ups| && RefusedAt(ups, i, err.value)
      ensures err.None? ==> ReconciledFor(groups, ups)
      ensures err.None? ==> RebuiltAll(groups, ups, old(groups))
    {
      hide Reconcilable, ReconciledFor, KnownInstance, Usable, Unprobed, RefusedAt;
      err := Check(ups);
      if err.Some? {
        return;
      }
      groups := BuildAll(ups, groups);
    }

    /** A probe, or a forwarded request that could not connect, of the `j`-th instance of a group. */
    method RecordOutcome(name: string, j: nat, ok: bool)
      requires Valid() && name in groups && j < |groups[name].instances|
      modifies groups[name].instances[j]
      ensures Valid()
      ensures var x := groups[name].instances[j]; x.outcomes == old(x.outcomes) + [ok]
    {
      var x := groups[name].instances[j];
      assert x in groups[name].instances;
      assert x in AllInstances(groups);
      if ok { x.RecordSuccess(); } else { x.RecordFailure(); }
    }
  }

  ghost predicate AllValid(groups: map<string, Group>)
    reads AllInstances(groups)
  {
    forall x :: x in AllInstances(groups) ==> x.Valid()
  }

  /** The groups after a walk over the first upstreams of a list. */
  twostate predicate RebuiltAll(new next: map<string, Group>, ups: seq<Upstream>, prev: map<string, Group>)
    reads next.Values, AllInstances(next)
  {
    forall i :: 0 <= i < |ups| ==>
      && ups[i].name in next && fresh(next[ups[i].name])
      && Rebuilt(next[ups[i].name], ups[i], Lookup(prev, ups[i].name))
  }

  /** All the groups of a manifest, without touching those there are. */
  method BuildAll(ups: seq<Upstream>, prev: map<string, Group>) returns (next: map<string, Group>)
    requires Reconcilable(ups) && AllValid(prev)
    ensures ReconciledFor(next, ups) && AllValid(next) && RebuiltAll(next, ups, prev)
  {
    hide ReconciledFor, KnownInstance, Unprobed;
    next := map[];
    assert ReconciledFor(next, ups[..0]) by { EmptyList(); }
    for i := 0 to |ups|
      invariant ReconciledFor(next, ups[..i]) && AllValid(next) && RebuiltAll(next, ups[..i], prev)
    {
      assert forall x :: x in Usable(ups[i], Lookup(prev, ups[i].name)) ==> x in AllInstances(prev);
      var g := Rebuild(ups[i], Lookup(prev, ups[i].name));
      NextName(next, ups, i, g);
      next := next[ups[i].name := g];
    }
    assert ups[..|ups|] == ups;
  }

  lemma EmptyList()
    ensures ReconciledFor(map[], [])
  {
  }

  /** One group: look every address up, and make what is not known. */
  method Rebuild(up: Upstream, prev: Option<Group>) returns (g: Group)
    requires forall x :: x in Usable(up, prev) ==> x.Valid()
    ensures fresh(g) && g.spec == up && Rebuilt(g, up, prev)
    ensures forall x :: x in g.instances ==> x.Valid()
  {
    var xs: seq<Instance> := [];
    for j := 0 to |up.addresses|
      invariant |xs| == j
      invariant forall k :: 0 <= k < j ==>
                  && xs[k].Valid()
                  && (KnownInstance(up, prev, k).Some? ==> xs[k] == KnownInstance(up, prev, k).value)
                  && (KnownInstance(up, prev, k).None? ==> fresh(xs[k]) && Unprobed(xs[k], up, k))
    {
      var known := KnownInstance(up, prev, j);
      if known.Some? {
        xs := xs + [known.value];
      } else {
        var x := new Instance(up.addresses[j].0, up.addresses[j].1, up.health);
        xs := xs + [x];
      }
    }
    g := new Group(up, xs, if prev.Some? then prev.value.cursor else 0);
  }

  lemma NextName(next: map<string, Group>, ups: seq<Upstream>, i: nat, g: Group)
    requires i < |ups| && ReconciledFor(next, ups[..i]) && g.spec == ups[i] && Reconcilable(ups)
    ensures ReconciledFor(next[ups[i].name := g], ups[..i + 1])
  {
    var before, after := ups[..i], ups[..i + 1];
    assert after == before + [ups[i]];
    assert after[i] == ups[i];
    var more := next[ups[i].name := g];
    forall name ensures name in more <==> exists k :: 0 <= k < |after| && after[k].name == name {
      if name in next {
        var k :| 0 <= k < |before| && before[k].name == name;
        assert after[k].name == name;
      }
      if k :| 0 <= k < |after| && after[k].name == name {
        if k < i { assert before[k].name == name; }
      }
    }
  }

  /** The checks, in order: each upstream's own settings as the list is walked, then the TLS files. */
  method Check(ups: seq<Upstream>) returns (err: Option<RegistryError>)
    ensures err.None? <==> Reconcilable(ups)
    ensures err.Some? ==> exists i :: 0 <= i < |ups| && RefusedAt(ups, i, err.value)
  {
    ReconcilableIs(ups);
    hide Reconcilable;
    var seen: set<string> := {};
    for i := 0 to |ups|
      invariant forall k :: 0 <= k < i ==> SettingsOk(ups, k)
      invariant forall name :: name in seen <==> exists k :: 0 <= k < i && ups[k].name == name
    {
      if ups[i].addresses == [] {
        assert !SettingsOk(ups, i) && RefusedAt(ups, i, EmptyAddresses(ups[i].name));
        return Some(EmptyAddresses(ups[i].name));
      }
      if ups[i].name in seen {
        assert !SettingsOk(ups, i) && RefusedAt(ups, i, DuplicateUpstream(ups[i].name));
        return Some(DuplicateUpstream(ups[i].name));
      }
      seen := seen + {ups[i].name};
      if !ups[i].lbOk {
        assert !SettingsOk(ups, i) && RefusedAt(ups, i, InvalidLb(ups[i].name));
        return Some(InvalidLb(ups[i].name));
      }
    }
    for i := 0 to |ups|
      invariant forall k :: 0 <= k < i ==> ups[k].tlsLoads
    {
      if !ups[i].tlsLoads {
        assert RefusedAt(ups, i, BadTls(ups[i].name));
        return Some(BadTls(ups[i].name));
      }
    }
    err := None;
  }

  /** Every known instance is the object it was, and no probe of it is forgotten. */
  twostate predicate Survive(new groups: map<string, Group>, ups: seq<Upstream>, prev: map<string, Group>)
    reads groups.Values, AllInstances(groups)
  {
    forall i, j :: 0 <= i < |ups| && 0 <= j < |ups[i].addresses| ==>
      var known := KnownInstance(ups[i], Lookup(prev, ups[i].name), j);
      known.Some? ==>
        && ups[i].name in groups && j < |groups[ups[i].name].instances|
        && groups[ups[i].name].instances[j] == known.value
        && known.value.outcomes == old(known.value.outcomes)
  }
}
