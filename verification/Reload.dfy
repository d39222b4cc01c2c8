/** Building a configuration and swapping it in, next to a registry that the build mutates last. */
module Reload {
  import opened Wrappers
  import opened Registry
  import opened ReloadChecks
  import opened Ascii
  import Apportionment
  import Gcd
  import WeightedSplit
  import WeightedBackends

  /** What the file system, the artifact store and the loader answer during one attempt.  The gate
      reads before the build does, so its answers may differ. */
  datatype Env = Env(
    loads: FilterEntry -> bool,
    tlsBuilds: Manifest -> bool,
    hash: Manifest -> Option<string>,
    fingerprint: (Manifest, string) -> Option<string>,
    gateHash: Manifest -> Option<string>,
    gateFingerprint: (Manifest, string) -> Option<string>)

  datatype CompiledRoute = CompiledRoute(spec: RouteSpec, chain: seq<FilterEntry>, backends: WeightedBackends.Backends<Group>)

  datatype Active = Active(manifest: Manifest, filters: map<string, FilterEntry>, routes: seq<CompiledRoute>,
                           hash: string, fingerprint: string)

  function FilterIds(m: Manifest): set<string> {
    set f | f in m.filters :: f.id
  }

  function UpstreamNames(m: Manifest): set<string> {
    set u | u in m.upstreams :: u.name
  }

  /** Everything a build checks before it turns to the registry. */
  ghost predicate Preparable(m: Manifest, env: Env) {
    && FiltersOk(m)
    && (forall f :: f in m.filters ==> env.loads(f))
    && RoutesOk(m.routes, FilterIds(m), UpstreamNames(m))
    && env.tlsBuilds(m)
    && env.hash(m).Some?
    && env.fingerprint(m, env.hash(m).value).Some?
  }

  /** Everything a build needs to succeed, none of it depending on the registry. */
  ghost predicate Buildable(m: Manifest, env: Env) {
    Preparable(m, env) && Reconcilable(m.upstreams)
  }

  // ---------------------------------------------------------------- compiling routes

  /** The chain of a route; an id that is not loaded would be passed over. */
  function ResolveChain(ids: seq<string>, filters: map<string, FilterEntry>): (r: seq<FilterEntry>)
    ensures (forall k :: 0 <= k < |ids| ==> ids[k] in filters) ==>
              |r| == |ids| && forall k :: 0 <= k < |ids| ==> r[k] == filters[ids[k]]
  {
    if ids == [] then []
    else
      var tail := ResolveChain(ids[1..], filters);
      assert (forall k :: 0 <= k < |ids| ==> ids[k] in filters) ==> forall k :: 0 <= k < |ids| - 1 ==> ids[1..][k] in filters;
      (if ids[0] in filters then [filters[ids[0]]] else []) + tail
  }

  predicate Known(targets: seq<(string, nat)>, groups: map<string, Group>) {
    forall i :: 0 <= i < |targets| ==> targets[i].0 in groups
  }

  /** The targets with their groups looked up. */
  function Resolved(targets: seq<(string, nat)>, groups: map<string, Group>): (r: seq<(Group, nat)>)
    requires Known(targets, groups)
    ensures |r| == |targets|
    ensures forall i :: 0 <= i < |r| ==> r[i] == (groups[targets[i].0], targets[i].1)
  {
    seq(|targets|, i requires 0 <= i < |targets| => (groups[targets[i].0], targets[i].1))
  }

  lemma SameWeights(targets: seq<(string, nat)>, groups: map<string, Group>)
    requires Known(targets, groups)
    ensures WeightedBackends.Weights(Resolved(targets, groups)) == WeightedBackends.Weights(targets)
  {
  }

  predicate Compilable(v: ValidatedRoute, groups: map<string, Group>) {
    Known(v.targets, groups) && WeightedSplit.ValidateSplit(WeightedBackends.Weights(v.targets)).Success?
  }

  /** The compiled route picks among the registry's own groups, on the table of its weights. */
  ghost predicate CompiledFrom(c: CompiledRoute, v: ValidatedRoute, groups: map<string, Group>, filters: map<string, FilterEntry>) {
    && c.spec == v.route
    && c.chain == ResolveChain(v.route.filters, filters)
    && Known(v.targets, groups)
    && WeightedSplit.Nonzero(WeightedBackends.Weights(v.targets)) != []
    && c.backends.groups == WeightedBackends.LiveGroups(Resolved(v.targets, groups))
    && c.backends.table == WeightedBackends.Table(WeightedBackends.Weights(v.targets))
  }

  method CompileRoute(v: ValidatedRoute, groups: map<string, Group>, filters: map<string, FilterEntry>)
    returns (r: Result<CompiledRoute, Error>)
    ensures r.Success? <==> Compilable(v, groups)
    ensures r.Success? ==> CompiledFrom(r.value, v, groups, filters)
  {
    hide ResolveChain, WeightedSplit.ValidateSplit, WeightedSplit.Nonzero, WeightedBackends.LiveGroups, WeightedBackends.Table;
    for i := 0 to |v.targets|
      invariant Known(v.targets[..i], groups)
    {
      if v.targets[i].0 !in groups {
        return Failure(UnknownRouteUpstream(v.route.pathPrefix, v.targets[i].0));
      }
    }
    assert v.targets[..|v.targets|] == v.targets;
    SameWeights(v.targets, groups);
    var backends := WeightedBackends.New(Resolved(v.targets, groups));
    if backends.Failure? {
      return Failure(InvalidRoute(v.route.pathPrefix));
    }
    r := Success(CompiledRoute(v.route, ResolveChain(v.route.filters, filters), backends.value));
  }

  method CompileRoutes(vs: seq<ValidatedRoute>, groups: map<string, Group>, filters: map<string, FilterEntry>)
    returns (r: Result<seq<CompiledRoute>, Error>)
    ensures r.Success? <==> forall i :: 0 <= i < |vs| ==> Compilable(vs[i], groups)
    ensures r.Success? ==> |r.value| == |vs| && forall i :: 0 <= i < |vs| ==> CompiledFrom(r.value[i], vs[i], groups, filters)
  {
    hide Compilable, CompiledFrom;
    var routes: seq<CompiledRoute> := [];
    for i := 0 to |vs|
      invariant |routes| == i
      invariant forall k :: 0 <= k < i ==> Compilable(vs[k], groups) && CompiledFrom(routes[k], vs[k], groups, filters)
    {
      var c := CompileRoute(vs[i], groups, filters);
      if c.Failure? {
        return Failure(c.error);
      }
      routes := routes + [c.value];
    }
    r := Success(routes);
  }

  /** Why nothing can fail once the registry is reconciled: every target was checked against the
      names the registry now holds, and every split was validated. */
  lemma CompilesAfterReconcile(m: Manifest, groups: map<string, Group>)
    requires RoutesOk(m.routes, FilterIds(m), UpstreamNames(m)) && ReconciledFor(groups, m.upstreams)
    ensures forall i :: 0 <= i < |m.routes| ==> Targets(m.routes[i]).Some? && Compilable(Validated(m.routes)[i], groups)
  {
    hide WeightedSplit.ValidateSplit, ResolvedName;
    assert forall i :: 0 <= i < |m.routes| ==> RouteOk(m.routes[i], FilterIds(m), UpstreamNames(m));
    forall i | 0 <= i < |m.routes| ensures Compilable(Validated(m.routes)[i], groups) {
      var targets := Targets(m.routes[i]).value;
      forall k | 0 <= k < |targets| ensures targets[k].0 in groups {
        assert targets[k] in targets;
        var u :| u in m.upstreams && u.name == targets[k].0;
        var j :| 0 <= j < |m.upstreams| && m.upstreams[j] == u;
      }
    }
  }

  // ---------------------------------------------------------------- the build

  /** The loaded filters: exactly the manifest's, each under its own id. */
  ghost predicate LoadedFor(filters: map<string, FilterEntry>, m: Manifest) {
    && (forall f :: f in m.filters ==> f.id in filters)
    && forall id :: id in filters ==> filters[id] in m.filters && filters[id].id == id
  }

  /** Every filter a route names is in its chain, in that order: none is dropped. */
  ghost predicate WholeChain(c: CompiledRoute, m: Manifest) {
    && |c.chain| == |c.spec.filters|
    && forall k :: 0 <= k < |c.chain| ==> c.chain[k] in m.filters && c.chain[k].id == c.spec.filters[k]
  }

  lemma ChainsAreWhole(m: Manifest, filters: map<string, FilterEntry>, c: CompiledRoute, i: nat)
    requires RoutesOk(m.routes, FilterIds(m), UpstreamNames(m)) && LoadedFor(filters, m) && i < |m.routes|
    requires c.spec == m.routes[i] && c.chain == ResolveChain(m.routes[i].filters, filters)
    ensures WholeChain(c, m)
  {
    hide ResolveChain, ResolvedName, WeightedSplit.ValidateSplit;
    assert RouteOk(m.routes[i], FilterIds(m), UpstreamNames(m));
    forall k | 0 <= k < |c.spec.filters| ensures c.spec.filters[k] in filters {
      assert c.spec.filters[k] in c.spec.filters;
      var f :| f in m.filters && f.id == c.spec.filters[k];
    }
  }

  lemma CompiledChain(c: CompiledRoute, v: ValidatedRoute, groups: map<string, Group>, filters: map<string, FilterEntry>)
    requires CompiledFrom(c, v, groups, filters)
    ensures c.spec == v.route && c.chain == ResolveChain(v.route.filters, filters)
  {
  }

  /** A configuration in force: its routes are the manifest's, compiled against these groups, each with
      its whole chain. */
  ghost predicate InForce(a: Active, groups: map<string, Group>) {
    && LoadedFor(a.filters, a.manifest)
    && (forall i :: 0 <= i < |a.routes| ==> WholeChain(a.routes[i], a.manifest))
    && ReconciledFor(groups, a.manifest.upstreams)
    && (forall i :: 0 <= i < |a.manifest.routes| ==> Targets(a.manifest.routes[i]).Some?)
    && |a.routes| == |a.manifest.routes|
    && forall i :: 0 <= i < |a.routes| ==> CompiledFrom(a.routes[i], Validated(a.manifest.routes)[i], groups, a.filters)
  }

  method LoadFilters(m: Manifest, env: Env) returns (r: Result<map<string, FilterEntry>, Error>)
    ensures r.Success? <==> forall f :: f in m.filters ==> env.loads(f)
    ensures r.Success? ==> LoadedFor(r.value, m)
  {
    var filters: map<string, FilterEntry> := map[];
    for i := 0 to |m.filters|
      invariant forall k :: 0 <= k < i ==> env.loads(m.filters[k]) && m.filters[k].id in filters
      invariant forall id :: id in filters ==> filters[id] in m.filters && filters[id].id == id
    {
      if !env.loads(m.filters[i]) {
        return Failure(FilterLoad(m.filters[i].id));
      }
      filters := filters[m.filters[i].id := m.filters[i]];
    }
    r := Success(filters);
  }

  datatype Prepared = Prepared(filters: map<string, FilterEntry>, routes: seq<ValidatedRoute>, hash: string, fingerprint: string)

  /** The steps before the registry, in order; the first that fails ends the build. */
  method Prepare(m: Manifest, env: Env) returns (r: Result<Prepared, Error>)
    ensures r.Success? <==> Preparable(m, env)
    ensures r.Success? ==>
              && Preparable(m, env)
              && LoadedFor(r.value.filters, m) && r.value.routes == Validated(m.routes)
              && r.value.hash == env.hash(m).value && r.value.fingerprint == env.fingerprint(m, r.value.hash).value
  {
    hide FiltersOk, RoutesOk, LoadedFor;
    var ids := ValidateFiltersAndChain(m);
    if ids.Failure? {
      return Failure(ids.error);
    }
    var loaded := LoadFilters(m, env);
    if loaded.Failure? {
      return Failure(loaded.error);
    }
    var validated := ValidateRoutes(m.routes, ids.value, UpstreamNames(m));
    if validated.Failure? {
      return Failure(validated.error);
    }
    if !env.tlsBuilds(m) {
      return Failure(TlsBuild);
    }
    if env.hash(m).None? {
      return Failure(HashUnavailable);
    }
    var hash := env.hash(m).value;
    if env.fingerprint(m, hash).None? {
      return Failure(FingerprintUnavailable);
    }
    r := Success(Prepared(loaded.value, validated.value, hash, env.fingerprint(m, hash).value));
  }

  /** The build: every fallible step first, the registry last.  A failed build leaves it alone. */
  method BuildActive(m: Manifest, env: Env, registry: UpstreamRegistry) returns (r: Result<Active, Error>)
    requires registry.Valid()
    modifies registry
    ensures registry.Valid()
    ensures r.Success? <==> Buildable(m, env)
    ensures r.Failure? ==> registry.groups == old(registry.groups)
    ensures r.Success? ==>
              && r.value.manifest == m && env.hash(m) == Some(r.value.hash)
              && env.fingerprint(m, r.value.hash) == Some(r.value.fingerprint)
              && InForce(r.value, registry.groups)
              && RebuiltAll(registry.groups, m.upstreams, old(registry.groups))
  {
    hide FiltersOk, RoutesOk, Reconcilable, ReconciledFor, Compilable, CompiledFrom, KnownInstance, Unprobed, LoadedFor,
      WholeChain;
    var prepared := Prepare(m, env);
    if prepared.Failure? {
      return Failure(prepared.error);
    }
    var refused := registry.Reconcile(m.upstreams);
    if refused.Some? {
      return Failure(RegistryRefused(refused.value));
    }
    CompilesAfterReconcile(m, registry.groups);
    var filters := prepared.value.filters;
    var routes := CompileRoutes(prepared.value.routes, registry.groups, filters);
    assert routes.Success?;
    forall i | 0 <= i < |m.routes| ensures WholeChain(routes.value[i], m) {
      CompiledChain(routes.value[i], Validated(m.routes)[i], registry.groups, filters);
      ChainsAreWhole(m, filters, routes.value[i], i);
    }
    r := Success(Active(m, filters, routes.value, prepared.value.hash, prepared.value.fingerprint));
  }

  // ---------------------------------------------------------------- what a manifest must fulfil

  /** A route name is not just white space, and does not take the name kept for unmatched requests. */
  ghost predicate NameFits(r: RouteSpec) {
    && (r.name.Some? ==> exists c :: c in r.name.value && c as int != 32 && !(9 <= c as int <= 13))
    && !NamedAs(r, "unmatched")
  }

  /** The name a route goes by: its own, or its host in lower case and its prefix. */
  ghost predicate NamedAs(r: RouteSpec, name: string) {
    if r.name.Some? then r.name.value == name
    else if r.host.Some? then
      exists host :: SameIgnoringCase(host, r.host.value) && (forall c :: c in host ==> !('A' <= c <= 'Z'))
                     && name == host + r.pathPrefix
    else r.pathPrefix == name
  }

  ghost predicate UpstreamDeclared(m: Manifest, name: string) {
    exists u :: u in m.upstreams && u.name == name
  }

  ghost predicate TargetsFit(r: RouteSpec, m: Manifest) {
    if r.upstream.Some? then r.backends == [] && UpstreamDeclared(m, r.upstream.value)
    else
      && r.backends != [] && (forall b :: b in r.backends ==> UpstreamDeclared(m, b.0))
      && WeightedSplit.ValidateSplit(WeightedBackends.Weights(r.backends)).Success?
  }

  ghost predicate RouteFits(r: RouteSpec, m: Manifest) {
    && NameFits(r) && TargetsFit(r, m)
    && (forall id :: id in r.filters ==> exists f :: f in m.filters && f.id == id)
    && r.facilitiesOk
  }

  lemma LowerUnique(host: string, given: string)
    requires SameIgnoringCase(host, given) && forall c :: c in host ==> !('A' <= c <= 'Z')
    ensures host == Lower(given)
  {
    LowerDecides(host, given);
    LowerIs(host);
    assert forall i :: 0 <= i < |host| ==> host[i] in host;
    assert Lower(host) == host;
  }

  lemma NamedAsIs(r: RouteSpec, name: string)
    ensures NamedAs(r, name) <==> name == ResolvedName(r)
  {
    if r.name.None? && r.host.Some? {
      var given := r.host.value;
      LowerIs(given);
      assert forall c :: c in Lower(given) ==> !('A' <= c <= 'Z');
      if NamedAs(r, name) {
        var host :| SameIgnoringCase(host, given) && (forall c :: c in host ==> !('A' <= c <= 'Z')) && name == host + r.pathPrefix;
        LowerUnique(host, given);
      }
    }
  }

  lemma FactorOfOne(g: int, x: int)
    requires g > 0 && g * x == 1
    ensures x == 1
  {
  }

  /** A single upstream is a split of its own that always validates. */
  lemma OneTargetIsFine(name: string)
    ensures WeightedSplit.ValidateSplit(WeightedBackends.Weights([(name, 1)])).Success?
  {
    var w := WeightedBackends.Weights([(name, 1)]);
    assert w == [1];
    assert w[..0] == [] && WeightedSplit.Nonzero(w) == [1] && Apportionment.Sum(w) == 1;
    hide WeightedSplit.TableWeights, WeightedSplit.Nonzero, WeightedSplit.ValidateSplit, Apportionment.Sum;
    WeightedSplit.TableWeightsExact(w);
    WeightedSplit.AcceptedSplits(w);
    FactorOfOne(Gcd.OfAll(WeightedSplit.Nonzero(w)), Apportionment.Sum(WeightedSplit.TableWeights(w)));
  }

  lemma TargetsFitIs(r: RouteSpec, m: Manifest)
    ensures TargetsFit(r, m) <==>
            && Targets(r).Some?
            && (forall t :: t in Targets(r).value ==> t.0 in UpstreamNames(m))
            && WeightedSplit.ValidateSplit(WeightedBackends.Weights(Targets(r).value)).Success?
  {
    hide WeightedSplit.ValidateSplit, WeightedBackends.Weights;
    assert forall name :: name in UpstreamNames(m) <==> UpstreamDeclared(m, name);
    if r.upstream.Some? && r.backends == [] {
      OneTargetIsFine(r.upstream.value);
      assert (r.upstream.value, 1) in Targets(r).value;
    }
  }

  lemma NameFitsIs(r: RouteSpec)
    ensures NameFits(r) <==> (r.name.Some? ==> !Blank(r.name.value)) && ResolvedName(r) != UNMATCHED_ROUTE
  {
    hide ResolvedName, NamedAs;
    NamedAsIs(r, "unmatched");
  }

  lemma RouteFitsIs(r: RouteSpec, m: Manifest)
    ensures RouteFits(r, m) <==> RouteOk(r, FilterIds(m), UpstreamNames(m))
  {
    hide NameFits, TargetsFit, Targets, Blank, ResolvedName, WeightedSplit.ValidateSplit, WeightedBackends.Weights;
    NameFitsIs(r);
    TargetsFitIs(r, m);
    assert forall id :: id in FilterIds(m) <==> exists f :: f in m.filters && f.id == id;
  }

  /** What a build needs, said on the manifest and the environment alone. */
  ghost predicate Fits(m: Manifest, env: Env) {
    && m.chainFilters == []
    && (forall i :: 0 <= i < |m.filters| ==> m.filters[i].inRange && env.loads(m.filters[i]))
    && (forall i, j :: 0 <= i < j < |m.filters| ==> m.filters[i].id != m.filters[j].id)
    && (forall i :: 0 <= i < |m.routes| ==> RouteFits(m.routes[i], m))
    && (forall i, j :: 0 <= i < j < |m.routes| ==> !exists name :: NamedAs(m.routes[i], name) && NamedAs(m.routes[j], name))
    && env.tlsBuilds(m) && env.hash(m).Some? && env.fingerprint(m, env.hash(m).value).Some?
    && (forall i :: 0 <= i < |m.upstreams| ==>
          m.upstreams[i].addresses != [] && m.upstreams[i].lbOk && m.upstreams[i].tlsLoads)
    && (forall i, j :: 0 <= i < j < |m.upstreams| ==> m.upstreams[i].name != m.upstreams[j].name)
  }

  lemma DistinctNamesIs(a: RouteSpec, b: RouteSpec)
    ensures (exists name :: NamedAs(a, name) && NamedAs(b, name)) <==> ResolvedName(a) == ResolvedName(b)
  {
    hide NamedAs, ResolvedName;
    NamedAsIs(a, ResolvedName(a));
    NamedAsIs(b, ResolvedName(a));
    if name :| NamedAs(a, name) && NamedAs(b, name) {
      NamedAsIs(a, name);
      NamedAsIs(b, name);
    }
  }

  /** A build succeeds for exactly the manifests that fit. */
  lemma BuildableExactly(m: Manifest, env: Env)
    ensures Buildable(m, env) <==> Fits(m, env)
  {
    hide RouteFits, RouteOk, NamedAs, ResolvedName;
    forall i | 0 <= i < |m.routes|
      ensures RouteFits(m.routes[i], m) <==> RouteOk(m.routes[i], FilterIds(m), UpstreamNames(m))
    {
      RouteFitsIs(m.routes[i], m);
    }
    forall i, j | 0 <= i < |m.routes| && 0 <= j < |m.routes|
      ensures (exists name :: NamedAs(m.routes[i], name) && NamedAs(m.routes[j], name)) <==>
              ResolvedName(m.routes[i]) == ResolvedName(m.routes[j])
    {
      DistinctNamesIs(m.routes[i], m.routes[j]);
    }
  }

  // ---------------------------------------------------------------- the control plane

  datatype ReloadOutcome = Unchanged | Reloaded(hash: string)

  class Control {
    const trust: string
    const state: string
    const onDisk: bool
    const registry: UpstreamRegistry
    var active: Active

    /** The registry is the one reconciled for the active configuration, whose trust and state
        sections are those of the start. */
    ghost predicate Valid()
      reads this, registry, AllInstances(registry.groups)
    {
      && registry.Valid()
      && active.manifest.trust == trust && active.manifest.state == state
      && InForce(active, registry.groups)
    }

    constructor (m: Manifest, onDisk: bool, registry: UpstreamRegistry, active: Active)
      requires active.manifest == m && InForce(active, registry.groups) && registry.Valid()
      ensures Valid() && this.active == active && this.registry == registry && this.onDisk == onDisk
      ensures trust == m.trust && state == m.state
    {
      trust, state := m.trust, m.state;
      this.onDisk, this.registry, this.active := onDisk, registry, active;
    }

    /** A probe outcome between reloads changes one instance and nothing of the configuration. */
    method RecordOutcome(name: string, j: nat, ok: bool)
      requires Valid() && name in registry.groups && j < |registry.groups[name].instances|
      modifies registry.groups[name].instances[j]
      ensures Valid()
      ensures var x := registry.groups[name].instances[j]; x.outcomes == old(x.outcomes) + [ok]
    {
      registry.RecordOutcome(name, j, ok);
    }

    /** Swap in a manifest, or change nothing at all; the probes of an unchanged instance survive. */
    method ReloadWith(m: Manifest, env: Env) returns (err: Option<Error>)
      requires Valid()
      modifies this, registry
      ensures Valid()
      ensures err.None? <==> m.trust == trust && m.state == state && Buildable(m, env)
      ensures err.Some? ==> active == old(active) && registry.groups == old(registry.groups)
      ensures m.trust != trust ==> err == Some(TrustChangeRequiresRestart)
      ensures m.trust == trust && m.state != state ==> err == Some(StateChangeRequiresRestart)
      ensures err.None? ==> active.manifest == m && env.hash(m) == Some(active.hash)
      ensures err.None? ==> RebuiltAll(registry.groups, m.upstreams, old(registry.groups))
      ensures err.None? ==> Survive(registry.groups, m.upstreams, old(registry.groups))
    {
      hide Buildable, InForce;
      if m.trust != trust {
        return Some(TrustChangeRequiresRestart);
      }
      if m.state != state {
        return Some(StateChangeRequiresRestart);
      }
      var built := BuildActive(m, env, registry);
      if built.Failure? {
        return Some(built.error);
      }
      active := built.value;
      err := None;
    }

    /** Whether the gate lets a reload through without a rebuild. */
    predicate SameIdentity(m: Manifest, env: Env)
      reads this
    {
      && env.gateHash(m) == Some(active.hash)
      && env.gateFingerprint(m, active.hash) == Some(active.fingerprint)
    }

    /** Re-read the manifest (`disk`, if readable) and reload only if its identity moved. */
    method ReloadFromDisk(disk: Option<Manifest>, env: Env) returns (r: Result<ReloadOutcome, Error>)
      requires Valid()
      modifies this, registry
      ensures Valid()
      ensures r.Failure? || r.value.Unchanged? ==> active == old(active) && registry.groups == old(registry.groups)
      ensures r.Success? ==> onDisk && disk.Some? && disk.value.trust == trust && disk.value.state == state
      ensures onDisk && disk.Some? && disk.value.trust != trust ==> r == Failure(TrustChangeRequiresRestart)
      ensures r.Success? ==>
                (r.value.Unchanged? <==>
                   && env.gateHash(disk.value) == Some(old(active).hash)
                   && env.gateFingerprint(disk.value, old(active).hash) == Some(old(active).fingerprint))
      ensures r.Success? && r.value.Reloaded? ==> active.manifest == disk.value && r.value.hash == active.hash
      ensures r.Success? && r.value.Reloaded? ==>
                && RebuiltAll(registry.groups, disk.value.upstreams, old(registry.groups))
                && Survive(registry.groups, disk.value.upstreams, old(registry.groups))
      ensures onDisk && disk.Some? && disk.value.trust == trust && disk.value.state == state ==>
                (r.Success? <==> old(SameIdentity(disk.value, env)) || Buildable(disk.value, env))
    {
      hide Buildable, InForce;
      if !onDisk {
        return Failure(NoManifestPath);
      }
      if disk.None? {
        return Failure(UnreadableManifest);
      }
      var m := disk.value;
      if m.trust != trust {
        return Failure(TrustChangeRequiresRestart);
      }
      if m.state != state {
        return Failure(StateChangeRequiresRestart);
      }
      var newHash := env.gateHash(m);
      if newHash.Some? && newHash.value == active.hash {
        var fingerprint := env.gateFingerprint(m, newHash.value);
        if fingerprint.Some? && fingerprint.value == active.fingerprint {
          return Success(Unchanged);
        }
      }
      var built := BuildActive(m, env, registry);
      if built.Failure? {
        return Failure(built.error);
      }
      active := built.value;
      r := Success(Reloaded(active.hash));
    }
  }

  /** Starting up is the same build against an empty registry. */
  method Load(m: Manifest, onDisk: bool, env: Env) returns (r: Result<Control, Error>)
    ensures r.Success? <==> Buildable(m, env)
    ensures r.Success? ==> fresh(r.value) && fresh(r.value.registry) && r.value.Valid() && r.value.active.manifest == m
  {
    hide Buildable, InForce;
    var registry := new UpstreamRegistry();
    var built := BuildActive(m, env, registry);
    if built.Failure? {
      return Failure(built.error);
    }
    var control := new Control(m, onDisk, registry, built.value);
    r := Success(control);
  }
}
