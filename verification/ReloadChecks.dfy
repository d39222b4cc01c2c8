/** The checks of a manifest that need nothing but the manifest. */
module ReloadChecks {
  import opened Wrappers
  import opened Registry
  import WeightedSplit
  import WeightedBackends
  import opened Ascii

  datatype FilterEntry = FilterEntry(id: string, inRange: bool, source: string)

  /** A route as declared; `facilitiesOk` stands for its rate-limit, upgrade, compression, header and
      response-body settings. */
  datatype RouteSpec = RouteSpec(name: Option<string>, host: Option<string>, pathPrefix: string,
                                 upstream: Option<string>, backends: seq<(string, nat)>,
                                 filters: seq<string>, facilitiesOk: bool)

  datatype Manifest = Manifest(trust: string, state: string, chainFilters: seq<string>,
                               filters: seq<FilterEntry>, upstreams: seq<Upstream>, routes: seq<RouteSpec>)

  datatype Error =
    | TrustChangeRequiresRestart | StateChangeRequiresRestart | NoManifestPath | UnreadableManifest
    | InertChainSection | DuplicateFilterId(id: string) | InvalidFilterConfig(id: string) | FilterLoad(id: string)
    | InvalidRoute(pathPrefix: string) | UnknownRouteUpstream(pathPrefix: string, upstream: string)
    | UnknownRouteFilter(pathPrefix: string, filter: string)
    | TlsBuild | HashUnavailable | FingerprintUnavailable
    | RegistryRefused(reason: RegistryError)

  // ---------------------------------------------------------------- filters

  predicate FiltersOk(m: Manifest) {
    && m.chainFilters == []
    && (forall i :: 0 <= i < |m.filters| ==> m.filters[i].inRange)
    && (forall i, j :: 0 <= i < j < |m.filters| ==> m.filters[i].id != m.filters[j].id)
  }

  method ValidateFiltersAndChain(m: Manifest) returns (r: Result<set<string>, Error>)
    ensures r.Success? <==> FiltersOk(m)
    ensures r.Success? ==> r.value == set f | f in m.filters :: f.id
  {
    if m.chainFilters != [] {
      return Failure(InertChainSection);
    }
    var ids: set<string> := {};
    for i := 0 to |m.filters|
      invariant forall k :: 0 <= k < i ==> m.filters[k].inRange
      invariant forall k, l :: 0 <= k < l < i ==> m.filters[k].id != m.filters[l].id
      invariant ids == set k | 0 <= k < i :: m.filters[k].id
    {
      if m.filters[i].id in ids {
        return Failure(DuplicateFilterId(m.filters[i].id));
      }
      ids := ids + {m.filters[i].id};
      if !m.filters[i].inRange {
        return Failure(InvalidFilterConfig(m.filters[i].id));
      }
    }
    r := Success(ids);
  }

  // ---------------------------------------------------------------- routes

  const UNMATCHED_ROUTE := "unmatched"

  predicate Blank(s: string) {
    forall c :: c in s ==> c == ' ' || '\t' <= c <= '\r'
  }

  function ResolvedName(r: RouteSpec): string {
    if r.name.Some? then r.name.value
    else if r.host.Some? then Lower(r.host.value) + r.pathPrefix
    else r.pathPrefix
  }

  /** Exactly one of the single upstream and the weighted list. */
  function Targets(r: RouteSpec): Option<seq<(string, nat)>> {
    if r.upstream.Some? then (if r.backends == [] then Some([(r.upstream.value, 1)]) else None)
    else if r.backends == [] then None
    else Some(r.backends)
  }

  /** What one route needs of the declared filters and upstreams. */
  predicate RouteOk(r: RouteSpec, filterIds: set<string>, upstreamNames: set<string>) {
    && (r.name.Some? ==> !Blank(r.name.value))
    && ResolvedName(r) != UNMATCHED_ROUTE
    && Targets(r).Some?
    && (forall t :: t in Targets(r).value ==> t.0 in upstreamNames)
    && WeightedSplit.ValidateSplit(WeightedBackends.Weights(Targets(r).value)).Success?
    && (forall f :: f in r.filters ==> f in filterIds)
    && r.facilitiesOk
  }

  predicate RoutesOk(routes: seq<RouteSpec>, filterIds: set<string>, upstreamNames: set<string>) {
    && (forall i :: 0 <= i < |routes| ==> RouteOk(routes[i], filterIds, upstreamNames))
    && (forall i, j :: 0 <= i < j < |routes| ==> ResolvedName(routes[i]) != ResolvedName(routes[j]))
  }

  datatype ValidatedRoute = ValidatedRoute(route: RouteSpec, targets: seq<(string, nat)>)

  /** Each route with its forwarding targets, once. */
  function Validated(routes: seq<RouteSpec>): (r: seq<ValidatedRoute>)
    requires forall i :: 0 <= i < |routes| ==> Targets(routes[i]).Some?
    ensures |r| == |routes|
    ensures forall i :: 0 <= i < |r| ==> r[i] == ValidatedRoute(routes[i], Targets(routes[i]).value)
  {
    seq(|routes|, i requires 0 <= i < |routes| => ValidatedRoute(routes[i], Targets(routes[i]).value))
  }

  method ValidateRoutes(routes: seq<RouteSpec>, filterIds: set<string>, upstreamNames: set<string>)
    returns (r: Result<seq<ValidatedRoute>, Error>)
    ensures r.Success? <==> RoutesOk(routes, filterIds, upstreamNames)
    ensures r.Success? ==> r.value == Validated(routes)
  {
    hide ResolvedName, RouteOk;
    var validated: seq<ValidatedRoute> := [];
    var seen: set<string> := {};
    for i := 0 to |routes|
      invariant forall k :: 0 <= k < i ==> RouteOk(routes[k], filterIds, upstreamNames)
      invariant forall k :: 0 <= k < i ==> Targets(routes[k]).Some?
      invariant forall k, l :: 0 <= k < l < i ==> ResolvedName(routes[k]) != ResolvedName(routes[l])
      invariant forall name :: name in seen <==> exists k :: 0 <= k < i && ResolvedName(routes[k]) == name
      invariant |validated| == i
      invariant forall k :: 0 <= k < i ==> validated[k] == ValidatedRoute(routes[k], Targets(routes[k]).value)
    {
      var name := ResolvedName(routes[i]);
      var checked := ValidateRoute(routes[i], name in seen, filterIds, upstreamNames);
      if checked.Failure? {
        return Failure(checked.error);
      }
      seen := seen + {name};
      validated := validated + [ValidatedRoute(routes[i], checked.value)];
    }
    assert validated == Validated(routes);
    r := Success(validated);
  }

  /** The body of that loop: the checks of one route, in order. */
  method ValidateRoute(r: RouteSpec, nameSeen: bool, filterIds: set<string>, upstreamNames: set<string>)
    returns (result: Result<seq<(string, nat)>, Error>)
    ensures result.Success? <==> RouteOk(r, filterIds, upstreamNames) && !nameSeen
    ensures result.Success? ==> Targets(r) == Some(result.value)
  {
    if r.name.Some? && Blank(r.name.value) {
      return Failure(InvalidRoute(r.pathPrefix));
    }
    if ResolvedName(r) == UNMATCHED_ROUTE || nameSeen {
      return Failure(InvalidRoute(r.pathPrefix));
    }
    if Targets(r).None? {
      return Failure(InvalidRoute(r.pathPrefix));
    }
    var targets := Targets(r).value;
    for i := 0 to |targets|
      invariant forall k :: 0 <= k < i ==> targets[k].0 in upstreamNames
    {
      if targets[i].0 !in upstreamNames {
        return Failure(UnknownRouteUpstream(r.pathPrefix, targets[i].0));
      }
    }
    var split := WeightedSplit.ValidateSplit(WeightedBackends.Weights(targets));
    if split.Failure? {
      return Failure(InvalidRoute(r.pathPrefix));
    }
    for i := 0 to |r.filters|
      invariant forall k :: 0 <= k < i ==> r.filters[k] in filterIds
    {
      if r.filters[i] !in filterIds {
        return Failure(UnknownRouteFilter(r.pathPrefix, r.filters[i]));
      }
    }
    if !r.facilitiesOk {
      return Failure(InvalidRoute(r.pathPrefix));
    }
    result := Success(targets);
  }
}
