/** Which route a request takes: every declared dimension must match, the most specific route wins,
    and the earliest one on a tie. */
module RouteSelect {
  import opened Wrappers
  import opened Headers
  import opened Segments
  import opened PathPrefix
  import opened Words
  import opened Ascii

  datatype Route = Route(host: Option<string>, pathPrefix: string, httpMethod: Option<string>,
                         headers: seq<(string, string)>, query: seq<(string, string)>)

  datatype Request = Request(authority: string, path: string, httpMethod: string, headers: seq<Header>)

  // ---------------------------------------------------------------- the parts of a request

  /** Drop a port, keep a bracketed literal whole, and drop one trailing dot of a name. */
  function NormalizeHost(authority: string): string {
    var host :=
      if authority != "" && authority[0] == '[' then
        var k := Find(authority, ']');
        if k < |authority| then authority[..k + 1] else authority
      else authority[..Find(authority, ':')];
    if host != "" && host[|host| - 1] == '.' && host[0] != '[' then host[..|host| - 1] else host
  }

  function QueryOf(path: string): string {
    var k := Find(path, '?');
    if k < |path| then path[k + 1..] else ""
  }

  /** The path up to the first `?` or `#`. */
  function BarePath(path: string): string {
    path[..Find(path[..Find(path, '?')], '#')]
  }

  /** A port, one trailing dot, or both make no difference to a host name. */
  lemma HostNameOnly(name: string, port: string)
    requires name != "" && ':' !in name && name[0] != '[' && name[|name| - 1] != '.'
    ensures NormalizeHost(name) == NormalizeHost(name + ":" + port) == name
    ensures NormalizeHost(name + ".") == NormalizeHost(name + "." + ":" + port) == name
  {
    FindUnique(name, ':', |name|);
    UpToFirst(name, ':', port);
    FindUnique(name + ".", ':', |name| + 1);
    UpToFirst(name + ".", ':', port);
    assert (name + ".")[..|name|] == name;
    assert name[..|name|] == name;
  }

  /** A bracketed literal is kept whole, colons and all, and what follows it is dropped. */
  lemma BracketedHost(inner: string, tail: string)
    requires ']' !in inner
    ensures NormalizeHost("[" + inner + "]" + tail) == "[" + inner + "]"
  {
    var s := "[" + inner + "]" + tail;
    FindUnique(s, ']', |inner| + 1);
    assert s[..|inner| + 2] == "[" + inner + "]";
  }

  lemma UpToFirst(a: string, c: char, b: string)
    requires c !in a
    ensures Find(a + [c] + b, c) == |a| && (a + [c] + b)[..|a|] == a && (a + [c] + b)[|a| + 1..] == b
  {
    FindUnique(a + [c] + b, c, |a|);
  }

  /** The bare path and the query are the two sides of the first question mark; a fragment belongs
      to neither the bare path nor, before a question mark, to the query. */
  lemma RequestPathParts(p: string, rest: string)
    requires '?' !in p && '#' !in p
    ensures BarePath(p) == p && QueryOf(p) == ""
    ensures BarePath(p + "?" + rest) == p && QueryOf(p + "?" + rest) == rest
    ensures '?' !in rest ==> BarePath(p + "#" + rest) == p && QueryOf(p + "#" + rest) == ""
  {
    FindUnique(p, '?', |p|);
    FindUnique(p, '#', |p|);
    assert p[..|p|] == p;
    UpToFirst(p, '?', rest);
    UpToFirst(p, '#', rest);
    var s := p + "#" + rest;
    if '?' !in rest {
      FindUnique(s, '?', |s|);
      assert s[..|s|] == s;
    }
  }

  /** The value of the first header of this name. */
  function FirstHeader(headers: seq<Header>, name: string): Option<string> {
    if headers == [] then None
    else if Key(headers[0].name) == Key(name) then Some(headers[0].value)
    else FirstHeader(headers[1..], name)
  }

  /** A `name=value` pair, split at the first `=`. */
  function Pair(s: string): Option<(string, string)> {
    var k := Find(s, '=');
    if k < |s| then Some((s[..k], s[k + 1..])) else None
  }

  function FirstPair(pairs: seq<string>, name: string, value: string): bool {
    if pairs == [] then false
    else
      var p := Pair(pairs[0]);
      if p.Some? && p.value.0 == name then p.value.1 == value else FirstPair(pairs[1..], name, value)
  }

  function QueryParamMatches(query: string, name: string, value: string): bool {
    FirstPair(Split(query, '&'), name, value)
  }

  /** The first occurrence of a name decides; malformed pairs are passed over. */
  lemma {:induction false} FirstPairDecides(pairs: seq<string>, name: string, value: string)
    ensures FirstPair(pairs, name, value) <==>
            exists i :: 0 <= i < |pairs| && Pair(pairs[i]) == Some((name, value))
                        && forall j :: 0 <= j < i ==> Pair(pairs[j]).None? || Pair(pairs[j]).value.0 != name
  {
    hide Pair;
    if pairs != [] {
      var tail := pairs[1..];
      FirstPairDecides(tail, name, value);
      assert forall i :: 0 <= i < |tail| ==> tail[i] == pairs[i + 1];
      var p := Pair(pairs[0]);
      if !(p.Some? && p.value.0 == name) {
        if FirstPair(tail, name, value) {
          var i :| 0 <= i < |tail| && Pair(tail[i]) == Some((name, value))
                   && forall j :: 0 <= j < i ==> Pair(tail[j]).None? || Pair(tail[j]).value.0 != name;
          assert Pair(pairs[i + 1]) == Some((name, value));
        }
        if i :| 0 <= i < |pairs| && Pair(pairs[i]) == Some((name, value))
                && forall j :: 0 <= j < i ==> Pair(pairs[j]).None? || Pair(pairs[j]).value.0 != name {
          assert Pair(tail[i - 1]) == Some((name, value));
        }
      }
    }
  }

  predicate RouteMatches(r: Route, req: Request) {
    && (r.host.Some? ==> Key(r.host.value) == Key(NormalizeHost(req.authority)))
    && PathUnderPrefix(r.pathPrefix, BarePath(req.path))
    && (r.httpMethod.Some? ==> r.httpMethod.value == req.httpMethod)
    && (forall h :: h in r.headers ==> FirstHeader(req.headers, h.0) == Some(h.1))
    && (forall q :: q in r.query ==> QueryParamMatches(QueryOf(req.path), q.0, q.1))
  }

  // ---------------------------------------------------------------- the choice

  function Flag(b: bool): nat {
    if b then 1 else 0
  }

  /** The specificity of a route, most significant first. */
  function Specificity(r: Route): (k: seq<int>)
    ensures |k| == 5
  {
    [Flag(r.host.Some?), |r.pathPrefix|, Flag(r.httpMethod.Some?), |r.headers|, |r.query|]
  }

  function RankKey(routes: seq<Route>, i: nat): (k: seq<int>)
    requires i < |routes|
    ensures |k| == 6
  {
    Specificity(routes[i]) + [U64 - 1 - i]
  }

  /** Lexicographic order on keys of one length. */
  predicate AtMost(a: seq<int>, b: seq<int>)
    requires |a| == |b|
  {
    a == [] || a[0] < b[0] || (a[0] == b[0] && AtMost(a[1..], b[1..]))
  }

  /** The maximum among the first `n` routes, a later one replacing an equal one. */
  function SelectAmong(routes: seq<Route>, req: Request, n: nat): (r: Option<nat>)
    requires n <= |routes|
    ensures r.Some? ==> r.value < n && RouteMatches(routes[r.value], req)
  {
    if n == 0 then None
    else
      var best := SelectAmong(routes, req, n - 1);
      if !RouteMatches(routes[n - 1], req) then best
      else if best.None? || AtMost(RankKey(routes, best.value), RankKey(routes, n - 1)) then Some(n - 1)
      else best
  }

  function Select(routes: seq<Route>, req: Request): Option<nat> {
    SelectAmong(routes, req, |routes|)
  }

  /** `i` precedes `j`: more specific, or as specific and earlier. */
  ghost predicate Precedes(routes: seq<Route>, i: nat, j: nat)
    requires i < |routes| && j < |routes|
  {
    var a, b := Specificity(routes[i]), Specificity(routes[j]);
    if a == b then i < j else AtMost(b, a)
  }

  ghost predicate IsChoice(routes: seq<Route>, req: Request, i: nat) {
    && i < |routes| && RouteMatches(routes[i], req)
    && forall j :: 0 <= j < |routes| && j != i && RouteMatches(routes[j], req) ==> Precedes(routes, i, j)
  }

  lemma {:induction false} AtMostTotal(a: seq<int>, b: seq<int>)
    requires |a| == |b|
    ensures AtMost(a, b) || AtMost(b, a)
    ensures AtMost(a, b) && AtMost(b, a) ==> a == b
  {
    if a != [] {
      AtMostTotal(a[1..], b[1..]);
      assert a == [a[0]] + a[1..] && b == [b[0]] + b[1..];
    }
  }

  lemma {:induction false} AtMostTransitive(a: seq<int>, b: seq<int>, c: seq<int>)
    requires |a| == |b| == |c| && AtMost(a, b) && AtMost(b, c)
    ensures AtMost(a, c)
  {
    if a != [] && a[0] == b[0] == c[0] { AtMostTransitive(a[1..], b[1..], c[1..]); }
  }

  lemma {:induction false} AtMostLast(a: seq<int>, b: seq<int>, x: int, y: int)
    requires |a| == |b|
    ensures AtMost(a + [x], b + [y]) <==> if a == b then x <= y else AtMost(a, b)
  {
    if a == [] {
      assert a + [x] == [x] && b + [y] == [y];
      assert [x][1..] == [] && [y][1..] == [];
    } else {
      AtMostLast(a[1..], b[1..], x, y);
      assert (a + [x])[1..] == a[1..] + [x] && (b + [y])[1..] == b[1..] + [y];
      assert a == [a[0]] + a[1..] && b == [b[0]] + b[1..];
    }
  }

  /** Comparing the full keys is the documented precedence. */
  lemma RankIsPrecedence(routes: seq<Route>, i: nat, j: nat)
    requires i < |routes| && j < |routes| && i != j
    ensures AtMost(RankKey(routes, j), RankKey(routes, i)) <==> Precedes(routes, i, j)
  {
    hide AtMost, Specificity;
    AtMostLast(Specificity(routes[j]), Specificity(routes[i]), U64 - 1 - j, U64 - 1 - i);
  }

  lemma {:induction false} SelectAmongIsBest(routes: seq<Route>, req: Request, n: nat)
    requires n <= |routes|
    ensures SelectAmong(routes, req, n).None? <==> forall j :: 0 <= j < n ==> !RouteMatches(routes[j], req)
    ensures SelectAmong(routes, req, n).Some? ==>
              forall j :: 0 <= j < n && RouteMatches(routes[j], req) ==>
                AtMost(RankKey(routes, j), RankKey(routes, SelectAmong(routes, req, n).value))
  {
    hide RouteMatches, AtMost, RankKey;
    if n > 0 {
      SelectAmongIsBest(routes, req, n - 1);
      var best := SelectAmong(routes, req, n - 1);
      if RouteMatches(routes[n - 1], req) {
        SameKey(RankKey(routes, n - 1));
        if best.Some? {
          AtMostTotal(RankKey(routes, best.value), RankKey(routes, n - 1));
          forall j | 0 <= j < n - 1 && RouteMatches(routes[j], req)
            ensures AtMost(RankKey(routes, best.value), RankKey(routes, n - 1)) ==>
                      AtMost(RankKey(routes, j), RankKey(routes, n - 1))
          {
            if AtMost(RankKey(routes, best.value), RankKey(routes, n - 1)) {
              AtMostTransitive(RankKey(routes, j), RankKey(routes, best.value), RankKey(routes, n - 1));
            }
          }
        }
      }
    }
  }

  lemma SameKey(a: seq<int>)
    ensures AtMost(a, a)
  {
    AtMostTotal(a, a);
  }

  lemma ChoiceUnique(routes: seq<Route>, req: Request, i: nat, j: nat)
    requires IsChoice(routes, req, i) && IsChoice(routes, req, j)
    ensures i == j
  {
    hide RouteMatches, AtMost, Specificity;
    if i != j {
      AtMostTotal(Specificity(routes[i]), Specificity(routes[j]));
    }
  }

  /** The selected route is the one and only best match; there is none exactly when nothing matches. */
  lemma SelectIsTheChoice(routes: seq<Route>, req: Request)
    ensures Select(routes, req).None? <==> forall j :: 0 <= j < |routes| ==> !RouteMatches(routes[j], req)
    ensures forall i: nat :: Select(routes, req) == Some(i) <==> IsChoice(routes, req, i)
  {
    hide RouteMatches, AtMost, RankKey, Specificity, Precedes;
    SelectAmongIsBest(routes, req, |routes|);
    var r := Select(routes, req);
    if r.Some? {
      forall j | 0 <= j < |routes| && j != r.value && RouteMatches(routes[j], req)
        ensures Precedes(routes, r.value, j)
      {
        RankIsPrecedence(routes, r.value, j);
      }
      assert IsChoice(routes, req, r.value);
    }
    forall i: nat | IsChoice(routes, req, i) ensures r == Some(i) {
      ChoiceUnique(routes, req, r.value, i);
    }
  }

  function Shifted(i: nat, at: nat): nat {
    if i < at then i else i + 1
  }

  ghost predicate InsertedAt(more: seq<Route>, routes: seq<Route>, at: nat) {
    && at <= |routes| && |more| == |routes| + 1
    && (forall j :: 0 <= j < at ==> more[j] == routes[j])
    && (forall j :: at < j < |more| ==> more[j] == routes[j - 1])
  }

  lemma ChoiceShifts(more: seq<Route>, routes: seq<Route>, req: Request, at: nat, i: nat)
    requires InsertedAt(more, routes, at) && !RouteMatches(more[at], req) && IsChoice(routes, req, i)
    ensures IsChoice(more, req, Shifted(i, at))
  {
    hide RouteMatches, AtMost, Specificity;
    var k := Shifted(i, at);
    forall j | 0 <= j < |more| && j != k && RouteMatches(more[j], req) ensures Precedes(more, k, j) {
      var l := if j < at then j else j - 1;
      assert routes[l] == more[j] && l != i;
      assert Precedes(routes, i, l);
    }
  }

  lemma NoneStaysNone(more: seq<Route>, routes: seq<Route>, req: Request, at: nat)
    requires InsertedAt(more, routes, at) && !RouteMatches(more[at], req)
    requires forall i :: 0 <= i < |routes| ==> !RouteMatches(routes[i], req)
    ensures forall j :: 0 <= j < |more| ==> !RouteMatches(more[j], req)
  {
    hide RouteMatches;
  }

  /** Inserting a route that does not match changes the choice only by its index. */
  lemma NonMatchingIsIrrelevant(routes: seq<Route>, req: Request, x: Route, at: nat)
    requires at <= |routes| && !RouteMatches(x, req)
    ensures var more := routes[..at] + [x] + routes[at..];
            Select(more, req) == if Select(routes, req).None? then None
                                 else Some(Shifted(Select(routes, req).value, at))
  {
    hide RouteMatches, IsChoice, Select;
    var more := routes[..at] + [x] + routes[at..];
    assert InsertedAt(more, routes, at);
    SelectIsTheChoice(routes, req);
    SelectIsTheChoice(more, req);
    if Select(routes, req).Some? {
      var i := Select(routes, req).value;
      assert Select(routes, req) == Some(i);
      ChoiceShifts(more, routes, req, at, i);
    } else {
      NoneStaysNone(more, routes, req, at);
    }
  }

  // ---------------------------------------------------------------- in the terms of the request itself

  /** The host an authority names: a bracketed literal up to its bracket; otherwise what stands before
      the first colon, less one trailing dot. */
  ghost predicate NamesHost(authority: string, name: string) {
    if authority != "" && authority[0] == '[' then
      || (name <= authority && EndsAtBracket(name))
      || (']' !in authority && name == authority)
    else
      || (UpToColon(authority, name) && (name == "" || name[|name| - 1] != '.'))
      || UpToColon(authority, name + ".")
  }

  predicate EndsAtBracket(name: string) {
    name != "" && name[|name| - 1] == ']' && ']' !in name[..|name| - 1]
  }

  predicate UpToColon(authority: string, s: string) {
    s <= authority && ':' !in s && (|s| == |authority| || authority[|s|] == ':')
  }

  lemma FindIs(s: string, c: char, k: nat)
    requires k <= |s| && c !in s[..k] && (k < |s| ==> s[k] == c)
    ensures Find(s, c) == k
  {
    forall i | 0 <= i < k ensures s[i] != c {
      assert s[..k][i] == s[i];
    }
    FindUnique(s, c, k);
  }

  lemma FindStops(s: string, c: char)
    ensures c !in s[..Find(s, c)]
  {
  }

  lemma UpToColonIs(authority: string, s: string)
    ensures UpToColon(authority, s) <==> s == authority[..Find(authority, ':')]
  {
    FindStops(authority, ':');
    if UpToColon(authority, s) {
      assert authority[..|s|] == s;
      FindIs(authority, ':', |s|);
    }
  }

  lemma BracketIs(authority: string, name: string)
    requires authority != "" && authority[0] == '['
    ensures NamesHost(authority, name) <==> name == NormalizeHost(authority)
  {
    var k := Find(authority, ']');
    FindStops(authority, ']');
    if name <= authority && EndsAtBracket(name) {
      assert authority[..|name| - 1] == name[..|name| - 1];
      FindIs(authority, ']', |name| - 1);
      assert authority[..k + 1] == name;
    }
    if k < |authority| {
      var upTo := authority[..k + 1];
      assert upTo[..k] == authority[..k] && upTo[0] == '[' && upTo[k] == ']';
      assert EndsAtBracket(upTo);
      assert authority[k] in authority;
    } else {
      assert authority[..k] == authority;
    }
  }

  lemma NamesHostIs(authority: string, name: string)
    ensures NamesHost(authority, name) <==> name == NormalizeHost(authority)
  {
    if authority != "" && authority[0] == '[' {
      BracketIs(authority, name);
    } else {
      var host := authority[..Find(authority, ':')];
      UpToColonIs(authority, name);
      UpToColonIs(authority, name + ".");
      assert host != "" ==> host[0] == authority[0];
      if name + "." == host {
        assert host[..|host| - 1] == name;
      }
      if host != "" && host[|host| - 1] == '.' {
        assert host[..|host| - 1] + "." == host;
      }
    }
  }

  /** The path without query and fragment. */
  ghost predicate IsBarePath(path: string, p: string) {
    p <= path && '?' !in p && '#' !in p && (|p| == |path| || path[|p|] == '?' || path[|p|] == '#')
  }

  lemma BarePathIs(path: string, p: string)
    ensures IsBarePath(path, p) <==> p == BarePath(path)
  {
    var q := path[..Find(path, '?')];
    FindStops(path, '?');
    FindStops(q, '#');
    if IsBarePath(path, p) {
      assert path[..|p|] == p;
      PrefixOfQueryless(path, p);
      assert q[..|p|] == p;
      FindIs(q, '#', |p|);
    }
    var k := Find(q, '#');
    assert forall c :: c in q[..k] ==> c in q;
    assert q[..k] == path[..k];
  }

  lemma PrefixOfQueryless(path: string, p: string)
    requires p <= path && '?' !in p && '#' !in p && (|p| == |path| || path[|p|] == '?' || path[|p|] == '#')
    ensures var k := Find(path, '?'); |p| <= k && (|p| < k ==> path[|p|] == '#')
  {
  }

  /** The query: what follows the first question mark, if any. */
  ghost predicate IsQuery(path: string, q: string) {
    || ('?' !in path && q == "")
    || (|q| < |path| && path[|path| - |q| - 1..] == "?" + q && '?' !in path[..|path| - |q| - 1])
  }

  lemma QueryIs(path: string, q: string)
    ensures IsQuery(path, q) <==> q == QueryOf(path)
  {
    var k := Find(path, '?');
    FindStops(path, '?');
    if |q| < |path| && path[|path| - |q| - 1..] == "?" + q && '?' !in path[..|path| - |q| - 1] {
      var l := |path| - |q| - 1;
      assert path[l] == path[l..][0] == '?';
      FindIs(path, '?', l);
      assert path[l + 1..] == path[l..][1..] == q;
    }
    if k < |path| {
      assert path[k..] == "?" + path[k + 1..];
      assert path[k] in path;
    } else {
      assert path[..k] == path;
    }
  }

  /** The first header of a name, case aside, has this value. */
  ghost predicate HeaderSays(headers: seq<Header>, name: string, value: string) {
    exists i :: 0 <= i < |headers| && SameIgnoringCase(headers[i].name, name) && headers[i].value == value
                && forall j :: 0 <= j < i ==> !SameIgnoringCase(headers[j].name, name)
  }

  lemma {:induction false} HeaderSaysIs(headers: seq<Header>, name: string, value: string)
    ensures HeaderSays(headers, name, value) <==> FirstHeader(headers, name) == Some(value)
  {
    hide SameIgnoringCase, Key;
    if headers != [] {
      var tail := headers[1..];
      HeaderSaysIs(tail, name, value);
      LowerDecides(headers[0].name, name);
      KeyIsLower(headers[0].name);
      KeyIsLower(name);
      assert forall i :: 0 <= i < |tail| ==> tail[i] == headers[i + 1];
      if HeaderSays(headers, name, value) && !SameIgnoringCase(headers[0].name, name) {
        var i :| 0 <= i < |headers| && SameIgnoringCase(headers[i].name, name) && headers[i].value == value
                 && forall j :: 0 <= j < i ==> !SameIgnoringCase(headers[j].name, name);
        assert SameIgnoringCase(tail[i - 1].name, name);
      }
      if HeaderSays(tail, name, value) && !SameIgnoringCase(headers[0].name, name) {
        var i :| 0 <= i < |tail| && SameIgnoringCase(tail[i].name, name) && tail[i].value == value
                 && forall j :: 0 <= j < i ==> !SameIgnoringCase(tail[j].name, name);
        assert SameIgnoringCase(headers[i + 1].name, name);
      }
    }
  }

  lemma KeyIsLower(name: string)
    ensures Key(name) == Lower(name)
  {
  }

  /** A query piece that gives this name a value. */
  ghost predicate Gives(piece: string, name: string) {
    '=' !in name && name + "=" <= piece
  }

  /** The first piece of the query that gives the name gives it this value. */
  ghost predicate QuerySays(pieces: seq<string>, name: string, value: string) {
    exists i :: 0 <= i < |pieces| && '=' !in name && pieces[i] == name + "=" + value
                && forall j :: 0 <= j < i ==> !Gives(pieces[j], name)
  }

  lemma PairIs(piece: string, name: string)
    ensures Gives(piece, name) <==> Pair(piece).Some? && Pair(piece).value.0 == name
    ensures forall value: string :: '=' !in name && piece == name + "=" + value <==> Pair(piece) == Some((name, value))
  {
    var k := Find(piece, '=');
    FindStops(piece, '=');
    if Gives(piece, name) {
      assert piece[|name|] == (name + "=")[|name|];
      assert piece[..|name|] == name;
      FindIs(piece, '=', |name|);
    }
    if k < |piece| {
      assert piece == piece[..k] + "=" + piece[k + 1..];
    }
    forall value: string | '=' !in name && piece == name + "=" + value ensures Pair(piece) == Some((name, value)) {
      assert piece[|name|] == '=' && piece[..|name|] == name && piece[|name| + 1..] == value;
      FindIs(piece, '=', |name|);
    }
  }

  lemma QuerySaysIs(pieces: seq<string>, name: string, value: string)
    ensures QuerySays(pieces, name, value) <==> FirstPair(pieces, name, value)
  {
    hide Pair, Gives, FirstPair;
    FirstPairDecides(pieces, name, value);
    forall i | 0 <= i < |pieces|
      ensures Gives(pieces[i], name) <==> Pair(pieces[i]).Some? && Pair(pieces[i]).value.0 == name
      ensures '=' !in name && pieces[i] == name + "=" + value <==> Pair(pieces[i]) == Some((name, value))
    {
      PairIs(pieces[i], name);
    }
    if QuerySays(pieces, name, value) {
      var i :| 0 <= i < |pieces| && '=' !in name && pieces[i] == name + "=" + value
               && forall j :: 0 <= j < i ==> !Gives(pieces[j], name);
      assert Pair(pieces[i]) == Some((name, value));
    }
    if FirstPair(pieces, name, value) {
      var i :| 0 <= i < |pieces| && Pair(pieces[i]) == Some((name, value))
               && forall j :: 0 <= j < i ==> Pair(pieces[j]).None? || Pair(pieces[j]).value.0 != name;
      assert pieces[i] == name + "=" + value;
    }
  }

  // ---------------------------------------------------------------- what a route demands, dimension by dimension

  ghost predicate HostMet(r: Route, req: Request) {
    r.host.Some? ==> exists name :: NamesHost(req.authority, name) && SameIgnoringCase(r.host.value, name)
  }

  ghost predicate PathMet(r: Route, req: Request) {
    exists p :: IsBarePath(req.path, p) && SegmentPrefix(r.pathPrefix, p)
  }

  ghost predicate MethodMet(r: Route, req: Request) {
    r.httpMethod.Some? ==> req.httpMethod == r.httpMethod.value
  }

  ghost predicate HeadersMet(r: Route, req: Request) {
    forall i :: 0 <= i < |r.headers| ==> HeaderSays(req.headers, r.headers[i].0, r.headers[i].1)
  }

  ghost predicate QueryMet(r: Route, req: Request) {
    exists q :: IsQuery(req.path, q)
                && forall i :: 0 <= i < |r.query| ==> QuerySays(Split(q, '&'), r.query[i].0, r.query[i].1)
  }

  ghost predicate Meets(r: Route, req: Request) {
    HostMet(r, req) && PathMet(r, req) && MethodMet(r, req) && HeadersMet(r, req) && QueryMet(r, req)
  }

  lemma HostMetIs(r: Route, req: Request)
    ensures HostMet(r, req) <==> (r.host.Some? ==> Key(r.host.value) == Key(NormalizeHost(req.authority)))
  {
    hide NamesHost, SameIgnoringCase, NormalizeHost, Key;
    var name := NormalizeHost(req.authority);
    NamesHostIs(req.authority, name);
    if r.host.Some? {
      LowerDecides(r.host.value, name);
      KeyIsLower(r.host.value);
      KeyIsLower(name);
      if HostMet(r, req) {
        var other :| NamesHost(req.authority, other) && SameIgnoringCase(r.host.value, other);
        NamesHostIs(req.authority, other);
      }
    }
  }

  lemma PathMetIs(r: Route, req: Request)
    ensures PathMet(r, req) <==> PathUnderPrefix(r.pathPrefix, BarePath(req.path))
  {
    hide IsBarePath, BarePath, SegmentPrefix, PathUnderPrefix;
    var p := BarePath(req.path);
    BarePathIs(req.path, p);
    UnderIsSegmentPrefix(r.pathPrefix, p);
    if PathMet(r, req) {
      var other :| IsBarePath(req.path, other) && SegmentPrefix(r.pathPrefix, other);
      BarePathIs(req.path, other);
    }
  }

  lemma HeadersMetIs(r: Route, req: Request)
    ensures HeadersMet(r, req) <==> forall h :: h in r.headers ==> FirstHeader(req.headers, h.0) == Some(h.1)
  {
    hide HeaderSays, FirstHeader;
    forall i | 0 <= i < |r.headers|
      ensures HeaderSays(req.headers, r.headers[i].0, r.headers[i].1) <==>
              FirstHeader(req.headers, r.headers[i].0) == Some(r.headers[i].1)
    {
      HeaderSaysIs(req.headers, r.headers[i].0, r.headers[i].1);
    }
  }

  lemma QueryMetIs(r: Route, req: Request)
    ensures QueryMet(r, req) <==> forall q :: q in r.query ==> QueryParamMatches(QueryOf(req.path), q.0, q.1)
  {
    hide QuerySays, IsQuery, QueryOf, FirstPair, Split;
    var q := QueryOf(req.path);
    QueryIs(req.path, q);
    forall i | 0 <= i < |r.query|
      ensures QuerySays(Split(q, '&'), r.query[i].0, r.query[i].1) <==> QueryParamMatches(q, r.query[i].0, r.query[i].1)
    {
      QuerySaysIs(Split(q, '&'), r.query[i].0, r.query[i].1);
    }
    if QueryMet(r, req) {
      var other :| IsQuery(req.path, other)
                   && forall i :: 0 <= i < |r.query| ==> QuerySays(Split(other, '&'), r.query[i].0, r.query[i].1);
      QueryIs(req.path, other);
    }
  }

  lemma MeetsIffMatches(r: Route, req: Request)
    ensures Meets(r, req) <==> RouteMatches(r, req)
  {
    hide HostMet, PathMet, HeadersMet, QueryMet, Key, NormalizeHost, PathUnderPrefix, BarePath, FirstHeader,
      QueryParamMatches, QueryOf;
    HostMetIs(r, req);
    PathMetIs(r, req);
    HeadersMetIs(r, req);
    QueryMetIs(r, req);
  }

  /** The documented precedence of route `i` over route `j`: a declared host, then the longer prefix,
      then a declared method, then more headers, then more query pairs, then the earlier place. */
  predicate Beats(a: Route, i: nat, b: Route, j: nat) {
    if a.host.Some? != b.host.Some? then a.host.Some?
    else if |a.pathPrefix| != |b.pathPrefix| then |a.pathPrefix| > |b.pathPrefix|
    else if a.httpMethod.Some? != b.httpMethod.Some? then a.httpMethod.Some?
    else if |a.headers| != |b.headers| then |a.headers| > |b.headers|
    else if |a.query| != |b.query| then |a.query| > |b.query|
    else i < j
  }

  lemma AtMostStep(x: int, a: seq<int>, y: int, b: seq<int>)
    requires |a| == |b|
    ensures AtMost([x] + a, [y] + b) <==> x < y || (x == y && AtMost(a, b))
  {
    assert ([x] + a)[1..] == a && ([y] + b)[1..] == b;
  }

  lemma FiveKeys(a1: int, a2: int, a3: int, a4: int, a5: int, b1: int, b2: int, b3: int, b4: int, b5: int)
    ensures AtMost([a1, a2, a3, a4, a5], [b1, b2, b3, b4, b5]) <==>
            a1 < b1 || (a1 == b1 && (a2 < b2 || (a2 == b2 && (a3 < b3 || (a3 == b3 && (a4 < b4 || (a4 == b4 && a5 <= b5)))))))
  {
    hide AtMost;
    assert [a1, a2, a3, a4, a5] == [a1] + [a2, a3, a4, a5] && [b1, b2, b3, b4, b5] == [b1] + [b2, b3, b4, b5];
    assert [a2, a3, a4, a5] == [a2] + [a3, a4, a5] && [b2, b3, b4, b5] == [b2] + [b3, b4, b5];
    assert [a3, a4, a5] == [a3] + [a4, a5] && [b3, b4, b5] == [b3] + [b4, b5];
    assert [a4, a5] == [a4] + [a5] && [b4, b5] == [b4] + [b5];
    AtMostStep(a1, [a2, a3, a4, a5], b1, [b2, b3, b4, b5]);
    AtMostStep(a2, [a3, a4, a5], b2, [b3, b4, b5]);
    AtMostStep(a3, [a4, a5], b3, [b4, b5]);
    AtMostStep(a4, [a5], b4, [b5]);
    AtMostOne(a5, b5);
  }

  lemma AtMostOne(x: int, y: int)
    ensures AtMost([x], [y]) <==> x <= y
  {
  }

  lemma PrecedesIs(routes: seq<Route>, i: nat, j: nat)
    requires i < |routes| && j < |routes|
    ensures Precedes(routes, i, j) <==> Beats(routes[i], i, routes[j], j)
  {
    hide AtMost;
    var a, b := routes[i], routes[j];
    FiveKeys(Flag(b.host.Some?), |b.pathPrefix|, Flag(b.httpMethod.Some?), |b.headers|, |b.query|,
             Flag(a.host.Some?), |a.pathPrefix|, Flag(a.httpMethod.Some?), |a.headers|, |a.query|);
    var x, y := Specificity(a), Specificity(b);
    assert x == y <==> x[0] == y[0] && x[1] == y[1] && x[2] == y[2] && x[3] == y[3] && x[4] == y[4];
  }

  /** Route `i` meets every dimension it declares, and beats every other route that does. */
  ghost predicate BestMeeting(routes: seq<Route>, req: Request, i: nat) {
    && i < |routes| && Meets(routes[i], req)
    && forall j :: 0 <= j < |routes| && j != i && Meets(routes[j], req) ==> Beats(routes[i], i, routes[j], j)
  }

  /** No route is selected exactly when every route fails in a dimension it declares; otherwise exactly
      the one that fails in none and beats all the others that fail in none. */
  lemma SelectDecides(routes: seq<Route>, req: Request)
    ensures Select(routes, req).None? <==> forall j :: 0 <= j < |routes| ==> !Meets(routes[j], req)
    ensures forall i: nat :: Select(routes, req) == Some(i) <==> BestMeeting(routes, req, i)
  {
    hide Meets, RouteMatches, Precedes, Beats, Select;
    SelectIsTheChoice(routes, req);
    forall j | 0 <= j < |routes| ensures Meets(routes[j], req) <==> RouteMatches(routes[j], req) {
      MeetsIffMatches(routes[j], req);
    }
    forall i, j | 0 <= i < |routes| && 0 <= j < |routes|
      ensures Precedes(routes, i, j) <==> Beats(routes[i], i, routes[j], j)
    {
      PrecedesIs(routes, i, j);
    }
    forall i: nat ensures IsChoice(routes, req, i) <==> BestMeeting(routes, req, i) {
    }
  }
}
