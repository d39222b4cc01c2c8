/** Normalising a request target before routing, so that the proxy and the origin agree on it. */
module NormalizePath {
  import opened Wrappers
  import opened Segments

  predicate BadByte(c: char) {
    c < ' ' || c == 0x7f as char || c == '\\'
  }

  /** `%2e`, `%2f` or `%5c`, in either case. */
  predicate Encoded(x: char, y: char, z: char) {
    x == '%' && ((y == '2' && z in "eEfF") || (y == '5' && z in "cC"))
  }

  predicate EncodedAt(s: string, i: nat) {
    i + 2 < |s| && Encoded(s[i], s[i + 1], s[i + 2])
  }

  predicate HasEncoded(s: string) {
    exists i :: 0 <= i < |s| && EncodedAt(s, i)
  }

  predicate Dotted(seg: string) {
    seg == "." || seg == ".."
  }

  /** Lexical resolution over a stack of segments; a `..` that would pop the root fails. */
  function Resolve(segs: seq<string>): Option<seq<string>> {
    if segs == [] then Some([])
    else
      var n := |segs| - 1;
      match Resolve(segs[..n])
      case None => None
      case Some(out) =>
        if segs[n] == "." then Some(out)
        else if segs[n] == ".." then (if |out| <= 1 then None else Some(out[..|out| - 1]))
        else Some(out + [segs[n]])
  }

  function RawPath(target: string): string {
    target[..Find(target, '?')]
  }

  /** The query with its question mark, or nothing. */
  function QueryPart(target: string): string {
    target[Find(target, '?')..]
  }

  predicate Rooted(raw: string) {
    raw != "" && raw[0] == '/'
  }

  predicate HasDotted(segs: seq<string>) {
    exists i :: 0 <= i < |segs| && Dotted(segs[i])
  }

  function Rebuilt(out: seq<string>): string
    requires out != []
  {
    if Join(out, '/') == "" then "/" else Join(out, '/')
  }

  function Normalize(target: string): Option<string> {
    var raw := RawPath(target);
    var segs := Split(raw, '/');
    if !Rooted(raw) then Some(target)
    else if (exists i :: 0 <= i < |raw| && BadByte(raw[i])) || HasEncoded(raw) then None
    else if !HasDotted(segs) then Some(target)
    else
      RootedSegments(raw);
      RootStays(segs);
      match Resolve(segs)
      case None => None
      case Some(out) => Some(Rebuilt(out) + QueryPart(target))
  }

  lemma RootedSegments(raw: string)
    requires Rooted(raw)
    ensures Split(raw, '/')[0] == "" && |Split(raw, '/')| >= 2
    ensures Split(raw, '/') == [""] + Split(raw[1..], '/')
  {
  }

  lemma {:induction false} RootStays(segs: seq<string>)
    requires segs != [] && segs[0] == ""
    ensures Resolve(segs).Some? ==> Resolve(segs).value != [] && Resolve(segs).value[0] == ""
  {
    var n := |segs| - 1;
    if n == 0 {
      assert segs[..0] == [];
    } else {
      RootStays(segs[..n]);
    }
  }

  /** The ingress step, with its loop over the segments. */
  method NormalizeTarget(target: string) returns (r: Option<string>)
    ensures r == Normalize(target)
  {
    var raw := RawPath(target);
    if !Rooted(raw) {
      return Some(target);
    }
    if (exists i :: 0 <= i < |raw| && BadByte(raw[i])) || HasEncoded(raw) {
      return None;
    }
    var segs := Split(raw, '/');
    if !HasDotted(segs) {
      return Some(target);
    }
    RootedSegments(raw);
    RootStays(segs);
    var out := ResolveAll(segs);
    if out.None? {
      return None;
    }
    r := Some(Rebuilt(out.value) + QueryPart(target));
  }

  method ResolveAll(segs: seq<string>) returns (r: Option<seq<string>>)
    ensures r == Resolve(segs)
  {
    var out: seq<string> := [];
    for i := 0 to |segs|
      invariant Resolve(segs[..i]) == Some(out)
    {
      assert segs[..i + 1][..i] == segs[..i];
      match segs[i] {
        case "." =>
        case ".." =>
          if |out| <= 1 {
            ResolveFailsOn(segs, i + 1);
            return None;
          }
          out := out[..|out| - 1];
        case other => out := out + [other];
      }
    }
    assert segs[..|segs|] == segs;
    r := Some(out);
  }

  lemma {:induction false} ResolveFailsOn(segs: seq<string>, i: nat)
    requires i <= |segs| && Resolve(segs[..i]).None?
    ensures Resolve(segs).None?
    decreases |segs|
  {
    if i < |segs| {
      assert segs[..|segs| - 1][..i] == segs[..i];
      ResolveFailsOn(segs[..|segs| - 1], i);
    } else {
      assert segs[..i] == segs;
    }
  }

  // ---------------------------------------------------------------- when a path escapes its root

  /** Ordinary segments minus `..` segments. */
  function Climb(segs: seq<string>): int {
    if segs == [] then 0
    else
      var x := segs[|segs| - 1];
      Climb(segs[..|segs| - 1]) + if x == "." then 0 else if x == ".." then -1 else 1
  }

  /** Some beginning of the path, below the root, has more `..` than ordinary segments. */
  ghost predicate Escapes(segs: seq<string>) {
    exists k :: 1 <= k <= |segs| && Climb(segs[1..k]) < 0
  }

  lemma ClimbStep(segs: seq<string>, x: string)
    ensures Climb(segs + [x]) == Climb(segs) + if x == "." then 0 else if x == ".." then -1 else 1
  {
    assert (segs + [x])[..|segs|] == segs;
  }

  lemma EscapesStep(segs: seq<string>, x: string)
    requires segs != []
    ensures Escapes(segs + [x]) <==> Escapes(segs) || Climb((segs + [x])[1..]) < 0
  {
    hide Climb;
    var more, n := segs + [x], |segs| + 1;
    assert forall k :: 1 <= k <= |segs| ==> more[1..k] == segs[1..k];
    assert more[1..n] == more[1..];
    if Escapes(segs) {
      var k :| 1 <= k <= |segs| && Climb(segs[1..k]) < 0;
      assert Climb(more[1..k]) < 0;
    }
    if Climb(more[1..]) < 0 {
      assert Climb(more[1..n]) < 0;
    }
    if Escapes(more) {
      var k :| 1 <= k <= n && Climb(more[1..k]) < 0;
      if k < n { assert Climb(segs[1..k]) < 0; }
    }
  }

  lemma ResolveStep(segs: seq<string>, x: string)
    ensures Resolve(segs).None? ==> Resolve(segs + [x]).None?
    ensures Resolve(segs).Some? ==>
              var out := Resolve(segs).value;
              Resolve(segs + [x]) ==
              if x == "." then Some(out)
              else if x == ".." then (if |out| <= 1 then None else Some(out[..|out| - 1]))
              else Some(out + [x])
  {
    assert (segs + [x])[..|segs|] == segs;
  }

  lemma RootAlone()
    ensures Resolve([""]) == Some([""]) && !Escapes([""]) && Climb([""][1..]) == 0
  {
    var segs := [""];
    assert segs[..0] == [] && segs[1..] == [] && segs[1..1] == [];
    assert Resolve(segs[..0]) == Some([]);
    assert [] + [segs[0]] == segs;
  }

  lemma {:induction false} RejectedIffEscapes(segs: seq<string>)
    requires segs != [] && segs[0] == ""
    ensures Resolve(segs).None? <==> Escapes(segs)
    ensures Resolve(segs).Some? ==> |Resolve(segs).value| == 1 + Climb(segs[1..])
  {
    hide Resolve, Climb, Escapes;
    var n := |segs| - 1;
    if n == 0 {
      assert segs == [""];
      RootAlone();
    } else {
      var init, x := segs[..n], segs[n];
      RejectedIffEscapes(init);
      assert segs == init + [x] && segs[1..] == init[1..] + [x];
      ResolveStep(init, x);
      EscapesStep(init, x);
      ClimbStep(init[1..], x);
      RootStays(init);
    }
  }

  // ---------------------------------------------------------------- the stack, read from the right

  /** What is left of the segments when `pending` of them are still to be dropped: read from the
      right, each `..` drops the next ordinary segment that is not dropped already. */
  function Survivors(segs: seq<string>, pending: nat): seq<string> {
    if segs == [] then []
    else
      var n := |segs| - 1;
      if segs[n] == "." then Survivors(segs[..n], pending)
      else if segs[n] == ".." then Survivors(segs[..n], pending + 1)
      else if pending > 0 then Survivors(segs[..n], pending - 1)
      else Survivors(segs[..n], 0) + [segs[n]]
  }

  lemma {:induction false} StackKeepsSurvivors(segs: seq<string>, pending: nat)
    requires Resolve(segs).Some? && pending <= |Resolve(segs).value|
    ensures Survivors(segs, pending) == var out := Resolve(segs).value; out[..|out| - pending]
  {
    if segs != [] {
      var n := |segs| - 1;
      var before := Resolve(segs[..n]).value;
      if segs[n] == "." {
        StackKeepsSurvivors(segs[..n], pending);
      } else if segs[n] == ".." {
        StackKeepsSurvivors(segs[..n], pending + 1);
      } else if pending > 0 {
        StackKeepsSurvivors(segs[..n], pending - 1);
      } else {
        StackKeepsSurvivors(segs[..n], 0);
        assert before[..|before|] == before;
      }
    }
  }

  // ---------------------------------------------------------------- what comes out

  /** No encoded separator straddles a slash. */
  lemma EncodedAcrossSlash(a: string, b: string)
    ensures HasEncoded(a + "/" + b) <==> HasEncoded(a) || HasEncoded(b)
  {
    var s := a + "/" + b;
    var at := |a| + 1;
    forall i: nat | i < |a| ensures EncodedAt(a, i) ==> EncodedAt(s, i) {
    }
    forall i: nat | i < |b| ensures EncodedAt(b, i) ==> EncodedAt(s, at + i) {
    }
    forall i: nat | i < |s| && EncodedAt(s, i)
      ensures EncodedAt(a, i) || (i >= at && EncodedAt(b, i - at))
    {
      EncodedOnOneSide(a, b, i);
    }
    hide EncodedAt;
    if HasEncoded(a) {
      var i :| 0 <= i < |a| && EncodedAt(a, i);
      assert EncodedAt(s, i);
    }
    if HasEncoded(b) {
      var i :| 0 <= i < |b| && EncodedAt(b, i);
      assert EncodedAt(s, at + i);
    }
  }

  lemma EncodedOnOneSide(a: string, b: string, i: nat)
    requires EncodedAt(a + "/" + b, i)
    ensures EncodedAt(a, i) || (i >= |a| + 1 && EncodedAt(b, i - (|a| + 1)))
  {
    var s := a + "/" + b;
    assert s[|a|] == '/';
  }

  lemma {:induction false} EncodedInSegments(segs: seq<string>)
    requires segs != []
    ensures HasEncoded(Join(segs, '/')) <==> exists i :: 0 <= i < |segs| && HasEncoded(segs[i])
  {
    hide HasEncoded;
    if |segs| > 1 {
      EncodedInSegments(segs[1..]);
      EncodedAcrossSlash(segs[0], Join(segs[1..], '/'));
      assert forall i :: 0 <= i < |segs| - 1 ==> segs[1..][i] == segs[i + 1];
      if HasEncoded(Join(segs[1..], '/')) {
        var i :| 0 <= i < |segs| - 1 && HasEncoded(segs[1..][i]);
        assert HasEncoded(segs[i + 1]);
      }
    }
  }

  lemma {:induction false} BytesInSegments(segs: seq<string>, c: char)
    requires segs != [] && c != '/'
    ensures c in Join(segs, '/') <==> exists i :: 0 <= i < |segs| && c in segs[i]
  {
    if |segs| > 1 {
      BytesInSegments(segs[1..], c);
      assert forall i :: 0 <= i < |segs| - 1 ==> segs[1..][i] == segs[i + 1];
      if c in Join(segs[1..], '/') {
        var i :| 0 <= i < |segs| - 1 && c in segs[1..][i];
        assert c in segs[i + 1];
      }
    }
  }

  /** A path segment that no check objects to. */
  ghost predicate GoodSegment(x: string) {
    && (forall c :: c in x ==> !BadByte(c) && c != '?' && c != '/')
    && !HasEncoded(x)
  }

  ghost predicate GoodSegments(segs: seq<string>) {
    forall i :: 0 <= i < |segs| ==> GoodSegment(segs[i])
  }

  /** A path the checks pass. */
  ghost predicate Passes(raw: string) {
    && Rooted(raw) && !HasEncoded(raw)
    && forall c :: c in raw ==> !BadByte(c) && c != '?'
  }

  /** A path that needs no work. */
  ghost predicate Clean(raw: string) {
    Passes(raw) && !HasDotted(Split(raw, '/'))
  }

  lemma PassesIffGood(segs: seq<string>)
    requires |segs| >= 2 && segs[0] == "" && forall i :: 0 <= i < |segs| ==> '/' !in segs[i]
    ensures Passes(Join(segs, '/')) <==> GoodSegments(segs)
  {
    hide HasEncoded, BadByte;
    var s := Join(segs, '/');
    assert Rooted(s);
    EncodedInSegments(segs);
    if GoodSegments(segs) {
      forall c | c in s ensures !BadByte(c) && c != '?' {
        if c == '/' { SlashIsFine(); } else { BytesInSegments(segs, c); }
      }
    }
    if Passes(s) {
      forall i | 0 <= i < |segs| ensures GoodSegment(segs[i]) {
        forall c | c in segs[i] ensures !BadByte(c) && c != '?' && c != '/' {
          BytesInSegments(segs, c);
        }
      }
    }
  }

  lemma SlashIsFine()
    ensures !BadByte('/')
  {
  }

  lemma {:induction false} ResolvedAreGood(segs: seq<string>)
    requires GoodSegments(segs) && forall i :: 0 <= i < |segs| ==> '/' !in segs[i]
    ensures Resolve(segs).Some? ==> GoodSegments(Resolve(segs).value) && !HasDotted(Resolve(segs).value)
    ensures Resolve(segs).Some? ==>
              forall i :: 0 <= i < |Resolve(segs).value| ==> '/' !in Resolve(segs).value[i]
  {
    hide GoodSegment;
    if segs != [] { ResolvedAreGood(segs[..|segs| - 1]); }
  }

  lemma RebuiltIsClean(out: seq<string>)
    requires out != [] && out[0] == "" && GoodSegments(out) && !HasDotted(out)
    requires forall i :: 0 <= i < |out| ==> '/' !in out[i]
    ensures Clean(Rebuilt(out))
  {
    hide GoodSegment, HasEncoded, BadByte;
    if |out| == 1 {
      assert GoodSegment("");
      PassesIffGood(["", ""]);
      assert Join(["", ""], '/') == "/" by { RootJoin(); }
      SplitJoin(["", ""], '/');
    } else {
      PassesIffGood(out);
      SplitJoin(out, '/');
    }
  }

  lemma RootJoin()
    ensures Join(["", ""], '/') == "/"
  {
    assert ["", ""][1..] == [""];
  }

  /** The query survives byte for byte next to a path without question marks. */
  lemma QueryKept(raw: string, q: string)
    requires '?' !in raw && (q == "" || q[0] == '?')
    ensures RawPath(raw + q) == raw && QueryPart(raw + q) == q
  {
    var s := raw + q;
    FindUnique(s, '?', |raw|);
    assert s[..|raw|] == raw && s[|raw|..] == q;
  }

  lemma CleanIsFixed(raw: string, q: string)
    requires Clean(raw) && (q == "" || q[0] == '?')
    ensures Normalize(raw + q) == Some(raw + q)
  {
    hide HasEncoded, BadByte, HasDotted;
    QueryKept(raw, q);
    assert forall i :: 0 <= i < |raw| ==> raw[i] in raw;
  }

  lemma RawPasses(target: string)
    requires Rooted(RawPath(target)) && Normalize(target).Some?
    ensures Passes(RawPath(target))
  {
    var raw := RawPath(target);
    hide HasEncoded, BadByte, HasDotted;
    forall c | c in raw ensures !BadByte(c) && c != '?' {
      var i :| 0 <= i < |raw| && raw[i] == c;
    }
  }

  /** A rooted target is rejected exactly for a forbidden byte, an encoded separator, or an escape
      from the root. */
  lemma RejectionReasons(target: string)
    requires Rooted(RawPath(target))
    ensures var raw := RawPath(target);
            Normalize(target).None? <==>
            || (exists i :: 0 <= i < |raw| && BadByte(raw[i]))
            || HasEncoded(raw)
            || Escapes(Split(raw, '/'))
  {
    hide HasEncoded, BadByte, Resolve;
    var segs := Split(RawPath(target), '/');
    RootedSegments(RawPath(target));
    RejectedIffEscapes(segs);
    if !HasDotted(segs) && Escapes(segs) {
      var k :| 1 <= k <= |segs| && Climb(segs[1..k]) < 0;
      OrdinaryClimbs(segs[1..k]);
      assert false;
    }
  }

  lemma {:induction false} OrdinaryClimbs(segs: seq<string>)
    requires !HasDotted(segs)
    ensures Climb(segs) == |segs|
  {
    if segs != [] {
      assert !HasDotted(segs[..|segs| - 1]);
      assert !Dotted(segs[|segs| - 1]);
      OrdinaryClimbs(segs[..|segs| - 1]);
    }
  }

  /** An accepted rooted target comes out clean, with its query untouched. */
  lemma NormalizedIsClean(target: string)
    requires Rooted(RawPath(target)) && Normalize(target).Some?
    ensures var r := Normalize(target).value;
            Clean(RawPath(r)) && QueryPart(r) == QueryPart(target)
  {
    var raw, q := RawPath(target), QueryPart(target);
    var segs := Split(raw, '/');
    RawPasses(target);
    hide HasEncoded, BadByte, Resolve;
    assert target == raw + q;
    if HasDotted(segs) {
      RootedSegments(raw);
      JoinSplit(raw, '/');
      PassesIffGood(segs);
      RootStays(segs);
      ResolvedAreGood(segs);
      RebuiltIsClean(Resolve(segs).value);
      QueryKept(Rebuilt(Resolve(segs).value), q);
    } else {
      QueryKept(raw, q);
    }
  }

  /** Normalising twice is normalising once. */
  lemma Idempotent(target: string)
    requires Normalize(target).Some?
    ensures Normalize(Normalize(target).value) == Normalize(target)
  {
    var r := Normalize(target).value;
    if Rooted(RawPath(target)) {
      NormalizedIsClean(target);
      assert r == RawPath(r) + QueryPart(r);
      CleanIsFixed(RawPath(r), QueryPart(r));
    }
  }

  /** With dots to remove, the path that comes out is the surviving segments, rejoined. */
  lemma NormalizedIsSurvivors(target: string)
    requires Rooted(RawPath(target)) && Normalize(target).Some?
    ensures var r, segs := Normalize(target).value, Split(RawPath(target), '/');
            && Survivors(segs, 0) != []
            && RawPath(r) == Rebuilt(Survivors(segs, 0))
  {
    var raw := RawPath(target);
    var segs := Split(raw, '/');
    NormalizedIsClean(target);
    hide HasEncoded, BadByte;
    RootedSegments(raw);
    RootStays(segs);
    assert target == raw + QueryPart(target);
    if HasDotted(segs) {
      StackKeepsSurvivors(segs, 0);
      var out := Resolve(segs).value;
      assert out[..|out| - 0] == out;
      RawPasses(target);
      JoinSplit(raw, '/');
      PassesIffGood(segs);
      ResolvedAreGood(segs);
      RebuiltIsClean(out);
      QueryKept(Rebuilt(out), QueryPart(target));
    } else {
      NoDotsSurvive(segs);
      JoinSplit(raw, '/');
    }
  }

  lemma {:induction false} NoDotsSurvive(segs: seq<string>)
    requires !HasDotted(segs)
    ensures Survivors(segs, 0) == segs
  {
    if segs != [] {
      assert !HasDotted(segs[..|segs| - 1]);
      assert !Dotted(segs[|segs| - 1]);
      NoDotsSurvive(segs[..|segs| - 1]);
    }
  }

  /** The three bytes from `i` on spell an encoded dot, slash or backslash. */
  predicate SpelledAt(raw: string, i: nat) {
    i + 2 < |raw| && raw[i..i + 3] in {"%2e", "%2E", "%2f", "%2F", "%5c", "%5C"}
  }

  /** A byte no path may contain: a control character, DEL or a backslash. */
  predicate Forbidden(c: char) {
    c as int < 0x20 || c as int == 0x7f || c as int == 0x5c
  }

  lemma EncodedIsSpelled(raw: string, i: nat)
    ensures EncodedAt(raw, i) <==> SpelledAt(raw, i)
  {
    if i + 2 < |raw| {
      var s := raw[i..i + 3];
      assert s == [raw[i], raw[i + 1], raw[i + 2]];
    }
  }

  /** What is refused, byte for byte: exactly a rooted path with a forbidden byte, a spelled-out dot,
      slash or backslash, or a beginning that climbs above the root. */
  lemma RefusedBytes(target: string)
    ensures var raw := RawPath(target);
            Normalize(target).None? <==>
            && raw != "" && raw[0] == '/'
            && ((exists i :: 0 <= i < |raw| && Forbidden(raw[i])) || (exists i :: 0 <= i < |raw| && SpelledAt(raw, i))
                || Escapes(Split(raw, '/')))
  {
    hide EncodedAt, SpelledAt, Resolve, Escapes;
    var raw := RawPath(target);
    forall i | 0 <= i < |raw| ensures EncodedAt(raw, i) <==> SpelledAt(raw, i) {
      EncodedIsSpelled(raw, i);
    }
    if Rooted(raw) {
      RejectionReasons(target);
    }
  }

  /** A target whose path does not begin with a slash is passed on as it is. */
  lemma NotRootedUntouched(target: string)
    requires RawPath(target) == "" || RawPath(target)[0] != '/'
    ensures Normalize(target) == Some(target)
  {
  }

  /** What an accepted rooted target comes out as, segment by segment: no dot segments, no forbidden byte,
      nothing spelled out, and the query untouched. */
  lemma NormalizedHasNoDots(target: string)
    requires Rooted(RawPath(target)) && Normalize(target).Some?
    ensures var r := Normalize(target).value;
            var raw := RawPath(r);
            && raw != "" && raw[0] == '/'
            && (forall x :: x in Split(raw, '/') ==> x != "." && x != "..")
            && (forall i :: 0 <= i < |raw| ==> !Forbidden(raw[i]) && !SpelledAt(raw, i))
            && QueryPart(r) == QueryPart(target)
  {
    hide EncodedAt, SpelledAt, Resolve, Normalize;
    NormalizedIsClean(target);
    var raw := RawPath(Normalize(target).value);
    forall i | 0 <= i < |raw| ensures !Forbidden(raw[i]) && !SpelledAt(raw, i) {
      assert raw[i] in raw;
      EncodedIsSpelled(raw, i);
    }
    forall x | x in Split(raw, '/') ensures x != "." && x != ".." {
      assert !Dotted(x);
    }
  }
}
