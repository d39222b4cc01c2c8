/** The prefix test that routes are selected by, and the prefix strip applied when forwarding. */
module PathPrefix {
  import opened Wrappers
  import opened Segments
  import opened NormalizePath

  predicate EndsWithSlash(s: string) {
    s != "" && s[|s| - 1] == '/'
  }

  predicate PathUnderPrefix(prefix: string, path: string) {
    && prefix <= path
    && (|path| == |prefix| || EndsWithSlash(prefix) || path[|prefix|] == '/')
  }

  function RewritePath(path: string, strip: Option<string>): string {
    match strip
    case None => path
    case Some(s) =>
      if !(s <= path) then path
      else
        var rest := path[|s|..];
        if rest == "" then "/"
        else if rest[0] == '/' then rest
        else if EndsWithSlash(s) then "/" + rest
        else path
  }

  // ---------------------------------------------------------------- segments

  /** A prefix without its final slash. */
  function Stem(prefix: string): string {
    if EndsWithSlash(prefix) then prefix[..|prefix| - 1] else prefix
  }

  /** The same test on segment lists: a prefix of the path's segments, a proper one when the prefix
      ends in a slash. */
  predicate SegmentPrefix(prefix: string, path: string) {
    if EndsWithSlash(prefix) then Split(Stem(prefix), '/') < Split(path, '/')
    else Split(prefix, '/') <= Split(path, '/')
  }

  lemma {:induction false} JoinConcat(a: seq<string>, b: seq<string>)
    requires a != [] && b != []
    ensures Join(a + b, '/') == Join(a, '/') + "/" + Join(b, '/')
  {
    if |a| == 1 {
      assert (a + b)[1..] == b;
    } else {
      assert (a + b)[1..] == a[1..] + b;
      JoinConcat(a[1..], b);
      JoinConcatArithmetic(a[0], Join(a[1..], '/'), Join(b, '/'));
    }
  }

  lemma JoinConcatArithmetic(x: string, y: string, z: string)
    ensures x + "/" + (y + "/" + z) == (x + "/" + y) + "/" + z
  {
  }

  /** Segment-list prefixes are byte prefixes that stop at a slash or at the end. */
  lemma SegmentsExtend(p: string, s: string)
    ensures Split(p, '/') < Split(s, '/') <==> p + "/" <= s
    ensures Split(p, '/') <= Split(s, '/') <==> s == p || p + "/" <= s
  {
    hide Split, Join;
    if p + "/" <= s {
      var b := s[|p| + 1..];
      assert s == p + "/" + b;
      SplitConcat(p, b, '/');
    }
    if Split(p, '/') <= Split(s, '/') {
      var rest := Split(s, '/')[|Split(p, '/')|..];
      assert Split(s, '/') == Split(p, '/') + rest;
      if rest == [] {
        SplitInjective(s, p, '/');
      } else {
        JoinConcat(Split(p, '/'), rest);
        JoinSplit(s, '/');
        JoinSplit(p, '/');
      }
    }
  }

  /** The byte-level test is the segment-level one. */
  lemma UnderIsSegmentPrefix(prefix: string, path: string)
    ensures PathUnderPrefix(prefix, path) <==> SegmentPrefix(prefix, path)
  {
    hide Split;
    SegmentsExtend(Stem(prefix), path);
    if EndsWithSlash(prefix) {
      assert Stem(prefix) + "/" == prefix;
    } else if prefix <= path && |path| == |prefix| {
      assert path == prefix;
    } else if prefix + "/" <= path {
      assert path[|prefix|] == (prefix + "/")[|prefix|];
    }
  }

  // ---------------------------------------------------------------- the strip

  /** What a strip should leave: a root and the segments after the stripped ones. */
  function StrippedSegments(strip: string, path: string): seq<string>
    requires SegmentPrefix(strip, path)
  {
    var rest := Split(path, '/')[|Split(Stem(strip), '/')|..];
    [""] + if rest == [] then [""] else rest
  }

  /** A strip that ends in a slash meets an empty segment and swallows it. */
  predicate SwallowsEmpty(strip: string, path: string) {
    EndsWithSlash(strip) && strip + "/" <= path
  }

  /** The strip changes nothing off the segment boundary; on it, it leaves exactly the remaining
      segments, unless it ends in a slash and meets another, when it drops that empty segment. */
  lemma StripIsBySegments(path: string, strip: string)
    ensures !SegmentPrefix(strip, path) ==> RewritePath(path, Some(strip)) == path
    ensures SegmentPrefix(strip, path) ==>
              var segs := Split(RewritePath(path, Some(strip)), '/');
              var want := StrippedSegments(strip, path);
              && |want| >= 2
              && segs == (if SwallowsEmpty(strip, path) then want[1..] else want)
              && (SwallowsEmpty(strip, path) ==> want[1] == "" && |want| > 2)
  {
    hide Split, Join;
    UnderIsSegmentPrefix(strip, path);
    if PathUnderPrefix(strip, path) {
      var rest := path[|strip|..];
      if EndsWithSlash(strip) {
        assert path == Stem(strip) + "/" + rest;
        SplitConcat(Stem(strip), rest, '/');
        StripAfterSlash(rest);
      } else if rest == "" {
        assert path == strip;
        RootSegments();
      } else {
        var b := rest[1..];
        assert path == strip + "/" + b;
        SplitConcat(strip, b, '/');
        SplitFront('/', b, '/');
        assert rest == "/" + b;
      }
    }
  }

  /** Without a strip the path is forwarded as it is. */
  lemma NoStripNoChange(path: string)
    ensures RewritePath(path, None) == path
  {
  }

  lemma RootSegments()
    ensures Split("/", '/') == ["", ""]
  {
    SplitConcat("", "", '/');
    SplitNothing('/');
  }

  lemma StripAfterSlash(rest: string)
    ensures Split(if rest == "" then "/" else if rest[0] == '/' then rest else "/" + rest, '/') ==
            if rest != "" && rest[0] == '/' then Split(rest, '/') else [""] + Split(rest, '/')
    ensures rest != "" && rest[0] == '/' ==> |Split(rest, '/')| >= 2 && Split(rest, '/')[0] == ""
  {
    hide Split;
    if rest == "" {
      RootSegments();
      SplitNothing('/');
    } else if rest[0] == '/' {
      SplitFront('/', rest[1..], '/');
      assert rest == "/" + rest[1..];
    } else {
      SplitFront('/', rest, '/');
    }
  }

  lemma PrefixBeforeQuery(raw: string, q: string, strip: string)
    requires '?' !in strip && q != "" && q[0] == '?'
    ensures strip <= raw + q <==> strip <= raw
  {
    var path := raw + q;
    if strip <= path {
      assert forall i :: 0 <= i < |strip| ==> strip[i] == path[i];
    }
    assert path[..|raw|] == raw;
  }

  /** A strip that reaches into the query: it applies only to targets that begin with it. */
  lemma StripIntoQuery(raw: string, q: string, strip: string)
    requires '?' !in raw && '?' in strip
    ensures RewritePath(raw, Some(strip)) == raw
    ensures RewritePath(raw + q, Some(strip)) == raw + q <==> !PathUnderPrefix(strip, raw + q)
  {
    var path := raw + q;
    assert !(strip <= raw);
    if strip <= path {
      var rest := path[|strip|..];
      assert path == strip + rest;
      assert |strip| == 1 ==> strip == "?";
      var r := RewritePath(path, Some(strip));
      if rest == "" {
        assert '?' in path && '?' !in "/";
      } else if rest[0] == '/' {
        assert |r| < |path|;
      } else if EndsWithSlash(strip) {
        assert |strip| > 1 && |r| < |path|;
      }
    }
  }

  /** A query rides along unchanged, except in two cases: a path equal to a slash-less strip is
      stripped without a query and left alone with one; and a strip that contains a question mark is
      matched against the query. */
  lemma StripWithQuery(raw: string, q: string, strip: string)
    requires '?' !in raw && q != "" && q[0] == '?'
    ensures RewritePath(raw + q, Some(strip)) == RewritePath(raw, Some(strip)) + q <==>
            if '?' in strip then !PathUnderPrefix(strip, raw + q) else !(raw == strip && !EndsWithSlash(strip))
    ensures raw == strip && !EndsWithSlash(strip) ==> RewritePath(raw + q, Some(strip)) == raw + q
  {
    var path := raw + q;
    if '?' in strip {
      StripIntoQuery(raw, q, strip);
    } else {
      StripBeforeQuery(raw, q, strip);
    }
    if raw == strip { assert path[|strip|..] == q; }
  }

  lemma StripBeforeQuery(raw: string, q: string, strip: string)
    requires '?' !in raw && '?' !in strip && q != "" && q[0] == '?'
    ensures RewritePath(raw + q, Some(strip)) == RewritePath(raw, Some(strip)) + q <==>
            !(raw == strip && !EndsWithSlash(strip))
  {
    var path := raw + q;
    PrefixBeforeQuery(raw, q, strip);
    if strip <= raw {
      var rest := raw[|strip|..];
      assert path[|strip|..] == rest + q;
      if rest == "" {
        assert raw == strip && rest + q == q;
        assert RewritePath(raw, Some(strip)) == "/";
        if raw + q == "/" + q { SameFront(raw, "/", q); }
      } else {
        assert (rest + q)[0] == rest[0];
        assert "/" + (rest + q) == ("/" + rest) + q;
      }
    }
  }

  lemma SameFront(a: string, b: string, q: string)
    requires a + q == b + q
    ensures a == b
  {
    assert (a + q)[..|a|] == a && (b + q)[..|b|] == b;
  }


  /** Forwarding a normalised path after a strip forwards a normalised, rooted path. */
  lemma StripKeepsClean(raw: string, strip: string)
    requires Clean(raw)
    ensures Clean(RewritePath(raw, Some(strip)))
  {
    hide Split, Join, HasEncoded, BadByte, Resolve;
    StripIsBySegments(raw, strip);
    if SegmentPrefix(strip, raw) {
      var r := RewritePath(raw, Some(strip));
      RootedSegments(raw);
      JoinSplit(raw, '/');
      PassesIffGood(Split(raw, '/'));
      JoinSplit(r, '/');
      assert GoodSegment("");
      var want, segs := StrippedSegments(strip, raw), Split(r, '/');
      assert forall i :: 1 <= i < |want| ==> want[i] == "" || want[i] in Split(raw, '/');
      assert forall i :: 0 <= i < |segs| ==> segs[i] == "" || segs[i] in Split(raw, '/');
      PassesIffGood(segs);
      RebuiltIsClean(segs);
    }
  }

  /** What a strip should leave of a normalised target: one that is still normalised, still rooted,
      and has its query as it was. */
  ghost predicate Preserved(target: string, strip: string) {
    var r := RewritePath(target, Some(strip));
    Normalize(r) == Some(r) && Rooted(RawPath(r)) && QueryPart(r) == QueryPart(target)
  }

  lemma StripKeepsNormalised(target: string, strip: string)
    requires Rooted(RawPath(target)) && Normalize(target) == Some(target) && '?' !in strip
    ensures Preserved(target, strip)
  {
    hide HasEncoded, BadByte, Resolve, Split, Join;
    NormalizedIsClean(target);
    var raw, q := RawPath(target), QueryPart(target);
    assert target == raw + q;
    StripKeepsClean(raw, strip);
    var s := RewritePath(raw, Some(strip));
    if q == "" {
      assert target == raw && s == s + q;
    } else {
      StripWithQuery(raw, q, strip);
    }
    var kept := if raw == strip && !EndsWithSlash(strip) && q != "" then raw else s;
    QueryKept(kept, q);
    CleanIsFixed(kept, q);
  }

  lemma RawOfExtension(s: string, rest: string)
    requires '?' in s
    ensures RawPath(s + rest) == RawPath(s) && QueryPart(s + rest) == QueryPart(s) + rest
  {
    var k := Find(s, '?');
    var i :| 0 <= i < |s| && s[i] == '?';
    assert k < |s|;
    FindUnique(s + rest, '?', k);
    assert (s + rest)[..k] == s[..k] && (s + rest)[k..] == s[k..] + rest;
  }

  /** A clean path followed by a question mark can be stripped down to one that climbs. */
  lemma ClimbsOut(strip: string)
    requires '?' in strip && Clean(RawPath(strip))
    ensures var t := strip + "/..";
            Rooted(RawPath(t)) && Normalize(t) == Some(t) && !Preserved(t, strip)
  {
    hide HasEncoded, BadByte, Resolve, Split, Join;
    var t := strip + "/..";
    RawOfExtension(strip, "/..");
    assert t == RawPath(strip) + (QueryPart(strip) + "/..");
    CleanIsFixed(RawPath(strip), QueryPart(strip) + "/..");
    assert t[|strip|..] == "/..";
    NoQueryLeft();
    assert QueryPart(t) != "";
  }

  lemma NoQueryLeft()
    ensures QueryPart("/..") == ""
  {
    FindUnique("/..", '?', 3);
  }

  /** A strip preserves every normalised target exactly when it has no question mark, or has one
      behind a path no normalised target can have. */
  lemma StripPreservesExactly(strip: string)
    ensures (forall t: string :: Rooted(RawPath(t)) && Normalize(t) == Some(t) ==> Preserved(t, strip)) <==>
            ('?' !in strip || !Clean(RawPath(strip)))
  {
    hide Preserved, HasEncoded, BadByte, Resolve, Split, Join, Clean, Normalize;
    if '?' !in strip || !Clean(RawPath(strip)) {
      forall t: string | Rooted(RawPath(t)) && Normalize(t) == Some(t) ensures Preserved(t, strip) {
        if '?' !in strip {
          StripKeepsNormalised(t, strip);
        } else {
          NormalizedIsClean(t);
          if strip <= t {
            var rest := t[|strip|..];
            assert t == strip + rest;
            RawOfExtension(strip, rest);
          }
          NotStripped(t, strip);
        }
      }
    } else {
      ClimbsOut(strip);
    }
  }

  lemma NotStripped(t: string, strip: string)
    requires Rooted(RawPath(t)) && Normalize(t) == Some(t) && !(strip <= t)
    ensures Preserved(t, strip)
  {
    hide Normalize;
  }
}
