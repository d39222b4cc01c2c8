/** Paths as lists of segments.  A string is a sequence of bytes, one `char` each. */
module Segments {

  function Split(s: string, sep: char): (r: seq<string>)
    ensures r != []
    ensures forall i :: 0 <= i < |r| ==> sep !in r[i]
  {
    if s == "" then [""]
    else
      var r := Split(s[1..], sep);
      if s[0] == sep then [""] + r else [[s[0]] + r[0]] + r[1..]
  }

  function Join(segs: seq<string>, sep: char): string
    requires segs != []
  {
    if |segs| == 1 then segs[0] else segs[0] + [sep] + Join(segs[1..], sep)
  }

  lemma {:induction false} JoinSplit(s: string, sep: char)
    ensures Join(Split(s, sep), sep) == s
  {
    if s != "" {
      JoinSplit(s[1..], sep);
      var r := Split(s[1..], sep);
      if s[0] == sep {
        assert ([""] + r)[1..] == r;
      } else {
        var x := [[s[0]] + r[0]] + r[1..];
        assert x[1..] == r[1..];
        if |r| == 1 {
          assert r[0] == s[1..];
        } else {
          assert Join(x, sep) == [s[0]] + (r[0] + [sep] + Join(r[1..], sep));
        }
      }
    }
  }

  lemma SplitFront(c: char, t: string, sep: char)
    ensures Split([c] + t, sep) ==
            var r := Split(t, sep);
            if c == sep then [""] + r else [[c] + r[0]] + r[1..]
  {
    assert ([c] + t)[1..] == t;
  }

  lemma SplitNothing(sep: char)
    ensures Split("", sep) == [""]
  {
  }

  lemma {:induction false} SplitOne(s: string, sep: char)
    requires sep !in s
    ensures Split(s, sep) == [s]
  {
    if s != "" {
      SplitOne(s[1..], sep);
      SplitFront(s[0], s[1..], sep);
      assert s == [s[0]] + s[1..];
      assert s[0] in s;
    }
  }

  lemma SplitFrontOf(c: char, r: seq<string>, q: seq<string>, sep: char)
    requires r != []
    ensures (if c == sep then [""] + (r + q) else [[c] + (r + q)[0]] + (r + q)[1..])
         == (if c == sep then [""] + r else [[c] + r[0]] + r[1..]) + q
  {
    assert (r + q)[1..] == r[1..] + q;
  }

  /** Splitting around one separator. */
  lemma {:induction false} SplitConcat(a: string, b: string, sep: char)
    ensures Split(a + [sep] + b, sep) == Split(a, sep) + Split(b, sep)
  {
    hide Split;
    if a == "" {
      SplitNothing(sep);
      assert a + [sep] + b == [sep] + b;
      SplitFront(sep, b, sep);
    } else {
      var c, tail := a[0], a[1..];
      SplitConcat(tail, b, sep);
      assert a + [sep] + b == [c] + (tail + [sep] + b);
      assert a == [c] + tail;
      SplitFront(c, tail + [sep] + b, sep);
      SplitFront(c, tail, sep);
      SplitFrontOf(c, Split(tail, sep), Split(b, sep), sep);
    }
  }

  lemma {:induction false} SplitJoin(segs: seq<string>, sep: char)
    requires segs != [] && forall i :: 0 <= i < |segs| ==> sep !in segs[i]
    ensures Split(Join(segs, sep), sep) == segs
  {
    SplitOne(segs[0], sep);
    if |segs| > 1 {
      SplitJoin(segs[1..], sep);
      SplitConcat(segs[0], Join(segs[1..], sep), sep);
    }
  }

  lemma SplitInjective(s: string, t: string, sep: char)
    requires Split(s, sep) == Split(t, sep)
    ensures s == t
  {
    JoinSplit(s, sep);
    JoinSplit(t, sep);
  }

  /** The first position of a character, or the length. */
  function Find(s: string, c: char): (k: nat)
    ensures k <= |s|
    ensures forall i :: 0 <= i < k ==> s[i] != c
    ensures k < |s| ==> s[k] == c
  {
    if s == "" || s[0] == c then 0 else 1 + Find(s[1..], c)
  }

  lemma FindUnique(s: string, c: char, k: nat)
    requires k <= |s| && (forall i :: 0 <= i < k ==> s[i] != c) && (k < |s| ==> s[k] == c)
    ensures Find(s, c) == k
  {
  }
}
