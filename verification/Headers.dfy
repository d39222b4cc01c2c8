/** Header lists and the edits a filter may make to them.  Names compare without ASCII case. */
module Headers {
  import opened Ascii

  datatype Header = Header(name: string, value: string)

  /** The form in which names are compared. */
  function Key(name: string): (k: string)
    ensures |k| == |name|
  {
    Lower(name)
  }

  const SET_COOKIE := "set-cookie"

  /** Names that may occur several times and are never collapsed by a set. */
  predicate Repeatable(name: string) {
    Key(name) == Key(SET_COOKIE)
  }

  // ---------------------------------------------------------------- the loops

  /** `retain` with one name excluded. */
  function Retain(hs: seq<Header>, name: string): seq<Header> {
    Filter(hs, {Key(name)})
  }

  method RemoveHeaders(headers: seq<Header>, names: seq<string>) returns (r: seq<Header>)
    ensures r == Filter(headers, Keys(names))
  {
    r := headers;
    FilterNone(headers);
    assert Keys(names[..0]) == {};
    for i := 0 to |names|
      invariant r == Filter(headers, Keys(names[..i]))
    {
      assert Keys(names[..i + 1]) == Keys(names[..i]) + {Key(names[i])} by { KeysStep(names, i); }
      FilterTwice(headers, Keys(names[..i]), {Key(names[i])});
      r := Retain(r, names[i]);
    }
    assert names[..|names|] == names;
  }

  method SetHeaders(headers: seq<Header>, set_: seq<Header>) returns (r: seq<Header>)
    ensures r == Filter(headers, Replaced(set_)) + NotOverwritten(set_)
  {
    r := headers;
    FilterNone(headers);
    assert Replaced(set_[..0]) == {};
    for i := 0 to |set_|
      invariant r == Filter(headers, Replaced(set_[..i])) + NotOverwritten(set_[..i])
    {
      SetStep(headers, set_[..i], set_[i]);
      assert set_[..i + 1] == set_[..i] + [set_[i]];
      if !Repeatable(set_[i].name) {
        r := Retain(r, set_[i].name);
      }
      r := r + [set_[i]];
    }
    assert set_[..|set_|] == set_;
  }

  /** A filter's header edit: removals first, then the sets. */
  datatype Edit = Edit(setHeaders: seq<Header>, removeHeaders: seq<string>)

  method ApplyEdit(headers: seq<Header>, edit: Edit) returns (r: seq<Header>)
    ensures r == Edited(headers, edit)
  {
    var kept := RemoveHeaders(headers, edit.removeHeaders);
    r := SetHeaders(kept, edit.setHeaders);
    FilterTwice(headers, Keys(edit.removeHeaders), Replaced(edit.setHeaders));
  }

  // ---------------------------------------------------------------- the closed form

  function Keys(names: seq<string>): set<string> {
    set n | n in names :: Key(n)
  }

  lemma KeysStep(names: seq<string>, i: nat)
    requires i < |names|
    ensures Keys(names[..i + 1]) == Keys(names[..i]) + {Key(names[i])}
  {
    assert names[..i + 1] == names[..i] + [names[i]];
  }

  function Filter(hs: seq<Header>, dropped: set<string>): seq<Header> {
    if hs == [] then []
    else (if Key(hs[0].name) in dropped then [] else [hs[0]]) + Filter(hs[1..], dropped)
  }

  /** The names a set replaces. */
  function Replaced(set_: seq<Header>): set<string> {
    set h | h in set_ && !Repeatable(h.name) :: Key(h.name)
  }

  /** The lines of a set that survive it: repeatable, or the last one of their name. */
  function NotOverwritten(set_: seq<Header>): seq<Header> {
    if set_ == [] then []
    else
      (if Repeatable(set_[0].name) || Key(set_[0].name) !in Replaced(set_[1..]) then [set_[0]] else [])
      + NotOverwritten(set_[1..])
  }

  function Edited(headers: seq<Header>, edit: Edit): seq<Header> {
    Filter(headers, Keys(edit.removeHeaders) + Replaced(edit.setHeaders)) + NotOverwritten(edit.setHeaders)
  }

  lemma {:induction false} FilterNone(hs: seq<Header>)
    ensures Filter(hs, {}) == hs
  {
    if hs != [] { FilterNone(hs[1..]); }
  }

  lemma {:induction false} FilterConcat(a: seq<Header>, b: seq<Header>, d: set<string>)
    ensures Filter(a + b, d) == Filter(a, d) + Filter(b, d)
  {
    hide Key, Filter;
    if a == [] {
      FilterEmpty(d);
      assert a + b == b;
    } else {
      var h, tail := a[0], a[1..];
      FilterConcat(tail, b, d);
      FilterFront(h, tail, d);
      FilterFront(h, tail + b, d);
      assert a == [h] + tail && a + b == [h] + (tail + b);
    }
  }

  lemma FilterEmpty(d: set<string>)
    ensures Filter([], d) == []
  {
  }

  lemma FilterFront(h: Header, tail: seq<Header>, d: set<string>)
    ensures Filter([h] + tail, d) == if Key(h.name) in d then Filter(tail, d) else [h] + Filter(tail, d)
  {
    assert ([h] + tail)[1..] == tail;
  }

  lemma {:induction false} FilterTwice(hs: seq<Header>, d: set<string>, e: set<string>)
    ensures Filter(Filter(hs, d), e) == Filter(hs, d + e)
  {
    hide Key;
    if hs != [] {
      FilterTwice(hs[1..], d, e);
      assert hs == [hs[0]] + hs[1..];
      FilterFront(hs[0], hs[1..], d);
      FilterFront(hs[0], hs[1..], d + e);
      FilterFront(hs[0], Filter(hs[1..], d), e);
    }
  }

  lemma ReplacedStep(set_: seq<Header>, h: Header)
    ensures Replaced(set_ + [h]) == Replaced(set_) + if Repeatable(h.name) then {} else {Key(h.name)}
  {
  }

  /** The first line, if a later one of its name does not overwrite it. */
  function FrontIfLast(h: Header, tail: seq<Header>): seq<Header> {
    if Repeatable(h.name) || Key(h.name) !in Replaced(tail) then [h] else []
  }

  lemma NotOverwrittenFront(h: Header, tail: seq<Header>)
    ensures NotOverwritten([h] + tail) == FrontIfLast(h, tail) + NotOverwritten(tail)
  {
    hide Repeatable, Replaced;
    assert ([h] + tail)[1..] == tail;
  }

  lemma FrontStep(g: Header, tail: seq<Header>, h: Header)
    ensures FrontIfLast(g, tail + [h]) ==
            if Repeatable(h.name) then FrontIfLast(g, tail) else Filter(FrontIfLast(g, tail), {Key(h.name)})
  {
    hide Filter, Replaced;
    ReplacedStep(tail, h);
    FilterOne(g, {Key(h.name)});
  }

  /** Appending one more line drops the earlier ones of its name, unless it is repeatable. */
  lemma {:induction false} NotOverwrittenStep(set_: seq<Header>, h: Header)
    ensures NotOverwritten(set_ + [h]) ==
            (if Repeatable(h.name) then NotOverwritten(set_) else Filter(NotOverwritten(set_), {Key(h.name)})) + [h]
  {
    hide Filter, Replaced, NotOverwritten, FrontIfLast, Key, Repeatable;
    if set_ == [] {
      OnlyLine(h);
      assert set_ + [h] == [h];
    } else {
      var g, tail := set_[0], set_[1..];
      NotOverwrittenStep(tail, h);
      NotOverwrittenFront(g, tail);
      NotOverwrittenFront(g, tail + [h]);
      FrontStep(g, tail, h);
      FilterConcat(FrontIfLast(g, tail), NotOverwritten(tail), {Key(h.name)});
      assert set_ == [g] + tail && set_ + [h] == [g] + (tail + [h]);
    }
  }

  lemma OnlyLine(h: Header)
    ensures NotOverwritten([h]) == [h] && NotOverwritten([]) == []
    ensures Filter(NotOverwritten([]), {Key(h.name)}) == []
  {
    assert [h][1..] == [];
  }

  lemma FilterOne(h: Header, d: set<string>)
    ensures Filter([h], d) == if Key(h.name) in d then [] else [h]
    ensures Filter([], d) == []
  {
  }

  lemma SetStep(headers: seq<Header>, set_: seq<Header>, h: Header)
    ensures var cur := Filter(headers, Replaced(set_)) + NotOverwritten(set_);
            Filter(headers, Replaced(set_ + [h])) + NotOverwritten(set_ + [h])
            == (if Repeatable(h.name) then cur else Retain(cur, h.name)) + [h]
  {
    hide Filter, NotOverwritten, Repeatable, Key, Replaced;
    NotOverwrittenStep(set_, h);
    ReplacedStep(set_, h);
    if Repeatable(h.name) {
      assert Replaced(set_) + {} == Replaced(set_);
    } else {
      FilterConcat(Filter(headers, Replaced(set_)), NotOverwritten(set_), {Key(h.name)});
      FilterTwice(headers, Replaced(set_), {Key(h.name)});
    }
  }

  // ---------------------------------------------------------------- what an edit means

  /** The values of the lines with this key, in order. */
  function Values(hs: seq<Header>, key: string): seq<string> {
    if hs == [] then []
    else (if Key(hs[0].name) == key then [hs[0].value] else []) + Values(hs[1..], key)
  }

  lemma ValuesFront(h: Header, tail: seq<Header>, key: string)
    ensures Values([h] + tail, key) == (if Key(h.name) == key then [h.value] else []) + Values(tail, key)
  {
    hide Key;
    assert ([h] + tail)[1..] == tail;
  }

  lemma {:induction false} ValuesConcat(a: seq<Header>, b: seq<Header>, key: string)
    ensures Values(a + b, key) == Values(a, key) + Values(b, key)
  {
    hide Values, Key;
    if a == [] {
      ValuesEmpty(key);
      assert a + b == b;
    } else {
      var h, tail := a[0], a[1..];
      ValuesConcat(tail, b, key);
      ValuesFront(h, tail, key);
      ValuesFront(h, tail + b, key);
      assert a == [h] + tail && a + b == [h] + (tail + b);
    }
  }

  lemma ValuesEmpty(key: string)
    ensures Values([], key) == []
  {
  }

  lemma {:induction false} ValuesFiltered(hs: seq<Header>, d: set<string>, key: string)
    ensures Values(Filter(hs, d), key) == if key in d then [] else Values(hs, key)
  {
    if hs != [] {
      ValuesFiltered(hs[1..], d, key);
      var head := if Key(hs[0].name) in d then [] else [hs[0]];
      ValuesConcat(head, Filter(hs[1..], d), key);
      ValuesOfOne(hs[0], key);
    }
  }

  lemma ValuesOfOne(h: Header, key: string)
    ensures Values([h], key) == if Key(h.name) == key then [h.value] else []
    ensures Values([], key) == []
  {
  }

  /** A set's values of one name that survive it: all of a repeatable name, else the last. */
  function Surviving(v: seq<string>, key: string): seq<string> {
    if key == Key(SET_COOKIE) || v == [] then v else [v[|v| - 1]]
  }

  lemma {:induction false} ValuesNotOverwritten(set_: seq<Header>, key: string)
    ensures Values(NotOverwritten(set_), key) == Surviving(Values(set_, key), key)
    ensures key != Key(SET_COOKIE) ==> (key in Replaced(set_) <==> Values(set_, key) != [])
  {
    hide Key, Values, Replaced, NotOverwritten, FrontIfLast, Surviving;
    if set_ == [] {
      NothingSet(key);
    } else {
      var h, tail := set_[0], set_[1..];
      ValuesNotOverwritten(tail, key);
      NotOverwrittenFront(h, tail);
      ValuesConcat(FrontIfLast(h, tail), NotOverwritten(tail), key);
      ValuesFront(h, tail, key);
      ReplacedFront(h, tail);
      FrontSurvives(h, tail, key);
      assert set_ == [h] + tail;
    }
  }

  lemma NothingSet(key: string)
    ensures Values([], key) == [] && NotOverwritten([]) == [] && Replaced([]) == {}
    ensures Surviving([], key) == []
  {
  }

  lemma FrontSurvives(h: Header, tail: seq<Header>, key: string)
    requires key != Key(SET_COOKIE) ==> (key in Replaced(tail) <==> Values(tail, key) != [])
    ensures Surviving((if Key(h.name) == key then [h.value] else []) + Values(tail, key), key)
         == Values(FrontIfLast(h, tail), key) + Surviving(Values(tail, key), key)
  {
    hide Replaced, Values, Key;
    ValuesOfOne(h, key);
  }

  lemma ReplacedFront(h: Header, tail: seq<Header>)
    ensures Replaced([h] + tail) == Replaced(tail) + if Repeatable(h.name) then {} else {Key(h.name)}
  {
  }

  /** What every name reads as after an edit: a set, non-repeatable name exactly once with its last
      value; `Set-Cookie` lines appended in order; anything else as it was unless removed. */
  lemma EditedReads(headers: seq<Header>, edit: Edit, key: string)
    ensures var before := if key in Keys(edit.removeHeaders) then [] else Values(headers, key);
            var given := Values(edit.setHeaders, key);
            Values(Edited(headers, edit), key) ==
            if key == Key(SET_COOKIE) then before + given
            else if given != [] then [given[|given| - 1]]
            else before
  {
    hide Key, Filter, Values, NotOverwritten;
    var d := Keys(edit.removeHeaders) + Replaced(edit.setHeaders);
    ValuesConcat(Filter(headers, d), NotOverwritten(edit.setHeaders), key);
    ValuesFiltered(headers, d, key);
    ValuesNotOverwritten(edit.setHeaders, key);
    NeverReplaced(edit.setHeaders);
  }

  lemma NeverReplaced(set_: seq<Header>)
    ensures Key(SET_COOKIE) !in Replaced(set_)
  {
  }

  lemma {:induction false} FilterAll(hs: seq<Header>, d: set<string>)
    requires forall h :: h in hs ==> Key(h.name) in d
    ensures Filter(hs, d) == []
  {
    if hs != [] { FilterAll(hs[1..], d); }
  }

  lemma {:induction false} SurvivorsWereSet(set_: seq<Header>)
    ensures forall h :: h in NotOverwritten(set_) ==> h in set_
  {
    if set_ != [] { SurvivorsWereSet(set_[1..]); }
  }

  /** Headers an edit does not name keep their relative order. */
  lemma UntouchedKeepOrder(headers: seq<Header>, edit: Edit)
    ensures Filter(Edited(headers, edit), Touched(edit)) == Filter(headers, Touched(edit))
  {
    var touched := Touched(edit);
    var d := Keys(edit.removeHeaders) + Replaced(edit.setHeaders);
    hide Key, Filter, NotOverwritten, Repeatable;
    FilterConcat(Filter(headers, d), NotOverwritten(edit.setHeaders), touched);
    FilterTwice(headers, d, touched);
    assert d + touched == touched;
    SurvivorsWereSet(edit.setHeaders);
    FilterAll(NotOverwritten(edit.setHeaders), touched);
  }

  /** What an edit means, on the lines before and after it: a removed name is gone unless it is also set;
      `set-cookie` lines are appended; any other name that is set reads as its last set value alone; the
      rest, in order, is as it was. */
  ghost predicate IsEditOf(before: seq<Header>, edit: Edit, after: seq<Header>) {
    && (forall key: string :: ReadsEdited(before, edit, after, key))
    && (forall h :: h in after ==> h in before || h in edit.setHeaders)
    && var touched := Touched(edit); Filter(after, touched) == Filter(before, touched)
  }

  ghost predicate ReadsEdited(before: seq<Header>, edit: Edit, after: seq<Header>, key: string) {
    var left := if exists n :: n in edit.removeHeaders && Lower(n) == key then [] else Values(before, key);
    var given := Values(edit.setHeaders, key);
    Values(after, key) ==
    if key == "set-cookie" then left + given
    else if given != [] then [given[|given| - 1]]
    else left
  }

  /** Every name an edit mentions. */
  function Touched(edit: Edit): set<string> {
    Keys(edit.removeHeaders) + set h | h in edit.setHeaders :: Key(h.name)
  }

  lemma RemovedNames(names: seq<string>, key: string)
    ensures key in Keys(names) <==> exists n :: n in names && Lower(n) == key
  {
  }

  lemma CookieKey()
    ensures Key(SET_COOKIE) == "set-cookie"
  {
  }

  lemma {:induction false} FilterKeeps(hs: seq<Header>, d: set<string>)
    ensures forall h :: h in Filter(hs, d) ==> h in hs
  {
    if hs != [] { FilterKeeps(hs[1..], d); }
  }

  lemma LinesComeFrom(headers: seq<Header>, edit: Edit)
    ensures forall h :: h in Edited(headers, edit) ==> h in headers || h in edit.setHeaders
  {
    hide Filter, NotOverwritten;
    FilterKeeps(headers, Keys(edit.removeHeaders) + Replaced(edit.setHeaders));
    SurvivorsWereSet(edit.setHeaders);
  }

  lemma EditedIsEdit(headers: seq<Header>, edit: Edit)
    ensures IsEditOf(headers, edit, Edited(headers, edit))
  {
    hide Filter, Values, Edited;
    UntouchedKeepOrder(headers, edit);
    LinesComeFrom(headers, edit);
    CookieKey();
    forall key: string ensures ReadsEdited(headers, edit, Edited(headers, edit), key) {
      RemovedNames(edit.removeHeaders, key);
      EditedReads(headers, edit, key);
    }
  }
}
