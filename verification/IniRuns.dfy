/** What whole runs of assignments, forced or not, and of deletions do to the values of a key. */
module IniRuns {
  import opened Basics
  import opened IniGrammar
  import opened IniOrder
  import opened IniTable
  import opened IniView
  import opened IniBuild
  import opened IniBuildDocument
  import opened IniLaws

  /** A call that changes the table; multi-key is a setting that may change between calls. */
  datatype Edit =
    | Put(entry: Entry, force: bool, multiKey: bool)
    | Remove(section: string, key: Option<string>, value: Option<string>, removeEmpty: bool)

  function Apply(t: Table, x: Edit): Table {
    match x
    case Put(e, force, multiKey) => Add(t, e, force, multiKey)
    case Remove(section, key, value, removeEmpty) => Delete(t, section, key, value, removeEmpty).0
  }

  function ApplyAll(t: Table, xs: seq<Edit>): Table
    decreases |xs|
  {
    if xs == [] then t else ApplyAll(Apply(t, xs[0]), xs[1..])
  }

  // ---------- the same on a map from folded names to lists of texts

  function WithoutText(ts: seq<Text>, v: string): seq<Text> {
    if ts == [] then []
    else (if Same(ts[0].value, v) then [] else [ts[0]]) + WithoutText(ts[1..], v)
  }

  /** What a call does to the texts of one key of one section. Without multi-key the first one gets the new value and
      keeps spelling and comment; with it a further one is added, or with force one takes the place of all and
      inherits the comment of the oldest. */
  function OnKey(x: Edit, ts: seq<Text>, section: string, key: string): seq<Text> {
    match x
    case Put(e, force, multiKey) =>
      if !(e.key.Some? && Same(e.section, section) && Same(e.key.value, key)) then ts
      else
        var n := Text(e.key.value, e.comment, ValueText(e.value));
        if ts == [] then [n]
        else if !multiKey then [ts[0].(value := n.value)] + ts[1..]
        else if !force then ts + [n]
        else [n.(comment := if ts[0].comment.Some? then ts[0].comment else n.comment)]
    case Remove(s, k, v, _) =>
      if !Same(s, section) || (k.Some? && !Same(k.value, key)) then ts
      else if k.None? || v.None? then []
      else WithoutText(ts, v.value)
  }

  function OnKeyAll(xs: seq<Edit>, ts: seq<Text>, section: string, key: string): seq<Text>
    decreases |xs|
  {
    if xs == [] then ts else OnKeyAll(xs[1..], OnKey(xs[0], ts, section, key), section, key)
  }

  /** The pairs of a key of a section. */
  function Found(t: Table, section: string, key: string): seq<Pair> { Matches(PairsOf(t.sections, section), key) }

  predicate Rising(ms: seq<Pair>) { forall i, j :: 0 <= i < j < |ms| ==> ms[i].order < ms[j].order }

  // ---------- one assignment

  lemma {:induction false} OldestIsFirst(ms: seq<Pair>)
    requires ms != [] && Rising(ms)
    ensures Oldest(ms) == ms[0]
  {
    if |ms| > 1 {
      assert forall i :: 0 <= i < |ms[1..]| ==> ms[1..][i] == ms[i + 1];
      OldestIsFirst(ms[1..]);
    }
  }

  lemma PairBelow(t: Table, section: string, p: Pair)
    requires Valid(t) && p in PairsOf(t.sections, section)
    ensures p.order <= t.order
  {
    hide Less, Same, SortedPairs, SortedSections, AllApart, Distinct;
    var i := SectionIndex(t.sections, section);
    assert SectionOk(t.sections[i], t.order);
    assert p.order in OrderSet(t.sections[i].pairs);
  }

  lemma FoundBelow(t: Table, section: string, key: string)
    requires Valid(t)
    ensures forall p :: p in Found(t, section, key) ==> p.order <= t.order
  {
    hide Valid, Same, PairsOf, Matches;
    MatchesAre(PairsOf(t.sections, section), key);
    forall p | p in Found(t, section, key) ensures p.order <= t.order { PairBelow(t, section, p); }
  }

  /** The pairs of a key after an assignment to it, with p the pair it would add. */
  function AfterPut(ms: seq<Pair>, p: Pair, force: bool, multiKey: bool): seq<Pair> {
    if ms == [] then [p]
    else if !multiKey then [ms[0].(value := p.value)] + ms[1..]
    else if !force then ms + [p]
    else [p.(comment := if ms[0].comment.Some? then ms[0].comment else p.comment, order := ms[0].order)]
  }

  lemma AfterPutRises(ms: seq<Pair>, p: Pair, force: bool, multiKey: bool)
    requires Rising(ms) && forall q :: q in ms ==> q.order < p.order
    ensures Rising(AfterPut(ms, p, force, multiKey))
  {
  }

  lemma AfterPutTexts(ms: seq<Pair>, p: Pair, force: bool, multiKey: bool)
    ensures Texts(AfterPut(ms, p, force, multiKey)) ==
      var ts := Texts(ms);
      if ms == [] then [TextOf(p)]
      else if !multiKey then [ts[0].(value := p.value)] + ts[1..]
      else if !force then ts + [TextOf(p)]
      else [TextOf(p).(comment := if ts[0].comment.Some? then ts[0].comment else p.comment)]
  {
  }

  lemma FoundAfterPut(t: Table, e: Entry, force: bool, multiKey: bool, section: string, key: string)
    requires Valid(t) && Rising(Found(t, section, key))
    requires e.key.Some? && Same(e.section, section) && Same(e.key.value, key)
    ensures var p := Pair(e.key.value, e.comment, IniLaws.NewOrder(t, e.section), ValueText(e.value));
      && Found(Add(t, e, force, multiKey), section, key) == AfterPut(Found(t, section, key), p, force, multiKey)
      && forall q :: q in Found(t, section, key) ==> q.order < p.order
  {
    hide Valid, Same, PairsOf, Matches, Add, Oldest, HasSection;
    var ms := Found(t, section, key);
    var p := Pair(e.key.value, e.comment, IniLaws.NewOrder(t, e.section), ValueText(e.value));
    AddMatches(t, e, force, multiKey, section, key);
    FoundBelow(t, section, key);
    if ms != [] {
      RisesWith(ms, p);
      OldestIsFirst(ms + [p]);
    }
  }

  lemma RisesWith(ms: seq<Pair>, p: Pair)
    requires Rising(ms) && forall q :: q in ms ==> q.order < p.order
    ensures Rising(ms + [p])
  {
  }

  lemma PutRuns(t: Table, e: Entry, force: bool, multiKey: bool, section: string, key: string)
    requires Valid(t) && Rising(Found(t, section, key))
    ensures var u := Add(t, e, force, multiKey);
      && Rising(Found(u, section, key))
      && Texts(Found(u, section, key)) == OnKey(Put(e, force, multiKey), Texts(Found(t, section, key)), section, key)
  {
    hide Valid, Same, Add, AfterPut, Rising, Oldest;
    var ms := Found(t, section, key);
    if e.key.Some? && Same(e.section, section) && Same(e.key.value, key) {
      var p := Pair(e.key.value, e.comment, IniLaws.NewOrder(t, e.section), ValueText(e.value));
      FoundAfterPut(t, e, force, multiKey, section, key);
      AfterPutRises(ms, p, force, multiKey);
      AfterPutTexts(ms, p, force, multiKey);
    } else {
      AddMatches(t, e, force, multiKey, section, key);
    }
  }

  // ---------- one deletion

  function WithoutValue(ms: seq<Pair>, v: string): seq<Pair> {
    if ms == [] then []
    else (if Same(ms[0].value, v) then [] else [ms[0]]) + WithoutValue(ms[1..], v)
  }

  lemma {:induction false} WithoutValueRises(ms: seq<Pair>, v: string)
    requires Rising(ms)
    ensures Rising(WithoutValue(ms, v)) && forall p :: p in WithoutValue(ms, v) ==> p in ms
  {
    hide Same;
    if ms != [] {
      var rest := WithoutValue(ms[1..], v);
      assert forall i :: 0 <= i < |ms[1..]| ==> ms[1..][i] == ms[i + 1];
      WithoutValueRises(ms[1..], v);
      FirstRises(ms, rest);
    }
  }

  lemma FirstRises(ms: seq<Pair>, rest: seq<Pair>)
    requires ms != [] && Rising(ms) && Rising(rest) && forall p :: p in rest ==> p in ms[1..]
    ensures Rising([ms[0]] + rest)
  {
    forall i | 0 <= i < |rest| ensures ms[0].order < rest[i].order {
      assert rest[i] in ms[1..];
      var j :| 0 <= j < |ms[1..]| && ms[1..][j] == rest[i];
      assert ms[j + 1] == rest[i];
    }
  }

  lemma {:induction false} WithoutValueTexts(ms: seq<Pair>, v: string)
    ensures Texts(WithoutValue(ms, v)) == WithoutText(Texts(ms), v)
  {
    hide Same;
    if ms != [] {
      WithoutValueTexts(ms[1..], v);
      assert Texts(ms)[1..] == Texts(ms[1..]);
      var rest := WithoutValue(ms[1..], v);
      assert Texts([ms[0]] + rest) == [TextOf(ms[0])] + Texts(rest);
    }
  }

  lemma {:induction false} WithoutMatchesValue(ps: seq<Pair>, key: string, v: string, other: string)
    requires Same(key, other)
    ensures Matches(Without(ps, key, Some(v)), other) == WithoutValue(Matches(ps, other), v)
  {
    hide Fold;
    if ps != [] {
      var x := if Removes(ps[0], key, Some(v)) then [] else [ps[0]];
      WithoutMatchesValue(ps[1..], key, v, other);
      MatchesAppend(x, Without(ps[1..], key, Some(v)), other);
      OneMatch(ps[0], other);
      NoMatchesInNothing(other);
      assert Without(ps, key, Some(v)) == x + Without(ps[1..], key, Some(v));
      var rest := Matches(ps[1..], other);
      if Same(ps[0].key, other) {
        assert Matches(ps, other) == [ps[0]] + rest && ([ps[0]] + rest)[1..] == rest;
      } else {
        assert Matches(ps, other) == rest;
      }
    }
  }

  lemma RemovedPairs(t: Table, section: string, key: Option<string>, value: Option<string>, removeEmpty: bool,
                     name: string)
    requires Valid(t)
    ensures var u := Delete(t, section, key, value, removeEmpty).0;
      PairsOf(u.sections, name) ==
        if !Same(section, name) then PairsOf(t.sections, name)
        else if key.None? then [] else Without(PairsOf(t.sections, name), key.value, value)
  {
    hide Less, Same, SectionOk, AllApart, PairsOf, Without, RemoveSection, SetPairs, HasSection;
    var ps := PairsOf(t.sections, section);
    if Same(section, name) { PairsOfSame(t, section, name); HasSectionSame(t.sections, section, name); }
    if HasSection(t.sections, section) {
      RemoveLookup(t.sections, section, name);
      if key.Some? {
        SetLookup(t.sections, section, Without(ps, key.value, value), name);
        NothingWithout(ps, key.value, value);
      }
    } else {
      NoPairsThere(t.sections, section);
      if key.Some? { WithoutShorter(ps, key.value, value); }
    }
  }

  lemma {:induction false} NothingWithout(ps: seq<Pair>, key: string, value: Option<string>)
    ensures |Without(ps, key, value)| == |ps| ==> Without(ps, key, value) == ps
  {
    hide Removes;
    if ps != [] {
      NothingWithout(ps[1..], key, value);
      WithoutShorter(ps[1..], key, value);
    }
  }

  lemma RemoveRuns(t: Table, x: Edit, section: string, key: string)
    requires Valid(t) && Rising(Found(t, section, key)) && x.Remove?
    ensures var u := Apply(t, x);
      && Rising(Found(u, section, key))
      && Texts(Found(u, section, key)) == OnKey(x, Texts(Found(t, section, key)), section, key)
  {
    hide Valid, Same, PairsOf, Matches, Delete, Without;
    var ps := PairsOf(t.sections, section);
    RemovedPairs(t, x.section, x.key, x.value, x.removeEmpty, section);
    NoMatchesInNothing(key);
    if Same(x.section, section) && x.key.Some? {
      WithoutMatches(ps, x.key.value, x.value, key);
      if Same(x.key.value, key) && x.value.Some? {
        WithoutMatchesValue(ps, x.key.value, x.value.value, key);
        WithoutValueRises(Matches(ps, key), x.value.value);
        WithoutValueTexts(Matches(ps, key), x.value.value);
      }
    }
  }

  lemma NoMatchesInNothing(key: string)
    ensures Matches([], key) == []
  {
  }

  // ---------- runs

  /** Over every run of assignments, forced or not, and of deletions, with multi-key switched on and off at will, the
      table is a map on folded names: the pairs of a key are what the same run makes of them on its own, in load
      order. */
  lemma {:induction false} EditRun(t: Table, xs: seq<Edit>, section: string, key: string)
    requires Valid(t) && Rising(Found(t, section, key))
    ensures var u := ApplyAll(t, xs);
      && Valid(u) && Rising(Found(u, section, key))
      && Texts(Found(u, section, key)) == OnKeyAll(xs, Texts(Found(t, section, key)), section, key)
    decreases |xs|
  {
    hide Valid, Found, Rising, Add, Delete, OnKey, Texts;
    if xs != [] {
      match xs[0] {
        case Put(e, force, multiKey) =>
          AddKeepsValid(t, e, force, multiKey);
          PutRuns(t, e, force, multiKey, section, key);
        case Remove(s, k, v, removeEmpty) =>
          DeleteKeepsValid(t, s, k, v, removeEmpty);
          RemoveRuns(t, xs[0], section, key);
      }
      EditRun(Apply(t, xs[0]), xs[1..], section, key);
    }
  }

  // ---------- multi-key off

  predicate SingleKey(xs: seq<Edit>) { forall x :: x in xs && x.Put? ==> !x.multiKey }

  lemma {:induction false} WithoutTextShorter(ts: seq<Text>, v: string)
    ensures |WithoutText(ts, v)| <= |ts|
  {
    hide Same;
    if ts != [] { WithoutTextShorter(ts[1..], v); }
  }

  lemma {:induction false} StaysSingle(xs: seq<Edit>, ts: seq<Text>, section: string, key: string)
    requires SingleKey(xs) && |ts| <= 1
    ensures |OnKeyAll(xs, ts, section, key)| <= 1
    decreases |xs|
  {
    hide Same;
    if xs != [] {
      assert xs[0] in xs && forall x :: x in xs[1..] ==> x in xs;
      if xs[0].Remove? && xs[0].value.Some? { WithoutTextShorter(ts, xs[0].value.value); }
      StaysSingle(xs[1..], OnKey(xs[0], ts, section, key), section, key);
    }
  }

  lemma {:induction false} TwoMatches(ps: seq<Pair>, key: string, i: nat, j: nat)
    requires i < j < |ps| && Same(ps[i].key, key) && Same(ps[j].key, key)
    ensures |Matches(ps, key)| >= 2
  {
    hide Same;
    MatchesAppend(ps[..j], ps[j..], key);
    assert ps == ps[..j] + ps[j..];
    SomeMatch(ps[..j], key, i);
    SomeMatch(ps[j..], key, 0);
  }

  lemma SomeMatch(ps: seq<Pair>, key: string, i: nat)
    requires i < |ps| && Same(ps[i].key, key)
    ensures Matches(ps, key) != []
  {
    hide Same;
    MatchesAre(ps, key);
  }

  /** Over every run with multi-key off, from an empty table on, no section holds two pairs of one key, and so the size
      of a section is the number of keys listed. */
  lemma OnePairPerKey(xs: seq<Edit>, section: string)
    requires SingleKey(xs)
    ensures var ps := PairsOf(ApplyAll(EMPTY, xs).sections, section);
      && (forall i, j :: 0 <= i < j < |ps| ==> !Same(ps[i].key, ps[j].key))
      && |Firsts(ps)| == |ps|
  {
    hide Valid, Same, PairsOf, Matches, ApplyAll, OnKeyAll, SingleKey;
    var ps := PairsOf(ApplyAll(EMPTY, xs).sections, section);
    forall i, j | 0 <= i < j < |ps| ensures !Same(ps[i].key, ps[j].key) {
      var key := ps[j].key;
      FromNothing(section, key);
      EditRun(EMPTY, xs, section, key);
      StaysSingle(xs, [], section, key);
      assert |Texts(Found(ApplyAll(EMPTY, xs), section, key))| <= 1;
      SameAsItself(key);
      if Same(ps[i].key, key) { TwoMatches(ps, key, i, j); }
    }
    SizeIsKeyCount(ps);
  }

  lemma SameAsItself(key: string)
    ensures Same(key, key)
  {
  }

  lemma FromNothing(section: string, key: string)
    ensures Valid(EMPTY) && Found(EMPTY, section, key) == [] && Rising([]) && Texts([]) == []
  {
  }
}
