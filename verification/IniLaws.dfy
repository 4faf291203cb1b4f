/** What assignments and deletions mean for the queries, for one call and for whole runs. */
module IniLaws {
  import opened Basics
  import opened IniOrder
  import opened IniGrammar
  import opened IniTable
  import opened IniView
  import opened IniBuild
  import opened IniBuildDocument
  import opened IniSearch

  // ---------- one assignment

  function NewOrder(t: Table, section: string): int {
    if HasSection(t.sections, section) then t.order + 1 else t.order + 2
  }

  function ValueText(v: Option<string>): string { if v.None? then "" else v.value }

  lemma EnsureLookup(t: Table, section: string, comment: Option<string>, name: string)
    requires Valid(t)
    ensures PairsOf(EnsureSection(t, section, comment).sections, name) == PairsOf(t.sections, name)
    ensures EnsureSection(t, section, comment).order + 1 == NewOrder(t, section)
  {
    hide Less, Same, SectionOk, AllApart, InsertSection;
    if !HasSection(t.sections, section) {
      PairsOfInsert(t.sections, Section(section, comment, t.order + 1, []), name);
      if Same(section, name) { HasSectionSame(t.sections, section, name); }
    }
  }

  /** An assignment changes the pairs of the section it names, and no other. */
  lemma AddLookup(t: Table, e: Entry, force: bool, multiKey: bool, name: string)
    requires Valid(t)
    ensures PairsOf(Add(t, e, force, multiKey).sections, name) ==
      if e.key.Some? && Same(e.section, name)
      then Assign(PairsOf(t.sections, e.section), e.key.value, ValueText(e.value), e.comment,
                  NewOrder(t, e.section), force, multiKey)
      else PairsOf(t.sections, name)
  {
    hide Less, Same, SectionOk, AllApart, SortedSections, Assign, PairsOf;
    var c := if e.key.None? then e.comment else None;
    var u := EnsureSection(t, e.section, c);
    EnsureLookup(t, e.section, c, name);
    EnsureLookup(t, e.section, c, e.section);
    EnsureHas(t, e.section, c);
    EnsureKeepsValid(t, e.section, c);
    if e.key.Some? {
      var ps := Assign(PairsOf(u.sections, e.section), e.key.value, ValueText(e.value), e.comment, u.order + 1,
                       force, multiKey);
      PairsOfSet(u.sections, e.section, ps, name);
    }
  }

  lemma PairsSorted(t: Table, name: string)
    requires Valid(t)
    ensures SortedPairs(PairsOf(t.sections, name)) && Distinct(PairsOf(t.sections, name))
    ensures forall p :: p in PairsOf(t.sections, name) ==> p.order <= t.order
  {
    hide Less, Same, SortedSections, AllApart;
    var i := SectionIndex(t.sections, name);
    if i < |t.sections| {
      assert SectionOk(t.sections[i], t.order);
      forall p | p in t.sections[i].pairs ensures p.order <= t.order {
        assert p.order in OrderSet(t.sections[i].pairs);
      }
    }
  }

  lemma SameMatches(ps: seq<Pair>, a: string, b: string)
    requires Same(a, b)
    ensures Matches(ps, a) == Matches(ps, b)
  {
    if ps != [] { SameMatches(ps[1..], a, b); }
  }

  lemma {:induction false} WithoutMatches(ps: seq<Pair>, key: string, value: Option<string>, other: string)
    ensures !Same(key, other) ==> Matches(Without(ps, key, value), other) == Matches(ps, other)
    ensures Same(key, other) && value.None? ==> Matches(Without(ps, key, value), other) == []
  {
    hide Fold;
    if ps != [] {
      var x := if Removes(ps[0], key, value) then [] else [ps[0]];
      WithoutMatches(ps[1..], key, value, other);
      MatchesAppend(x, Without(ps[1..], key, value), other);
      assert Matches([ps[0]], other) == if Same(ps[0].key, other) then [ps[0]] else [];
    }
  }

  lemma MatchesAround(a: seq<Pair>, x: Pair, b: seq<Pair>, key: string)
    ensures Matches(a + [x] + b, key) == Matches(a, key) + (if Same(x.key, key) then [x] else []) + Matches(b, key)
  {
    hide Fold;
    MatchesAppend(a + [x], b, key);
    MatchesAppend(a, [x], key);
    assert Matches([x], key) == (if Same(x.key, key) then [x] else []);
  }

  /** Giving the first pair of a key a new value. */
  lemma {:induction false} ReplaceMatches(ps: seq<Pair>, key: string, value: string, other: string)
    requires HasKey(ps, key)
    ensures var i := KeyIndex(ps, key);
      i < |ps| && Matches(ps, key) != [] &&
      Matches(ps[i := ps[i].(value := value)], other) ==
        if Same(key, other) then [Matches(ps, key)[0].(value := value)] + Matches(ps, key)[1..] else Matches(ps, other)
  {
    hide Same, Matches, HasKey;
    KeyIndexFinds(ps, key);
    var i := KeyIndex(ps, key);
    var p := ps[i].(value := value);
    var front, back := ps[..i], ps[i + 1..];
    assert ps == front + [ps[i]] + back && ps[i := p] == front + [p] + back;
    SameIsSymmetric(ps[i].key, key, other);
    SameIsSymmetric(key, ps[i].key, other);
    MatchesAround(front, ps[i], back, key);
    MatchesAround(front, ps[i], back, other);
    MatchesAround(front, p, back, other);
    NoMatchesBefore(ps, key);
    assert Matches(ps, key) == [ps[i]] + Matches(back, key);
    if Same(key, other) {
      SameMatches(front, key, other);
      SameMatches(back, key, other);
      assert Matches(ps[i := p], other) == [p] + Matches(back, key);
    }
  }

  /** What an assignment does to the pairs of its key, and that other keys do not notice. With multi-key off the
      first pair keeps its spelling, comment and load order and gets the value; without force a new pair is
      appended; with force all pairs collapse into one, which keeps the smallest load order and the comment of
      the pair that had it. */
  lemma AssignMatches(ps: seq<Pair>, key: string, value: string, comment: Option<string>, order: int, force: bool,
                      multiKey: bool, other: string)
    requires SortedPairs(ps)
    ensures var ms := Matches(ps, key);
      Matches(Assign(ps, key, value, comment, order, force, multiKey), other) ==
        if !Same(key, other) then Matches(ps, other)
        else if ms == [] then [Pair(key, comment, order, value)]
        else if !multiKey then [ms[0].(value := value)] + ms[1..]
        else if !force then ms + [Pair(key, comment, order, value)]
        else var first := Oldest(ms + [Pair(key, comment, order, value)]);
             [Pair(key, if first.comment.Some? then first.comment else comment, first.order, value)]
  {
    hide Less, Same, HasKey, InsertPair, Without, SortedPairs, Oldest;
    var ms := Matches(ps, key);
    MatchesAre(ps, key);
    if Same(key, other) { SameMatches(ps, key, other); }
    if HasKey(ps, key) && !multiKey {
      ReplaceMatches(ps, key, value, other);
    } else if HasKey(ps, key) && force {
      var first := Oldest(ms + [Pair(key, comment, order, value)]);
      var p := Pair(key, if first.comment.Some? then first.comment else comment, first.order, value);
      WithoutSorted(ps, key, None);
      MatchesInsert(Without(ps, key, None), p, other);
      WithoutMatches(ps, key, None, other);
    } else {
      MatchesInsert(ps, Pair(key, comment, order, value), other);
    }
  }

  // ---------- runs of assignments

  /** A pair without its load order. */
  datatype Text = Text(key: string, comment: Option<string>, value: string)

  function TextOf(p: Pair): Text { Text(p.key, p.comment, p.value) }

  function Texts(ps: seq<Pair>): seq<Text> { seq(|ps|, i requires 0 <= i < |ps| => TextOf(ps[i])) }

  /** The assignments of a run that go to one key of one section, in order. */
  function Assigned(es: seq<Entry>, section: string, key: string): seq<Text> {
    if es == [] then []
    else
      var e := es[0];
      (if e.key.Some? && Same(e.section, section) && Same(e.key.value, key)
       then [Text(e.key.value, e.comment, ValueText(e.value))] else [])
      + Assigned(es[1..], section, key)
  }

  /** What one addition does to the pairs of a key of a section. */
  lemma AddMatches(t: Table, e: Entry, force: bool, multiKey: bool, section: string, key: string)
    requires Valid(t)
    ensures var ms := Matches(PairsOf(t.sections, section), key);
      Matches(PairsOf(Add(t, e, force, multiKey).sections, section), key) ==
        if !(e.key.Some? && Same(e.section, section) && Same(e.key.value, key)) then ms
        else
          var p := Pair(e.key.value, e.comment, NewOrder(t, e.section), ValueText(e.value));
          if ms == [] then [p]
          else if !multiKey then [ms[0].(value := ValueText(e.value))] + ms[1..]
          else if !force then ms + [p]
          else
            var first := Oldest(ms + [p]);
            [p.(comment := if first.comment.Some? then first.comment else e.comment, order := first.order)]
  {
    hide Less, Same, Valid, Assign, PairsOf, Oldest, Matches, Add, NewOrder;
    AddLookup(t, e, force, multiKey, section);
    if e.key.Some? && Same(e.section, section) {
      PairsOfSame(t, e.section, section);
      PairsSorted(t, section);
      AssignMatches(PairsOf(t.sections, section), e.key.value, ValueText(e.value), e.comment, NewOrder(t, e.section),
                    force, multiKey, key);
      if Same(e.key.value, key) { SameMatches(PairsOf(t.sections, section), e.key.value, key); }
    }
  }

  lemma PairsOfSame(t: Table, a: string, b: string)
    requires Valid(t) && Same(a, b)
    ensures PairsOf(t.sections, a) == PairsOf(t.sections, b)
  {
    hide Less, Same, SectionOk, AllApart, SortedSections;
    HasSectionSame(t.sections, a, b);
    if HasSection(t.sections, a) {
      var i := SectionIndex(t.sections, a);
      SameIsSymmetric(t.sections[i].name, a, b);
      PairsOfAt(t.sections, i, b);
    }
  }

  /** With multi-key on and no force, a key holds what it held and then every assignment to it, in order. */
  lemma {:induction false} MultiKeyRun(t: Table, es: seq<Entry>, section: string, key: string)
    requires Valid(t)
    ensures Texts(Matches(PairsOf(AddAll(t, es, true).sections, section), key))
      == Texts(Matches(PairsOf(t.sections, section), key)) + Assigned(es, section, key)
    decreases |es|
  {
    hide Same, Valid, PairsOf, Matches, Add, NewOrder;
    if es != [] {
      var e := es[0];
      var u := Add(t, e, false, true);
      AddKeepsValid(t, e, false, true);
      AddMatches(t, e, false, true, section, key);
      MultiKeyRun(u, es[1..], section, key);
      var ms := Matches(PairsOf(t.sections, section), key);
      if e.key.Some? && Same(e.section, section) && Same(e.key.value, key) {
        var p := Pair(e.key.value, e.comment, NewOrder(t, e.section), ValueText(e.value));
        assert Matches(PairsOf(u.sections, section), key) == ms + [p];
        assert Texts(ms + [p]) == Texts(ms) + [TextOf(p)];
      }
    }
  }

  /** With multi-key off, a key that held at most one pair still does: the last assignment gives the value,
      the first one (or the pair that was there) the spelling, the comment and the load order. */
  lemma {:induction false} SingleKeyRun(t: Table, es: seq<Entry>, section: string, key: string)
    requires Valid(t) && |Matches(PairsOf(t.sections, section), key)| <= 1
    ensures
      var before := Matches(PairsOf(t.sections, section), key);
      var after := Matches(PairsOf(AddAll(t, es, false).sections, section), key);
      var a := Assigned(es, section, key);
      if a == [] then after == before
      else if before != [] then after == [before[0].(value := a[|a| - 1].value)]
      else Texts(after) == [Text(a[0].key, a[0].comment, a[|a| - 1].value)]
    decreases |es|
  {
    hide Same, Valid, PairsOf, Matches, Add, NewOrder;
    if es != [] {
      var e := es[0];
      var u := Add(t, e, false, false);
      AddKeepsValid(t, e, false, false);
      AddMatches(t, e, false, false, section, key);
      SingleKeyRun(u, es[1..], section, key);
    }
  }

  // ---------- deletion and sizes

  lemma RemoveLookup(ss: seq<Section>, section: string, name: string)
    requires SortedSections(ss) && HasSection(ss, section)
    ensures PairsOf(RemoveSection(ss, section), name) == if Same(section, name) then [] else PairsOf(ss, name)
    ensures HasSection(RemoveSection(ss, section), name) <==> !Same(section, name) && HasSection(ss, name)
  {
    hide Less, Same, PairsOf;
    var i := SectionIndex(ss, section);
    var rs := RemoveSection(ss, section);
    assert forall a :: 0 <= a < |rs| ==> rs[a] == ss[if a < i then a else a + 1];
    assert SortedSections(rs);
    SameIsSymmetric(ss[i].name, section, name);
    SameIsSymmetric(section, ss[i].name, name);
    if !Same(section, name) && HasSection(ss, name) {
      var k := SectionIndex(ss, name);
      PairsOfAt(ss, k, name);
      PairsOfAt(rs, if k < i then k else k - 1, name);
    } else {
      forall r | r in rs ensures !Same(r.name, name) {
        var a :| 0 <= a < |rs| && rs[a] == r;
        var b := if a < i then a else a + 1;
        SectionThere(ss, name);
        assert ss[b] in ss;
        SameIsSymmetric(name, ss[b].name, name);
        SameIsSymmetric(ss[i].name, name, ss[b].name);
        if Same(ss[i].name, ss[b].name) { SectionsDiffer(ss, i, b); }
      }
      NoSection(rs, name);
      SectionThere(ss, name);
      if !HasSection(ss, name) { NoSection(ss, name); }
    }
  }

  lemma SetLookup(ss: seq<Section>, section: string, ps: seq<Pair>, name: string)
    requires SortedSections(ss) && HasSection(ss, section)
    ensures PairsOf(SetPairs(ss, section, ps), name) == if Same(section, name) then ps else PairsOf(ss, name)
    ensures HasSection(SetPairs(ss, section, ps), name) <==> HasSection(ss, name)
  {
    hide Less, Same, SortedSections, PairsOf;
    PairsOfSet(ss, section, ps, name);
    SectionThere(ss, name);
    var rs := SetPairs(ss, section, ps);
    SectionThere(rs, name);
    forall s | s in ss ensures exists r :: r in rs && r.name == s.name {
      var k :| 0 <= k < |ss| && ss[k] == s;
      assert rs[k] in rs && rs[k].name == s.name;
    }
    forall r | r in rs ensures exists s :: s in ss && r.name == s.name {
      var k :| 0 <= k < |rs| && rs[k] == r;
      assert ss[k] in ss && rs[k].name == ss[k].name;
    }
  }

  /** Deleting says so exactly when something goes; it removes the pairs of the key (and value) asked for and no
      others, and the section exactly when that was asked for or it became empty and that was to be cleared away. */
  lemma DeleteLookup(t: Table, section: string, key: Option<string>, value: Option<string>, removeEmpty: bool,
                     name: string)
    requires Valid(t)
    ensures
      var (u, done) := Delete(t, section, key, value, removeEmpty);
      var ps := PairsOf(t.sections, section);
      && (done <==>
            HasSection(t.sections, section) && (key.None? || exists p :: p in ps && Removes(p, key.value, value)))
      && (forall p :: p in PairsOf(u.sections, name) <==>
            p in PairsOf(t.sections, name) && !(Same(section, name) && (key.None? || Removes(p, key.value, value))))
      && (HasSection(u.sections, name) <==>
            HasSection(t.sections, name) && !(done && Same(section, name)
              && (key.None? || (removeEmpty && forall p :: p in ps ==> Removes(p, key.value, value)))))
      && u.order == t.order
  {
    hide Less, Same, SectionOk, AllApart, PairsOf, Without, Removes, RemoveSection, SetPairs, HasSection;
    var ps := PairsOf(t.sections, section);
    if Same(section, name) { PairsOfSame(t, section, name); HasSectionSame(t.sections, section, name); }
    if HasSection(t.sections, section) {
      RemoveLookup(t.sections, section, name);
      if key.Some? {
        SetLookup(t.sections, section, Without(ps, key.value, value), name);
        WithoutMembers(ps, key.value, value);
        RemovesSome(ps, key.value, value);
        NoneLeft(Without(ps, key.value, value));
      }
    } else {
      NoPairsThere(t.sections, section);
    }
  }

  lemma NoneLeft(ps: seq<Pair>)
    ensures ps == [] <==> forall p :: p !in ps
  {
    if ps != [] { assert ps[0] in ps; }
  }

  lemma NoPairsThere(ss: seq<Section>, name: string)
    requires !HasSection(ss, name)
    ensures PairsOf(ss, name) == []
  {
  }

  /** Fewer pairs are left exactly when one was to be removed. */
  lemma {:induction false} RemovesSome(ps: seq<Pair>, key: string, value: Option<string>)
    ensures |Without(ps, key, value)| == |ps| <==> forall p :: p in ps ==> !Removes(p, key, value)
  {
    hide Removes;
    if ps != [] {
      RemovesSome(ps[1..], key, value);
      WithoutShorter(ps[1..], key, value);
      assert ps == [ps[0]] + ps[1..];
    }
  }

  /** With one pair per key, as multi-key off keeps it, the number of pairs is the number of keys listed. */
  lemma {:induction false} SizeIsKeyCount(ps: seq<Pair>)
    requires forall i, j :: 0 <= i < j < |ps| ==> !Same(ps[i].key, ps[j].key)
    ensures |Firsts(ps)| == |ps|
  {
    hide Fold;
    if ps != [] {
      SizeIsKeyCount(ps[..|ps| - 1]);
    }
  }
}
