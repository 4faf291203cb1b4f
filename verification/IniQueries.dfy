/** What the queries hand out, written out, and which sections there are after a call. */
module IniQueries {
  import opened Basics
  import opened IniOrder
  import opened IniGrammar
  import opened IniTable
  import opened IniView
  import opened IniBuild
  import opened IniBuildDocument
  import opened IniLaws
  import IniStore

  // ---------- names are compared without case

  lemma SameIs(a: string, b: string)
    ensures Same(a, b) <==> NoCase(a, b)
  {
    EquivIsNoCase(a, b);
  }

  /** A section is found under every spelling of its name, and under no other name. */
  lemma SectionFound(ss: seq<Section>, name: string)
    requires SortedSections(ss)
    ensures HasSection(ss, name) <==> exists i :: 0 <= i < |ss| && NoCase(ss[i].name, name)
    ensures forall i :: 0 <= i < |ss| && NoCase(ss[i].name, name) ==> PairsOf(ss, name) == ss[i].pairs
  {
    hide Less, Fold, NoCase, SortedSections;
    var k := SectionIndex(ss, name);
    forall i | 0 <= i < |ss| ensures NoCase(ss[i].name, name) <==> Fold(ss[i].name) == Fold(name) {
      EquivIsNoCase(ss[i].name, name);
    }
    forall i | 0 <= i < |ss| && NoCase(ss[i].name, name) ensures PairsOf(ss, name) == ss[i].pairs {
      PairsOfAt(ss, i, name);
    }
  }

  // ---------- keys

  /** The pair at place j is the first one of its key. */
  predicate FirstAt(ps: seq<Pair>, j: int) {
    0 <= j < |ps| && forall i :: 0 <= i < j ==> !NoCase(ps[i].key, ps[j].key)
  }

  lemma FirstsStep(ps: seq<Pair>)
    requires ps != []
    ensures var k := |ps| - 1;
      Firsts(ps) == Firsts(ps[..k]) + if FirstAt(ps, k) then [Name(ps[k].key, ps[k].comment, ps[k].order)] else []
  {
    hide NoCase, HasKey, Same;
    var k := |ps| - 1;
    HasKeyIs(ps[..k], ps[k].key);
    assert forall i :: 0 <= i < k ==> ps[..k][i] == ps[i];
  }

  lemma {:induction false} FirstIsListed(ps: seq<Pair>, j: nat)
    requires FirstAt(ps, j)
    ensures Name(ps[j].key, ps[j].comment, ps[j].order) in Firsts(ps)
  {
    hide NoCase, Firsts;
    var k := |ps| - 1;
    FirstsStep(ps);
    if j < k { FirstIsListed(ps[..k], j); }
  }

  lemma {:induction false} ListedIsFirst(ps: seq<Pair>, m: Name) returns (j: nat)
    requires m in Firsts(ps)
    ensures FirstAt(ps, j) && m == Name(ps[j].key, ps[j].comment, ps[j].order)
  {
    hide NoCase, HasKey;
    var k := |ps| - 1;
    FirstsStep(ps);
    if m in Firsts(ps[..k]) { j := ListedIsFirst(ps[..k], m); } else { j := k; }
  }

  lemma {:induction false} FirstsGrow(ps: seq<Pair>, n: nat)
    requires n <= |ps|
    ensures Firsts(ps[..n]) <= Firsts(ps)
  {
    hide Firsts, FirstAt;
    if n == |ps| {
      assert ps[..n] == ps;
    } else {
      var k := |ps| - 1;
      FirstsStep(ps);
      FirstsGrow(ps[..k], n);
      assert ps[..k][..n] == ps[..n];
    }
  }

  /** GetAllKeys hands out spelling, comment and load order of the first pair of every key, in the order of the
      pairs. */
  lemma KeysAre(ps: seq<Pair>)
    ensures forall j :: FirstAt(ps, j) ==> Name(ps[j].key, ps[j].comment, ps[j].order) in Firsts(ps)
    ensures forall m :: m in Firsts(ps) ==>
      exists j :: FirstAt(ps, j) && m == Name(ps[j].key, ps[j].comment, ps[j].order)
    ensures forall n :: 0 <= n <= |ps| ==> Firsts(ps[..n]) <= Firsts(ps)
  {
    hide NoCase, Firsts;
    forall j | FirstAt(ps, j) ensures Name(ps[j].key, ps[j].comment, ps[j].order) in Firsts(ps) {
      FirstIsListed(ps, j);
    }
    forall m | m in Firsts(ps) ensures exists j :: FirstAt(ps, j) && m == Name(ps[j].key, ps[j].comment, ps[j].order) {
      var j := ListedIsFirst(ps, m);
    }
    forall n | 0 <= n <= |ps| ensures Firsts(ps[..n]) <= Firsts(ps) { FirstsGrow(ps, n); }
  }

  lemma HasKeyIs(ps: seq<Pair>, key: string)
    ensures HasKey(ps, key) <==> exists i :: 0 <= i < |ps| && NoCase(ps[i].key, key)
  {
    hide NoCase, Same;
    forall i | 0 <= i < |ps| ensures Same(ps[i].key, key) <==> NoCase(ps[i].key, key) { SameIs(ps[i].key, key); }
  }

  // ---------- values

  /** With multi-key on, GetAllValues hands out value, comment and load order of every pair of the key, in order. */
  lemma AllValues(ps: seq<Pair>, p: Pair, key: string)
    ensures IniStore.ValueNames(ValuesOf([], key, true)) == []
    ensures IniStore.ValueNames(ValuesOf(ps + [p], key, true)) ==
      IniStore.ValueNames(ValuesOf(ps, key, true))
      + (if NoCase(p.key, key) then [Name(p.value, p.comment, p.order)] else [])
  {
    hide NoCase, Same;
    MatchesAppend(ps, [p], key);
    SameIs(p.key, key);
    assert Matches([p], key) == if Same(p.key, key) then [p] else [];
  }

  /** The place of the first pair of a key. */
  predicate FoundAt(ps: seq<Pair>, key: string, j: int) {
    0 <= j < |ps| && NoCase(ps[j].key, key) && forall i :: 0 <= i < j ==> !NoCase(ps[i].key, key)
  }

  /** GetValue gives the first value of the key, and with multi-key off GetAllValues gives that one alone. */
  lemma FirstValue(ps: seq<Pair>, key: string, j: nat)
    requires FoundAt(ps, key, j)
    ensures Matches(ps, key) != [] && Matches(ps, key)[0] == ps[j]
    ensures IniStore.ValueNames(ValuesOf(ps, key, false)) == [Name(ps[j].value, ps[j].comment, ps[j].order)]
  {
    hide NoCase, Same, KeyIndex;
    forall i | 0 <= i < |ps| ensures Same(ps[i].key, key) <==> NoCase(ps[i].key, key) { SameIs(ps[i].key, key); }
    MatchesAppend(ps[..j], ps[j..], key);
    assert ps == ps[..j] + ps[j..];
    NoneBefore(ps[..j], key);
    assert Matches(ps[j..], key)[0] == ps[j];
  }

  lemma {:induction false} NoneBefore(ps: seq<Pair>, key: string)
    requires forall i :: 0 <= i < |ps| ==> !Same(ps[i].key, key)
    ensures Matches(ps, key) == []
  {
    hide Same;
    if ps != [] { NoneBefore(ps[1..], key); }
  }

  // ---------- sections

  /** In the order of writing the nameless section comes first, and the others stay in their order. */
  lemma NamelessMoves(a: seq<Name>, n: Name, b: seq<Name>)
    requires forall i :: 0 <= i < |a| ==> a[i].item != ""
    ensures n.item == "" ==> NamelessFirst(a + [n] + b) == [n] + a + b
    ensures NamelessFirst(a) == a
  {
    NamelessIs(a, |a|);
    if n.item == "" {
      NamelessIs(a + [n] + b, |a|);
      assert (a + [n] + b)[..|a|] == a && (a + [n] + b)[|a| + 1..] == b;
    }
  }

  /** An addition leaves name, comment and load order of every section as they were. If its section is new, that one
      comes in at the place of its name, with the next load order and, from a header alone, with a comment: the
      comment of a second header of a section is not used. */
  lemma SectionsAfterAdd(t: Table, e: Entry, force: bool, multiKey: bool)
    ensures var hs, gs := Heads(t.sections), Heads(Add(t, e, force, multiKey).sections);
      if HasSection(t.sections, e.section) then gs == hs
      else
        var n := Lower(t.sections, e.section);
        gs == hs[..n] + [Name(e.section, if e.key.None? then e.comment else None, t.order + 1)] + hs[n..]
    ensures Add(t, e, force, multiKey).order
      == t.order + (if HasSection(t.sections, e.section) then 0 else 1) + (if e.key.None? then 0 else 1)
  {
    hide Less, Same, Assign, PairsOf, HasSection, EnsureSection, Lower;
    var c := if e.key.None? then e.comment else None;
    var u := EnsureSection(t, e.section, c);
    EnsureHas(t, e.section, c);
    EnsureHeads(t, e.section, c);
    NextSection(t, e.section, c);
    if e.key.Some? {
      SetPairsHeads(u.sections, e.section,
                    Assign(PairsOf(u.sections, e.section), e.key.value, ValueText(e.value), e.comment, u.order + 1,
                           force, multiKey));
    }
  }

  lemma NextSection(t: Table, name: string, comment: Option<string>)
    ensures EnsureSection(t, name, comment).order == if HasSection(t.sections, name) then t.order else t.order + 1
  {
    hide Less, Same, SectionIndex;
  }

  lemma EnsureHeads(t: Table, name: string, comment: Option<string>)
    ensures var hs, gs := Heads(t.sections), Heads(EnsureSection(t, name, comment).sections);
      if HasSection(t.sections, name) then gs == hs
      else var n := Lower(t.sections, name); gs == hs[..n] + [Name(name, comment, t.order + 1)] + hs[n..]
  {
    hide Less, Same;
  }

  /** A deletion leaves name, comment and load order of every section as they were, but for the section it removes:
      when that was asked for, or when nothing is left in it and that was to be cleared away. */
  lemma SectionsAfterDelete(t: Table, section: string, key: Option<string>, value: Option<string>, removeEmpty: bool)
    ensures var (u, done) := Delete(t, section, key, value, removeEmpty);
      var hs, gs, i := Heads(t.sections), Heads(u.sections), SectionIndex(t.sections, section);
      if done && (key.None? || (removeEmpty && Without(PairsOf(t.sections, section), key.value, value) == []))
      then gs == hs[..i] + hs[i + 1..]
      else gs == hs
  {
    hide Less, Same, Without, PairsOf;
    if HasSection(t.sections, section) && key.Some? {
      SetPairsHeads(t.sections, section, Without(PairsOf(t.sections, section), key.value, value));
    }
  }
}
