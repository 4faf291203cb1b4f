/** From the sections of a document to the table that loading its entries builds. */
module IniBuildDocument {
  import opened Basics
  import opened IniOrder
  import opened IniGrammar
  import opened IniDocument
  import opened IniTable
  import opened IniView
  import opened IniBuild

  // ---------- looking up sections

  lemma PairsOfAt(ss: seq<Section>, i: nat, name: string)
    requires SortedSections(ss) && i < |ss| && Same(ss[i].name, name)
    ensures SectionIndex(ss, name) == i && PairsOf(ss, name) == ss[i].pairs
  {
    hide Less, SortedSections, Same;
    var k := SectionIndex(ss, name);
    assert k <= i;
    SameIsSymmetric(name, ss[i].name, name);
    SameIsSymmetric(ss[k].name, name, ss[i].name);
    SectionsDiffer(ss, k, i);
  }

  lemma NoSection(ss: seq<Section>, name: string)
    requires forall s :: s in ss ==> !Same(s.name, name)
    ensures !HasSection(ss, name) && PairsOf(ss, name) == []
  {
    hide Same;
    SectionThere(ss, name);
  }

  lemma SectionThere(ss: seq<Section>, name: string)
    ensures HasSection(ss, name) <==> exists s :: s in ss && Same(s.name, name)
  {
    hide Same;
    var k := SectionIndex(ss, name);
    if k < |ss| { assert ss[k] in ss; }
  }

  lemma InsertSectionMembers(ss: seq<Section>, s: Section)
    ensures forall r :: r in InsertSection(ss, s) <==> r in ss || r == s
  {
    assert ss == ss[..Lower(ss, s.name)] + ss[Lower(ss, s.name)..];
  }

  /** A section added under a new name leaves the lookup of every other name as it was. */
  lemma PairsOfInsert(ss: seq<Section>, s: Section, name: string)
    requires SortedSections(ss) && !HasSection(ss, s.name)
    ensures PairsOf(InsertSection(ss, s), name) == if Same(s.name, name) then s.pairs else PairsOf(ss, name)
  {
    hide Less, SortedSections, Same, PairsOf;
    var n := Lower(ss, s.name);
    var rs := InsertSection(ss, s);
    InsertSectionSorted(ss, s);
    if Same(s.name, name) {
      PairsOfAt(rs, n, name);
    } else if HasSection(ss, name) {
      var k := SectionIndex(ss, name);
      PairsOfAt(ss, k, name);
      PairsOfAt(rs, if k < n then k else k + 1, name);
    } else {
      InsertSectionMembers(ss, s);
      SectionThere(ss, name);
      NoSection(rs, name);
      NoSection(ss, name);
    }
  }

  lemma SetPairsSorted(ss: seq<Section>, name: string, ps: seq<Pair>)
    requires SortedSections(ss) && HasSection(ss, name)
    ensures SortedSections(SetPairs(ss, name, ps))
  {
    hide Less, Same;
  }

  /** Changing one section leaves every other one as it was. */
  lemma PairsOfSet(ss: seq<Section>, section: string, ps: seq<Pair>, name: string)
    requires SortedSections(ss) && HasSection(ss, section)
    ensures PairsOf(SetPairs(ss, section, ps), name) == if Same(section, name) then ps else PairsOf(ss, name)
  {
    hide Less, SortedSections, Same, PairsOf;
    var i := SectionIndex(ss, section);
    var rs := SetPairs(ss, section, ps);
    SetPairsSorted(ss, section, ps);
    SameIsSymmetric(ss[i].name, section, name);
    SameIsSymmetric(section, ss[i].name, name);
    if Same(section, name) {
      PairsOfAt(rs, i, name);
    } else if HasSection(ss, name) {
      var k := SectionIndex(ss, name);
      PairsOfAt(ss, k, name);
      PairsOfAt(rs, k, name);
    } else {
      SectionThere(ss, name);
      forall r | r in rs ensures !Same(r.name, name) {
        var k :| 0 <= k < |rs| && rs[k] == r;
        assert ss[k] in ss;
      }
      NoSection(rs, name);
      NoSection(ss, name);
    }
  }

  // ---------- the order of writing

  lemma HeadsFacts(t: Table)
    requires Valid(t)
    ensures DistinctNames(Heads(t.sections))
    ensures forall m :: m in Heads(t.sections) ==> m.order <= t.order
  {
    hide Less, SortedSections;
    var hs := Heads(t.sections);
    forall i, j | 0 <= i < j < |hs| ensures hs[i].order != hs[j].order {
      assert Apart(t.sections[i], t.sections[j]);
    }
    forall m | m in hs ensures m.order <= t.order {
      var i :| 0 <= i < |hs| && hs[i] == m;
      assert t.sections[i] in t.sections;
    }
  }

  lemma HeadsMembers(ss: seq<Section>)
    ensures forall m :: m in Heads(ss) <==> exists s :: s in ss && m == HeadOf(s)
  {
    forall s | s in ss ensures HeadOf(s) in Heads(ss) {
      var i :| 0 <= i < |ss| && ss[i] == s;
      assert Heads(ss)[i] == HeadOf(s);
    }
    forall m | m in Heads(ss) ensures exists s :: s in ss && m == HeadOf(s) {
      var i :| 0 <= i < |ss| && Heads(ss)[i] == m;
      assert ss[i] in ss && m == HeadOf(ss[i]);
    }
  }

  lemma NamelessFirstMembers(ns: seq<Name>)
    ensures forall m :: m in NamelessFirst(ns) <==> m in ns
    ensures |NamelessFirst(ns)| == |ns|
  {
    var k := NamelessIndex(ns);
    if k < |ns| { assert ns == ns[..k] + [ns[k]] + ns[k + 1..]; }
  }

  lemma WriteOrderMembers(ss: seq<Section>)
    ensures forall m :: m in WriteOrder(ss) <==> m in Heads(ss)
    ensures |WriteOrder(ss)| == |ss|
  {
    hide NamelessFirst, ByOrder;
    ByOrderIs(Heads(ss));
    NamelessFirstMembers(ByOrder(Heads(ss)));
  }

  lemma NamelessFirstAppend(ns: seq<Name>, n: Name)
    requires n.item != "" || ns == []
    ensures NamelessFirst(ns + [n]) == NamelessFirst(ns) + [n]
  {
    var k := NamelessIndex(ns);
    var k' := NamelessIndex(ns + [n]);
    if k < |ns| {
      NamelessIs(ns + [n], k);
      assert (ns + [n])[k + 1..] == ns[k + 1..] + [n] && (ns + [n])[..k] == ns[..k];
    } else if n.item != "" {
      NamelessIs(ns + [n], |ns| + 1);
    } else {
      assert k' == 0;
    }
  }

  /** A new section is written last. */
  lemma WriteOrderAppend(t: Table, name: string, comment: Option<string>)
    requires Valid(t) && !HasSection(t.sections, name) && (name != "" || t.sections == [])
    ensures WriteOrder(EnsureSection(t, name, comment).sections)
      == WriteOrder(t.sections) + [Name(name, comment, t.order + 1)]
  {
    hide Less, Same, Valid, NamelessFirst, HeadOf, InsertSection, HasSection, DistinctNames;
    var s := Section(name, comment, t.order + 1, []);
    var u := EnsureSection(t, name, comment);
    HeadsFacts(t);
    EnsureKeepsValid(t, name, comment);
    HeadsFacts(u);
    InsertSectionMembers(t.sections, s);
    HeadsMembers(t.sections);
    HeadsMembers(u.sections);
    assert HeadOf(s) == Name(name, comment, t.order + 1) by { HeadIs(s); }
    SortAppends(Heads(t.sections), Heads(u.sections), HeadOf(s));
    NamelessFirstAppend(ByOrder(Heads(t.sections)), HeadOf(s));
  }

  lemma HeadIs(s: Section)
    ensures HeadOf(s) == Name(s.name, s.comment, s.order)
  {
  }

  /** The names in writing order are the names of the table; none occurs twice. */
  lemma WriteOrderDiffers(t: Table, i: nat, j: nat)
    requires Valid(t) && i < j < |WriteOrder(t.sections)|
    ensures !Same(WriteOrder(t.sections)[i].item, WriteOrder(t.sections)[j].item)
  {
    hide Less, Same, SortedSections, NamelessFirst, SectionOk, Apart, DistinctNames;
    var ss := t.sections;
    var hs := Heads(ss);
    var ns := WriteOrder(ss);
    HeadsFacts(t);
    ByOrderIs(hs);
    WriteOrderMembers(ss);
    WriteOrderDistinct(hs);
    assert ns[i] in hs && ns[j] in hs;
    var a :| 0 <= a < |hs| && hs[a] == ns[i];
    var b :| 0 <= b < |hs| && hs[b] == ns[j];
    assert ns[i].order != ns[j].order;
    if Same(ss[a].name, ss[b].name) { SectionsDiffer(ss, a, b); }
  }

  lemma WriteOrderDistinct(hs: seq<Name>)
    requires DistinctNames(hs)
    ensures forall i, j :: 0 <= i < j < |NamelessFirst(ByOrder(hs))| ==>
      NamelessFirst(ByOrder(hs))[i].order != NamelessFirst(ByOrder(hs))[j].order
  {
    hide ByOrder, DistinctNames;
    ByOrderIs(hs);
    var ns := ByOrder(hs);
    var k := NamelessIndex(ns);
    assert forall i, j :: 0 <= i < j < |ns| ==> ns[i].order < ns[j].order;
  }

  // ---------- the document of a table after one addition

  lemma SectionListed(t: Table, name: string, multiKey: bool)
    ensures HasSection(t.sections, name) <==>
      exists i :: 0 <= i < |Sects(t, multiKey)| && Same(Sects(t, multiKey)[i].name, name)
  {
    hide Same, WriteOrder, Keys;
    var ns := WriteOrder(t.sections);
    WriteOrderMembers(t.sections);
    HeadsMembers(t.sections);
    SectionThere(t.sections, name);
    if HasSection(t.sections, name) {
      var s :| s in t.sections && Same(s.name, name);
      assert HeadOf(s) in ns;
      var i :| 0 <= i < |ns| && ns[i] == HeadOf(s);
      assert Sects(t, multiKey)[i].name == s.name;
    }
    forall i | 0 <= i < |ns| && Same(Sects(t, multiKey)[i].name, name)
      ensures HasSection(t.sections, name)
    {
      assert ns[i] in ns;
      var s :| s in t.sections && ns[i] == HeadOf(s);
      assert Same(s.name, name);
    }
  }

  lemma KeyListed(ps: seq<Pair>, key: string, multiKey: bool)
    ensures HasKey(ps, key) <==> exists i :: 0 <= i < |Keys(ps, multiKey)| && Same(Keys(ps, multiKey)[i].name, key)
  {
    hide Same, HasKey, ValuesOf;
    var ns := ByOrder(Firsts(ps));
    ByOrderIs(Firsts(ps));
    FirstsCover(ps, key);
    if HasKey(ps, key) {
      var m :| m in Firsts(ps) && Same(m.item, key);
      assert m in ns;
      var i :| 0 <= i < |ns| && ns[i] == m;
      assert Same(Keys(ps, multiKey)[i].name, key);
    }
    forall i | 0 <= i < |ns| && Same(Keys(ps, multiKey)[i].name, key) ensures HasKey(ps, key) {
      assert ns[i] in Firsts(ps) && Same(ns[i].item, key);
    }
  }

  lemma NoKeys(multiKey: bool)
    ensures Keys([], multiKey) == []
  {
  }

  /** A new section is listed last, empty. */
  lemma EnsureDoc(t: Table, name: string, comment: Option<string>, multiKey: bool)
    requires Valid(t) && !HasSection(t.sections, name) && (name != "" || t.sections == [])
    ensures Valid(EnsureSection(t, name, comment))
    ensures Sects(EnsureSection(t, name, comment), multiKey) == Sects(t, multiKey) + [Sect(name, comment, [])]
  {
    hide Less, Same, WriteOrder, Keys, PairsOf, SectionOk, SortedSections, AllApart, InsertSection, HasSection;
    var s := Section(name, comment, t.order + 1, []);
    var u := EnsureSection(t, name, comment);
    var ns := WriteOrder(t.sections);
    EnsureKeepsValid(t, name, comment);
    WriteOrderAppend(t, name, comment);
    SameIsSymmetric(name, name, name);
    PairsOfInsert(t.sections, s, name);
    NoKeys(multiKey);
    forall i | 0 <= i < |ns| ensures SectDoc(u.sections, ns[i], multiKey) == SectDoc(t.sections, ns[i], multiKey) {
      NameListed(t, i);
      if Same(name, ns[i].item) { HasSectionSame(t.sections, name, ns[i].item); }
      PairsOfInsert(t.sections, s, ns[i].item);
    }
  }

  lemma NameListed(t: Table, i: nat)
    requires i < |WriteOrder(t.sections)|
    ensures HasSection(t.sections, WriteOrder(t.sections)[i].item)
  {
    hide Same, WriteOrder;
    WriteOrderMembers(t.sections);
    HeadsMembers(t.sections);
    var n := WriteOrder(t.sections)[i];
    assert n in WriteOrder(t.sections);
    var s :| s in t.sections && n == HeadOf(s);
    SameIsSymmetric(s.name, s.name, s.name);
    SectionThere(t.sections, s.name);
  }

  lemma HasSectionSame(ss: seq<Section>, a: string, b: string)
    requires Same(a, b)
    ensures HasSection(ss, a) <==> HasSection(ss, b)
  {
    hide Same;
    SectionThere(ss, a);
    SectionThere(ss, b);
    forall s | s in ss ensures Same(s.name, a) <==> Same(s.name, b) {
      SameIsSymmetric(a, b, a);
      SameIsSymmetric(s.name, a, b);
      SameIsSymmetric(s.name, b, a);
    }
  }

  lemma SetPairsHeads(ss: seq<Section>, name: string, ps: seq<Pair>)
    requires HasSection(ss, name)
    ensures Heads(SetPairs(ss, name, ps)) == Heads(ss)
  {
    hide Same;
  }

  /** Putting a pair into the section listed last changes the keys of that section only. */
  lemma PutDoc(t: Table, section: string, ps: seq<Pair>, order: int, multiKey: bool)
    requires Valid(t) && HasSection(t.sections, section) && Sects(t, multiKey) != []
    requires Same(Sects(t, multiKey)[|Sects(t, multiKey)| - 1].name, section)
    ensures
      var ds := Sects(t, multiKey);
      var last := |ds| - 1;
      Sects(Table(SetPairs(t.sections, section, ps), order), multiKey)
        == ds[last := ds[last].(keys := Keys(ps, multiKey))]
  {
    hide Less, Same, Keys, PairsOf, SectionOk, AllApart, SortedSections, NamelessFirst, ByOrder, SetPairs, HasSection;
    var ns := WriteOrder(t.sections);
    var last := |ns| - 1;
    var rs := SetPairs(t.sections, section, ps);
    SetPairsHeads(t.sections, section, ps);
    assert Sects(t, multiKey)[last].name == ns[last].item;
    SameIsSymmetric(ns[last].item, section, section);
    forall i | 0 <= i < last ensures SectDoc(rs, ns[i], multiKey) == SectDoc(t.sections, ns[i], multiKey) {
      WriteOrderDiffers(t, i, last);
      SameIsSymmetric(ns[i].item, section, ns[last].item);
      SameIsSymmetric(section, ns[i].item, section);
      PairsOfSet(t.sections, section, ps, ns[i].item);
    }
    PairsOfSet(t.sections, section, ps, ns[last].item);
  }

  // ---------- building

  /** The table t is well formed and stands for the sections ds. */
  predicate Stands(t: Table, ds: seq<Sect>, multiKey: bool) { Valid(t) && Sects(t, multiKey) == ds }

  lemma {:induction false} AddAllAppend(t: Table, a: seq<Entry>, b: seq<Entry>, multiKey: bool)
    ensures AddAll(t, a + b, multiKey) == AddAll(AddAll(t, a, multiKey), b, multiKey)
    decreases |a|
  {
    hide Add;
    if a == [] {
      assert a + b == b;
    } else {
      AddAllAppend(Add(t, a[0], false, multiKey), a[1..], b, multiKey);
      assert (a + b)[1..] == a[1..] + b;
    }
  }

  /** What is known about the section listed last. */
  lemma LastSection(t: Table, ds: seq<Sect>, multiKey: bool)
    requires Stands(t, ds, multiKey) && ds != []
    ensures
      var s := ds[|ds| - 1];
      var ps := PairsOf(t.sections, s.name);
      && HasSection(t.sections, s.name) && s.keys == Keys(ps, multiKey)
      && SortedPairs(ps) && Distinct(ps) && (forall q :: q in ps ==> q.order < t.order + 1)
  {
    hide Less, Same, WriteOrder, Keys, SortedSections, AllApart, SortedPairs, Distinct;
    var last := |ds| - 1;
    var name := ds[last].name;
    assert ds[last] == SectDoc(t.sections, WriteOrder(t.sections)[last], multiKey);
    NameListed(t, last);
    var i := SectionIndex(t.sections, name);
    assert SectionOk(t.sections[i], t.order);
    forall q | q in t.sections[i].pairs ensures q.order <= t.order {
      assert q.order in OrderSet(t.sections[i].pairs);
    }
  }

  lemma AddIsPut(t: Table, section: string, key: string, v: Val, multiKey: bool)
    requires HasSection(t.sections, section)
    ensures Add(t, Entry(section, Some(key), Some(v.value), v.comment), false, multiKey)
      == PutPair(t, section, key, v.value, v.comment, false, multiKey)
  {
    hide PutPair, HasSection;
  }

  predicate IsNewKey(keys: seq<Key>, name: string) {
    forall i :: 0 <= i < |keys| ==> !Same(keys[i].name, name)
  }

  /** A key not listed yet becomes the last key of the last section. */
  lemma AddFirstVal(t: Table, ds: seq<Sect>, key: string, v: Val, multiKey: bool)
    requires Stands(t, ds, multiKey) && ds != []
    requires IsNewKey(ds[|ds| - 1].keys, key)
    ensures
      var s := ds[|ds| - 1];
      Stands(Add(t, Entry(s.name, Some(key), Some(v.value), v.comment), false, multiKey),
             ds[|ds| - 1 := s.(keys := s.keys + [Key(key, [v])])], multiKey)
  {
    hide Less, Same, Keys, Sects, Valid, SetPairs, PairsOf, HasKey, SortedPairs, Distinct, InsertPair, HasSection, Add;
    var s := ds[|ds| - 1];
    var ps := PairsOf(t.sections, s.name);
    var p := Pair(key, v.comment, t.order + 1, v.value);
    LastSection(t, ds, multiKey);
    KeyListed(ps, key, multiKey);
    KeysNew(ps, p, multiKey);
    SameIsSymmetric(s.name, s.name, s.name);
    PutDoc(t, s.name, InsertPair(ps, p), t.order + 1, multiKey);
    AddIsPut(t, s.name, key, v, multiKey);
    AddKeepsValid(t, Entry(s.name, Some(key), Some(v.value), v.comment), false, multiKey);
  }

  /** With multi-key on, a further value of the last key joins it. */
  lemma AddNextVal(t: Table, ds: seq<Sect>, key: string, v: Val)
    requires Stands(t, ds, true) && ds != [] && ds[|ds| - 1].keys != []
    requires ds[|ds| - 1].keys[|ds[|ds| - 1].keys| - 1].name == key
    ensures
      var s := ds[|ds| - 1];
      var n := |s.keys| - 1;
      Stands(Add(t, Entry(s.name, Some(key), Some(v.value), v.comment), false, true),
             ds[|ds| - 1 := s.(keys := s.keys[n := Key(key, s.keys[n].vals + [v])])], true)
  {
    hide Less, Same, Keys, Sects, Valid, SetPairs, PairsOf, HasKey, SortedPairs, Distinct, InsertPair, HasSection, Add;
    var s := ds[|ds| - 1];
    var ps := PairsOf(t.sections, s.name);
    var p := Pair(key, v.comment, t.order + 1, v.value);
    LastSection(t, ds, true);
    SameIsSymmetric(key, key, key);
    KeyListed(ps, key, true);
    KeysMore(ps, p);
    SameIsSymmetric(s.name, s.name, s.name);
    PutDoc(t, s.name, InsertPair(ps, p), t.order + 1, true);
    AddIsPut(t, s.name, key, v, true);
    AddKeepsValid(t, Entry(s.name, Some(key), Some(v.value), v.comment), false, true);
  }

  /** ds with more keys in its last section. */
  function WithKeys(ds: seq<Sect>, keys: seq<Key>): seq<Sect>
    requires ds != []
  {
    var s := ds[|ds| - 1];
    ds[|ds| - 1 := s.(keys := s.keys + keys)]
  }

  lemma {:induction false} BuildVals(t: Table, base: seq<Sect>, key: string, head: seq<Val>, vals: seq<Val>,
                                     multiKey: bool)
    requires base != [] && head != [] && (vals == [] || multiKey)
    requires Stands(t, WithKeys(base, [Key(key, head)]), multiKey)
    ensures Stands(AddAll(t, ValEntries(base[|base| - 1].name, key, vals), multiKey),
                   WithKeys(base, [Key(key, head + vals)]), multiKey)
    decreases |vals|
  {
    hide Stands, Add;
    if vals == [] {
      assert head + vals == head;
    } else {
      var ds := WithKeys(base, [Key(key, head)]);
      var name := base[|base| - 1].name;
      var v := vals[0];
      AddNextVal(t, ds, key, v);
      var s := ds[|ds| - 1];
      var n := |s.keys| - 1;
      assert s.keys[n := Key(key, head + [v])] == base[|base| - 1].keys + [Key(key, head + [v])];
      assert ds[|ds| - 1 := s.(keys := s.keys[n := Key(key, s.keys[n].vals + [v])])]
        == WithKeys(base, [Key(key, head + [v])]);
      BuildVals(Add(t, Entry(name, Some(key), Some(v.value), v.comment), false, true), base, key, head + [v], vals[1..],
                true);
      assert head + [v] + vals[1..] == head + vals;
    }
  }

  lemma BuildKey(t: Table, ds: seq<Sect>, k: Key, multiKey: bool)
    requires ds != [] && Stands(t, ds, multiKey) && k.vals != [] && (multiKey || |k.vals| == 1)
    requires IsNewKey(ds[|ds| - 1].keys, k.name)
    ensures Stands(AddAll(t, ValEntries(ds[|ds| - 1].name, k.name, k.vals), multiKey), WithKeys(ds, [k]), multiKey)
  {
    hide Stands, Add, Same;
    var name := ds[|ds| - 1].name;
    AddFirstVal(t, ds, k.name, k.vals[0], multiKey);
    var u := Add(t, Entry(name, Some(k.name), Some(k.vals[0].value), k.vals[0].comment), false, multiKey);
    BuildVals(u, ds, k.name, [k.vals[0]], k.vals[1..], multiKey);
    assert [k.vals[0]] + k.vals[1..] == k.vals;
  }

  lemma {:induction false} BuildKeys(t: Table, ds: seq<Sect>, keys: seq<Key>, multiKey: bool)
    requires ds != [] && Stands(t, ds, multiKey)
    requires KeysCanonical(ds[|ds| - 1].keys + keys, multiKey)
    ensures Stands(AddAll(t, KeyEntries(ds[|ds| - 1].name, keys), multiKey), WithKeys(ds, keys), multiKey)
    decreases |keys|
  {
    hide Stands, Add, Same, ValEntries;
    var s := ds[|ds| - 1];
    if keys == [] {
      assert s.keys + keys == s.keys;
      assert WithKeys(ds, keys) == ds;
    } else {
      var k := keys[0];
      var es := ValEntries(s.name, k.name, k.vals);
      var all := s.keys + keys;
      assert all[|s.keys|] == k;
      BuildKey(t, ds, k, multiKey) by {
        forall i | 0 <= i < |s.keys| ensures !Same(s.keys[i].name, k.name) { assert all[i] == s.keys[i]; }
      }
      var ds1 := WithKeys(ds, [k]);
      assert ds1[|ds1| - 1].keys + keys[1..] == all;
      BuildKeys(AddAll(t, es, multiKey), ds1, keys[1..], multiKey);
      AddAllAppend(t, es, KeyEntries(s.name, keys[1..]), multiKey);
      assert WithKeys(ds1, keys[1..]) == WithKeys(ds, keys);
    }
  }

  /** The first key entry of a section that does not exist yet creates it. */
  lemma AddCreatesSection(t: Table, es: seq<Entry>, multiKey: bool)
    requires es != [] && es[0].key.Some?
    ensures AddAll(t, es, multiKey) == AddAll(EnsureSection(t, es[0].section, None), es, multiKey)
  {
    hide HasSection, InsertSection, PutPair;
    EnsureHas(t, es[0].section, None);
  }

  lemma FirstKeyEntry(name: string, keys: seq<Key>)
    requires keys != [] && keys[0].vals != []
    ensures var es := KeyEntries(name, keys); es != [] && es[0].key.Some? && es[0].section == name
  {
  }

  lemma BuildSection(t: Table, ds: seq<Sect>, s: Sect, multiKey: bool)
    requires Stands(t, ds, multiKey) && KeysCanonical(s.keys, multiKey)
    requires forall i :: 0 <= i < |ds| ==> !Same(ds[i].name, s.name)
    requires s.name == "" ==> t.sections == [] && s.comment.None? && s.keys != []
    ensures Stands(AddAll(t, HeaderEntries(s) + KeyEntries(s.name, s.keys), multiKey), ds + [s], multiKey)
  {
    hide Same, HasSection, Sects, Valid, KeyEntries, EnsureSection, PutPair;
    var es := KeyEntries(s.name, s.keys);
    var ds1 := ds + [Sect(s.name, s.comment, [])];
    var u := EnsureSection(t, s.name, s.comment);
    SectionListed(t, s.name, multiKey);
    EnsureDoc(t, s.name, s.comment, multiKey);
    assert [] + s.keys == s.keys;
    BuildKeys(u, ds1, s.keys, multiKey);
    assert WithKeys(ds1, s.keys) == ds + [s];
    if s.name == "" {
      FirstKeyEntry(s.name, s.keys);
      AddCreatesSection(t, es, multiKey);
      assert HeaderEntries(s) + es == es;
    } else {
      var h := Entry(s.name, None, None, s.comment);
      assert Add(t, h, false, multiKey) == u;
      AddAllAppend(t, [h], es, multiKey);
      assert AddAll(t, [h], multiKey) == u;
    }
  }

  lemma {:induction false} BuildSections(t: Table, ds: seq<Sect>, more: seq<Sect>, multiKey: bool)
    requires Stands(t, ds, multiKey) && Canonical(ds + more, multiKey) && WellShaped(ds + more)
    requires forall s :: s in more && s.name == "" ==> s.comment.None?
    ensures Stands(AddAll(t, SectionEntries(more), multiKey), ds + more, multiKey)
    decreases |more|
  {
    hide Stands, Add, Same, KeyEntries, HeaderEntries, KeysCanonical;
    if more == [] {
      assert ds + more == ds;
    } else {
      var s := more[0];
      var es := HeaderEntries(s) + KeyEntries(s.name, s.keys);
      var all := ds + more;
      assert all[|ds|] == s;
      forall i | 0 <= i < |ds| ensures !Same(ds[i].name, s.name) { assert all[i] == ds[i]; }
      if s.name == "" { NothingYet(t, ds, multiKey); }
      BuildSection(t, ds, s, multiKey);
      assert ds + [s] + more[1..] == all;
      BuildSections(AddAll(t, es, multiKey), ds + [s], more[1..], multiKey);
      AddAllAppend(t, es, SectionEntries(more[1..]), multiKey);
    }
  }

  lemma NothingYet(t: Table, ds: seq<Sect>, multiKey: bool)
    requires Stands(t, ds, multiKey) && ds == []
    ensures t.sections == []
  {
    WriteOrderMembers(t.sections);
  }

  /** Loading the entries of a listing into an empty table gives a table with that listing. */
  lemma BuildDocument(ds: seq<Sect>, multiKey: bool)
    requires Canonical(ds, multiKey) && WellShaped(ds)
    requires forall s :: s in ds && s.name == "" ==> s.comment.None?
    ensures Stands(AddAll(EMPTY, SectionEntries(ds), multiKey), ds, multiKey)
  {
    hide Canonical, WellShaped, SectionEntries;
    assert Stands(EMPTY, [], multiKey);
    assert [] + ds == ds;
    BuildSections(EMPTY, [], ds, multiKey);
  }
}
