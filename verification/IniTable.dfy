/**
 * The INI table as a value: sections sorted by name, each with its pairs sorted by key,
 * names compared without case, and a load order on every section and pair.
 */
module IniTable {
  import opened Basics
  import opened IniOrder
  import opened IniGrammar

  /** A key with one of its values; the pairs of a section form a multimap. */
  datatype Pair = Pair(key: string, comment: Option<string>, order: int, value: string)

  datatype Section = Section(name: string, comment: Option<string>, order: int, pairs: seq<Pair>)

  datatype Table = Table(sections: seq<Section>, order: int)

  /** What the queries hand out: a name or value with its comment and load order. */
  datatype Name = Name(item: string, comment: Option<string>, order: int)

  predicate Same(a: string, b: string) { Fold(a) == Fold(b) }

  // ---------- the two sorted containers

  predicate SortedPairs(ps: seq<Pair>) {
    forall i, j :: 0 <= i < j < |ps| ==> !Less(ps[j].key, ps[i].key)
  }

  predicate SortedSections(ss: seq<Section>) {
    forall i, j :: 0 <= i < j < |ss| ==> Less(ss[i].name, ss[j].name)
  }

  /** The first position behind every pair whose key is not greater: where a multimap inserts. */
  function Upper(ps: seq<Pair>, key: string): (n: nat)
    ensures n <= |ps|
    ensures forall i :: 0 <= i < n ==> !Less(key, ps[i].key)
    ensures n < |ps| ==> Less(key, ps[n].key)
  {
    if ps == [] || Less(key, ps[0].key) then 0 else 1 + Upper(ps[1..], key)
  }

  function InsertPair(ps: seq<Pair>, p: Pair): seq<Pair> {
    var n := Upper(ps, p.key);
    ps[..n] + [p] + ps[n..]
  }

  /** The section with this name, or the number of sections. */
  function SectionIndex(ss: seq<Section>, name: string): (n: nat)
    ensures n <= |ss|
    ensures forall i :: 0 <= i < n ==> !Same(ss[i].name, name)
    ensures n < |ss| ==> Same(ss[n].name, name)
  {
    if ss == [] || Same(ss[0].name, name) then 0 else 1 + SectionIndex(ss[1..], name)
  }

  predicate HasSection(ss: seq<Section>, name: string) { SectionIndex(ss, name) < |ss| }

  /** Where a map inserts a section that it does not hold. */
  function Lower(ss: seq<Section>, name: string): (n: nat)
    ensures n <= |ss|
    ensures forall i :: 0 <= i < n ==> Less(ss[i].name, name)
    ensures n < |ss| ==> !Less(ss[n].name, name)
  {
    if ss == [] || !Less(ss[0].name, name) then 0 else 1 + Lower(ss[1..], name)
  }

  function InsertSection(ss: seq<Section>, s: Section): seq<Section> {
    var n := Lower(ss, s.name);
    ss[..n] + [s] + ss[n..]
  }

  /** The pairs of a section; none if there is no such section. */
  function PairsOf(ss: seq<Section>, name: string): seq<Pair> {
    var i := SectionIndex(ss, name);
    if i < |ss| then ss[i].pairs else []
  }

  // ---------- the pairs of one key

  predicate HasKey(ps: seq<Pair>, key: string) { exists i :: 0 <= i < |ps| && Same(ps[i].key, key) }

  /** All pairs of a key, in the order in which the multimap holds them. */
  function Matches(ps: seq<Pair>, key: string): seq<Pair> {
    if ps == [] then []
    else (if Same(ps[0].key, key) then [ps[0]] else []) + Matches(ps[1..], key)
  }

  /** All pairs but those of a key, or but those of a key with a given value. */
  function Without(ps: seq<Pair>, key: string, value: Option<string>): seq<Pair> {
    if ps == [] then []
    else (if Removes(ps[0], key, value) then [] else [ps[0]]) + Without(ps[1..], key, value)
  }

  predicate Removes(p: Pair, key: string, value: Option<string>) {
    Same(p.key, key) && (value.Some? ==> Same(p.value, value.value))
  }

  /** The first position of a key, or the number of pairs. */
  function KeyIndex(ps: seq<Pair>, key: string): (n: nat)
    ensures n <= |ps|
    ensures forall i :: 0 <= i < n ==> !Same(ps[i].key, key)
    ensures n < |ps| ==> Same(ps[n].key, key)
  {
    if ps == [] || Same(ps[0].key, key) then 0 else 1 + KeyIndex(ps[1..], key)
  }

  /** The pair with the smallest load order among those given. */
  function Oldest(ps: seq<Pair>): (p: Pair)
    requires ps != []
    ensures p in ps
    ensures forall q :: q in ps ==> p.order <= q.order
  {
    if |ps| == 1 then ps[0]
    else
      var p := Oldest(ps[1..]);
      if ps[0].order <= p.order then ps[0] else p
  }

  // ---------- adding an entry

  function EnsureSection(t: Table, name: string, comment: Option<string>): Table {
    if HasSection(t.sections, name) then t
    else Table(InsertSection(t.sections, Section(name, comment, t.order + 1, [])), t.order + 1)
  }

  /** The pairs of a section after a key is assigned; order is the new load order. */
  function Assign(ps: seq<Pair>, key: string, value: string, comment: Option<string>, order: int, force: bool,
                  multiKey: bool): seq<Pair> {
    if HasKey(ps, key) && !multiKey then
      var i := KeyIndex(ps, key);
      ps[i := ps[i].(value := value)]
    else if HasKey(ps, key) && force then
      var first := Oldest(Matches(ps, key) + [Pair(key, comment, order, value)]);
      InsertPair(Without(ps, key, None),
                 Pair(key, if first.comment.Some? then first.comment else comment, first.order, value))
    else InsertPair(ps, Pair(key, comment, order, value))
  }

  function SetPairs(ss: seq<Section>, name: string, ps: seq<Pair>): seq<Section>
    requires HasSection(ss, name)
  {
    var i := SectionIndex(ss, name);
    ss[i := ss[i].(pairs := ps)]
  }

  lemma InsertedIsThere(ss: seq<Section>, s: Section)
    ensures HasSection(InsertSection(ss, s), s.name)
  {
    var n := Lower(ss, s.name);
    assert InsertSection(ss, s)[n] == s;
  }

  /** A key with its value put into a section that exists. */
  function PutPair(t: Table, section: string, key: string, value: string, comment: Option<string>, force: bool,
                   multiKey: bool): Table
    requires HasSection(t.sections, section)
  {
    var ps := Assign(PairsOf(t.sections, section), key, value, comment, t.order + 1, force, multiKey);
    Table(SetPairs(t.sections, section, ps), t.order + 1)
  }

  lemma EnsureHas(t: Table, name: string, comment: Option<string>)
    ensures HasSection(EnsureSection(t, name, comment).sections, name)
  {
    hide Less, Fold, InsertSection;
    InsertedIsThere(t.sections, Section(name, comment, t.order + 1, []));
  }

  /** AddEntry: a section alone (key is None) or a key with its value. */
  function Add(t: Table, e: Entry, force: bool, multiKey: bool): Table {
    EnsureHas(t, e.section, if e.key.None? then e.comment else None);
    var u := EnsureSection(t, e.section, if e.key.None? then e.comment else None);
    if e.key.None? then u
    else PutPair(u, e.section, e.key.value, if e.value.None? then "" else e.value.value, e.comment, force, multiKey)
  }

  /** Every entry in order, as the loader adds them. */
  function AddAll(t: Table, es: seq<Entry>, multiKey: bool): Table
    decreases |es|
  {
    if es == [] then t else AddAll(Add(t, es[0], false, multiKey), es[1..], multiKey)
  }

  const EMPTY := Table([], 0)

  // ---------- deleting

  function RemoveSection(ss: seq<Section>, name: string): seq<Section>
    requires HasSection(ss, name)
  {
    var i := SectionIndex(ss, name);
    ss[..i] + ss[i + 1..]
  }

  /** DeleteValue: a section (key is None), the pairs of a key, or those of its pairs that have a value;
      the flag says whether anything was deleted. */
  function Delete(t: Table, section: string, key: Option<string>, value: Option<string>, removeEmpty: bool): (Table,
                                                                                                              bool) {
    if !HasSection(t.sections, section) then (t, false)
    else if key.None? then (Table(RemoveSection(t.sections, section), t.order), true)
    else
      var ps := PairsOf(t.sections, section);
      var qs := Without(ps, key.value, value);
      if |qs| == |ps| then (t, false)
      else if removeEmpty && qs == [] then (Table(RemoveSection(t.sections, section), t.order), true)
      else (Table(SetPairs(t.sections, section, qs), t.order), true)
  }

  // ---------- the representation invariant

  predicate Distinct(ps: seq<Pair>) { forall i, j :: 0 <= i < j < |ps| ==> ps[i].order != ps[j].order }

  function OrderSet(ps: seq<Pair>): set<int> { set p | p in ps :: p.order }

  /** A section is sorted, and its load orders are distinct and not above the counter. */
  predicate SectionOk(s: Section, top: int) {
    && SortedPairs(s.pairs) && Distinct(s.pairs)
    && s.order <= top && s.order !in OrderSet(s.pairs)
    && forall n :: n in OrderSet(s.pairs) ==> n <= top
  }

  /** Two sections share no load order. */
  predicate Apart(s: Section, r: Section) {
    && s.order != r.order
    && s.order !in OrderSet(r.pairs) && r.order !in OrderSet(s.pairs)
    && OrderSet(s.pairs) !! OrderSet(r.pairs)
  }

  predicate AllApart(ss: seq<Section>) {
    forall i, j :: 0 <= i < j < |ss| ==> Apart(ss[i], ss[j])
  }

  /** Both containers are sorted; live load orders are pairwise distinct and none exceeds the counter. */
  predicate Valid(t: Table) {
    && SortedSections(t.sections)
    && (forall s :: s in t.sections ==> SectionOk(s, t.order))
    && AllApart(t.sections)
  }

  // ---------- the multimap of one section

  /** If a < b and not c < b then a < c. */
  lemma LessThroughEquiv(a: string, b: string, c: string)
    requires Less(a, b) && !Less(c, b)
    ensures Less(a, c)
  {
    hide Less;
    EquivIsFoldEquality(b, c);
    if Less(b, c) { LessTransitive(a, b, c); }
    else { LessOnFolds(a, b, a, c); }
  }

  lemma BehindUpper(ps: seq<Pair>, key: string, j: nat)
    requires SortedPairs(ps) && Upper(ps, key) <= j < |ps|
    ensures Less(key, ps[j].key) && !Same(ps[j].key, key)
  {
    hide Less;
    if !Less(key, ps[j].key) {
      LessThroughEquiv(key, ps[Upper(ps, key)].key, ps[j].key);
    }
    EquivIsFoldEquality(ps[j].key, key);
  }

  /** A multimap stays sorted when a pair is inserted behind its equals. */
  lemma InsertPairSorted(ps: seq<Pair>, p: Pair)
    requires SortedPairs(ps)
    ensures SortedPairs(InsertPair(ps, p))
  {
    hide Less;
    var n := Upper(ps, p.key);
    var qs := InsertPair(ps, p);
    forall i, j | 0 <= i < j < |qs| ensures !Less(qs[j].key, qs[i].key) {
      if i == n {
        BehindUpper(ps, p.key, j - 1);
        LessAsymmetric(p.key, ps[j - 1].key);
      }
    }
  }

  lemma OrdersOfMore(ps: seq<Pair>, qs: seq<Pair>, p: Pair)
    requires forall q :: q in qs <==> q in ps || q == p
    ensures OrderSet(qs) == OrderSet(ps) + {p.order}
  {
    forall n | n in OrderSet(ps) + {p.order} ensures n in OrderSet(qs) {
      if n == p.order { assert p in qs; }
      else {
        var q :| q in ps && q.order == n;
        assert q in qs;
      }
    }
  }

  lemma DistinctWith(ps: seq<Pair>, n: nat, p: Pair)
    requires n <= |ps| && Distinct(ps) && p.order !in OrderSet(ps)
    ensures Distinct(ps[..n] + [p] + ps[n..])
  {
    var qs := ps[..n] + [p] + ps[n..];
    forall i | 0 <= i < |ps| ensures ps[i].order != p.order { assert ps[i].order in OrderSet(ps); }
    forall i, j | 0 <= i < j < |qs| ensures qs[i].order != qs[j].order {
      assert i != n ==> qs[i] == ps[if i < n then i else i - 1];
      assert j != n ==> qs[j] == ps[if j < n then j else j - 1];
    }
  }

  lemma InsertPairOrders(ps: seq<Pair>, p: Pair)
    ensures forall q :: q in InsertPair(ps, p) <==> q in ps || q == p
    ensures OrderSet(InsertPair(ps, p)) == OrderSet(ps) + {p.order}
    ensures Distinct(ps) && p.order !in OrderSet(ps) ==> Distinct(InsertPair(ps, p))
  {
    hide Less, Distinct, OrderSet;
    var n := Upper(ps, p.key);
    var qs := InsertPair(ps, p);
    assert ps == ps[..n] + ps[n..];
    assert forall q :: q in qs <==> q in ps || q == p;
    OrdersOfMore(ps, qs, p);
    if Distinct(ps) && p.order !in OrderSet(ps) { DistinctWith(ps, n, p); }
  }

  /** Removing a key, or a value of a key, takes away nothing else. */
  lemma {:induction false} WithoutMembers(ps: seq<Pair>, key: string, value: Option<string>)
    ensures forall p :: p in Without(ps, key, value) <==> p in ps && !Removes(p, key, value)
  {
    hide Removes;
    if ps != [] { WithoutMembers(ps[1..], key, value); }
  }

  lemma {:induction false} WithoutSorted(ps: seq<Pair>, key: string, value: Option<string>)
    requires SortedPairs(ps)
    ensures SortedPairs(Without(ps, key, value))
  {
    hide Removes, Less;
    if ps != [] {
      var rest := Without(ps[1..], key, value);
      WithoutSorted(ps[1..], key, value);
      WithoutMembers(ps[1..], key, value);
      forall p | p in rest ensures !Less(p.key, ps[0].key) { assert p in ps[1..]; }
      assert SortedPairs([ps[0]] + rest);
    }
  }

  lemma {:induction false} WithoutDistinct(ps: seq<Pair>, key: string, value: Option<string>)
    requires Distinct(ps)
    ensures Distinct(Without(ps, key, value))
  {
    hide Removes;
    if ps != [] {
      var rest := Without(ps[1..], key, value);
      WithoutDistinct(ps[1..], key, value);
      WithoutMembers(ps[1..], key, value);
      forall p | p in rest ensures p.order != ps[0].order { assert p in ps[1..]; }
      assert Distinct([ps[0]] + rest);
    }
  }

  lemma MatchesAre(ps: seq<Pair>, key: string)
    ensures forall p :: p in Matches(ps, key) <==> p in ps && Same(p.key, key)
    ensures HasKey(ps, key) <==> Matches(ps, key) != []
  {
    hide Same;
    if ps != [] {
      MatchesAre(ps[1..], key);
      assert forall i :: 0 <= i < |ps[1..]| ==> ps[1..][i] == ps[i + 1];
      if HasKey(ps, key) && !Same(ps[0].key, key) {
        var i :| 0 <= i < |ps| && Same(ps[i].key, key);
        assert Same(ps[1..][i - 1].key, key);
      }
    }
  }

  lemma ReplaceValueOk(ps: seq<Pair>, i: nat, value: string)
    requires SortedPairs(ps) && Distinct(ps) && i < |ps|
    ensures var qs := ps[i := ps[i].(value := value)];
      SortedPairs(qs) && Distinct(qs) && OrderSet(qs) <= OrderSet(ps)
  {
    hide Less;
    var qs := ps[i := ps[i].(value := value)];
    forall n | n in OrderSet(qs) ensures n in OrderSet(ps) {
      var j :| 0 <= j < |qs| && qs[j].order == n;
      assert ps[j] in ps && ps[j].order == n;
    }
  }

  /** Collapsing a key: all its pairs go, one with the load order of one of them comes. */
  lemma CollapseOk(ps: seq<Pair>, key: string, p: Pair, order: int)
    requires SortedPairs(ps) && Distinct(ps) && (forall n :: n in OrderSet(ps) ==> n < order)
    requires p.order == order || exists q :: q in ps && Same(q.key, key) && q.order == p.order
    ensures var qs := InsertPair(Without(ps, key, None), p);
      SortedPairs(qs) && Distinct(qs) && OrderSet(qs) <= OrderSet(ps) + {order}
  {
    hide Less, InsertPair, Without, Same, SortedPairs, Distinct;
    var kept := Without(ps, key, None);
    WithoutMembers(ps, key, None);
    WithoutSorted(ps, key, None);
    WithoutDistinct(ps, key, None);
    InsertPairSorted(kept, p);
    InsertPairOrders(kept, p);
    forall q | q in kept ensures q.order != p.order && q.order in OrderSet(ps) {
      assert q in ps && q.order in OrderSet(ps) && !Same(q.key, key);
      if p.order != order {
        var r :| r in ps && Same(r.key, key) && r.order == p.order;
        if q.order == p.order { SameOrderSamePair(ps, q, r); }
      }
    }
  }

  /** Assigning a key keeps the multimap sorted and its load orders distinct. */
  lemma AssignOk(ps: seq<Pair>, key: string, value: string, comment: Option<string>, order: int, force: bool,
                 multiKey: bool)
    requires SortedPairs(ps) && Distinct(ps) && (forall n :: n in OrderSet(ps) ==> n < order)
    ensures var qs := Assign(ps, key, value, comment, order, force, multiKey);
      SortedPairs(qs) && Distinct(qs) && OrderSet(qs) <= OrderSet(ps) + {order}
  {
    hide Less, Fold, InsertPair, Matches, Without, SortedPairs, Distinct, HasKey;
    if HasKey(ps, key) && !multiKey {
      KeyIndexFinds(ps, key);
      ReplaceValueOk(ps, KeyIndex(ps, key), value);
    } else if HasKey(ps, key) && force {
      MatchesAre(ps, key);
      var first := Oldest(Matches(ps, key) + [Pair(key, comment, order, value)]);
      CollapseOk(ps, key, Pair(key, if first.comment.Some? then first.comment else comment, first.order, value), order);
    } else {
      InsertPairSorted(ps, Pair(key, comment, order, value));
      InsertPairOrders(ps, Pair(key, comment, order, value));
    }
  }

  lemma KeyIndexFinds(ps: seq<Pair>, key: string)
    ensures HasKey(ps, key) <==> KeyIndex(ps, key) < |ps|
  {
    hide Fold;
  }

  lemma SameOrderSamePair(ps: seq<Pair>, p: Pair, q: Pair)
    requires Distinct(ps) && p in ps && q in ps && p.order == q.order
    ensures p == q
  {
  }

  // ---------- the map of sections

  lemma SectionsDiffer(ss: seq<Section>, i: nat, j: nat)
    requires SortedSections(ss) && i < |ss| && j < |ss| && Same(ss[i].name, ss[j].name)
    ensures i == j
  {
    hide Less, Fold;
    if i < j { EquivIsFoldEquality(ss[i].name, ss[j].name); }
    if j < i { EquivIsFoldEquality(ss[i].name, ss[j].name); }
  }

  /** A section whose name is not there yet goes to its place. */
  lemma InsertSectionSorted(ss: seq<Section>, s: Section)
    requires SortedSections(ss) && !HasSection(ss, s.name)
    ensures SortedSections(InsertSection(ss, s))
  {
    hide Less, Fold;
    var n := Lower(ss, s.name);
    var rs := InsertSection(ss, s);
    forall i, j | 0 <= i < j < |rs| ensures Less(rs[i].name, rs[j].name) {
      if i == n {
        var r := ss[j - 1];
        LessTotal(ss[n].name, s.name);
        if j - 1 > n { LessTransitive(s.name, ss[n].name, r.name); }
      }
    }
  }

  /** The invariant is kept by every addition. */
  lemma AddKeepsValid(t: Table, e: Entry, force: bool, multiKey: bool)
    requires Valid(t)
    ensures Valid(Add(t, e, force, multiKey))
  {
    hide Less, Fold, Assign, SortedSections, InsertSection;
    var c := if e.key.None? then e.comment else None;
    var u := EnsureSection(t, e.section, c);
    EnsureKeepsValid(t, e.section, c);
    if e.key.Some? {
      var i := SectionIndex(u.sections, e.section);
      EnsureHas(t, e.section, c);
      var value := if e.value.None? then "" else e.value.value;
      var ps := u.sections[i].pairs;
      assert SectionOk(u.sections[i], u.order);
      AssignOk(ps, e.key.value, value, e.comment, u.order + 1, force, multiKey);
      var qs := Assign(ps, e.key.value, value, e.comment, u.order + 1, force, multiKey);
      SetPairsKeepsValid(u, i, qs);
    }
  }

  lemma EmptySectionOk(s: Section)
    requires s.pairs == []
    ensures SectionOk(s, s.order)
  {
  }

  lemma OkAbove(s: Section, top: int)
    requires SectionOk(s, top)
    ensures SectionOk(s, top + 1)
  {
    hide SortedPairs, Distinct;
  }

  /** A new section without pairs shares no load order with one that is there. */
  lemma NewIsApart(s: Section, r: Section, top: int)
    requires s.pairs == [] && s.order == top + 1 && SectionOk(r, top)
    ensures Apart(s, r) && Apart(r, s)
  {
    hide SortedPairs, Distinct;
  }

  lemma EnsureKeepsValid(t: Table, name: string, comment: Option<string>)
    requires Valid(t)
    ensures Valid(EnsureSection(t, name, comment))
  {
    hide Less, Fold, SortedSections, SectionOk, Apart;
    if !HasSection(t.sections, name) {
      var s := Section(name, comment, t.order + 1, []);
      InsertSectionSorted(t.sections, s);
      var n := Lower(t.sections, name);
      var rs := InsertSection(t.sections, s);
      forall r | r in rs ensures SectionOk(r, t.order + 1) {
        if r == s { EmptySectionOk(s); }
        else { assert r in t.sections; OkAbove(r, t.order); }
      }
      forall i, j | 0 <= i < j < |rs| ensures Apart(rs[i], rs[j]) {
        if i == n { assert rs[j] == t.sections[j - 1]; NewIsApart(s, rs[j], t.order); }
        else if j == n { assert rs[i] == t.sections[i]; NewIsApart(s, rs[i], t.order); }
        else {
          assert rs[i] == t.sections[if i < n then i else i - 1] && rs[j] == t.sections[if j < n then j else j - 1];
        }
      }
    }
  }

  lemma SetPairsKeepsValid(t: Table, i: nat, qs: seq<Pair>)
    requires Valid(t) && i < |t.sections|
    requires SortedPairs(qs) && Distinct(qs) && OrderSet(qs) <= OrderSet(t.sections[i].pairs) + {t.order + 1}
    ensures Valid(Table(t.sections[i := t.sections[i].(pairs := qs)], t.order + 1))
  {
    hide Less, Fold, SortedPairs, Distinct;
    var ss := t.sections;
    var rs := ss[i := ss[i].(pairs := qs)];
    assert SectionOk(ss[i], t.order);
    forall r | r in rs ensures SectionOk(r, t.order + 1) {
      if r != rs[i] { assert r in ss; }
    }
    forall a, b | 0 <= a < b < |rs| ensures Apart(rs[a], rs[b]) {
      assert Apart(ss[a], ss[b]);
      assert SectionOk(ss[a], t.order) && SectionOk(ss[b], t.order);
    }
  }

  lemma WithoutShorter(ps: seq<Pair>, key: string, value: Option<string>)
    ensures |Without(ps, key, value)| <= |ps|
    ensures !HasKey(ps, key) ==> Without(ps, key, value) == ps
  {
    hide Fold;
    if ps != [] {
      WithoutShorter(ps[1..], key, value);
      if !HasKey(ps, key) {
        assert !Same(ps[0].key, key);
        forall i | 0 <= i < |ps[1..]| ensures !Same(ps[1..][i].key, key) { assert ps[1..][i] == ps[i + 1]; }
      }
    }
  }

  lemma RemoveKeepsValid(t: Table, name: string)
    requires Valid(t) && HasSection(t.sections, name)
    ensures Valid(Table(RemoveSection(t.sections, name), t.order))
  {
    hide Less, Fold, SortedPairs, Distinct, Apart;
    var i := SectionIndex(t.sections, name);
    var rs := RemoveSection(t.sections, name);
    assert forall a :: 0 <= a < |rs| ==> rs[a] == t.sections[if a < i then a else a + 1];
  }

  /** The invariant is kept by every deletion. */
  lemma DeleteKeepsValid(t: Table, section: string, key: Option<string>, value: Option<string>, removeEmpty: bool)
    requires Valid(t)
    ensures Valid(Delete(t, section, key, value, removeEmpty).0)
  {
    hide Less, Fold, Same, SortedSections, SortedPairs, Distinct, AllApart, Without, RemoveSection;
    if HasSection(t.sections, section) {
      RemoveKeepsValid(t, section);
      var i := SectionIndex(t.sections, section);
      if key.Some? {
        var ps := t.sections[i].pairs;
        assert SectionOk(t.sections[i], t.order);
        WithoutSorted(ps, key.value, value);
        WithoutDistinct(ps, key.value, value);
        WithoutMembers(ps, key.value, value);
        ShrinkKeepsValid(t, i, Without(ps, key.value, value));
      }
    }
  }

  lemma ShrinkKeepsValid(t: Table, i: nat, qs: seq<Pair>)
    requires Valid(t) && i < |t.sections|
    requires SortedPairs(qs) && Distinct(qs) && OrderSet(qs) <= OrderSet(t.sections[i].pairs)
    ensures Valid(Table(t.sections[i := t.sections[i].(pairs := qs)], t.order))
  {
    hide Less, Fold, SortedPairs, Distinct;
    var ss := t.sections;
    var rs := ss[i := ss[i].(pairs := qs)];
    assert SectionOk(ss[i], t.order);
    forall r | r in rs ensures SectionOk(r, t.order) {
      if r != rs[i] { assert r in ss; }
    }
    forall a, b | 0 <= a < b < |rs| ensures Apart(rs[a], rs[b]) { assert Apart(ss[a], ss[b]); }
  }
}
