/** What scanning a sorted container with the comparator finds. */
module IniSearch {
  import opened Basics
  import opened IniOrder
  import opened IniTable
  import opened IniView
  import opened IniBuild

  lemma SameIsEquiv(a: string, b: string)
    ensures Same(a, b) <==> !Less(a, b) && !Less(b, a)
  {
    hide Less, Fold;
    EquivIsFoldEquality(a, b);
  }

  /** In a sorted multimap, everything behind a greater key is greater. */
  lemma GreaterBehind(ps: seq<Pair>, key: string, i: nat, j: nat)
    requires SortedPairs(ps) && i <= j < |ps| && Less(key, ps[i].key)
    ensures Less(key, ps[j].key) && !Same(ps[j].key, key)
  {
    hide Less, Fold;
    if i < j { LessThroughEquiv(key, ps[i].key, ps[j].key); }
    SameIsEquiv(ps[j].key, key);
  }

  /** Behind a pair of a key, what is not greater is of that key. */
  lemma NotGreaterIsSame(ps: seq<Pair>, key: string, i: nat, j: nat)
    requires SortedPairs(ps) && i <= j < |ps| && Same(ps[i].key, key) && !Less(key, ps[j].key)
    ensures Same(ps[j].key, key)
  {
    hide Less, Fold;
    SameIsEquiv(ps[j].key, key);
    if Less(ps[j].key, key) {
      LessOnFolds(ps[j].key, key, ps[j].key, ps[i].key);
    }
  }

  lemma KeyIndexIs(ps: seq<Pair>, key: string, i: nat)
    requires i <= |ps| && (forall j :: 0 <= j < i ==> !Same(ps[j].key, key)) && (i < |ps| ==> Same(ps[i].key, key))
    ensures KeyIndex(ps, key) == i
  {
    hide Fold;
  }

  lemma SectionIndexIs(ss: seq<Section>, name: string, i: nat)
    requires i <= |ss| && (forall j :: 0 <= j < i ==> !Same(ss[j].name, name)) && (i < |ss| ==> Same(ss[i].name, name))
    ensures SectionIndex(ss, name) == i
  {
    hide Fold;
  }

  /** multimap::find: the first pair of the key, or the end. */
  method FindKey(ps: seq<Pair>, key: string) returns (i: nat)
    requires SortedPairs(ps)
    ensures i == KeyIndex(ps, key)
  {
    hide Less, Fold, Same, SortedPairs;
    i := 0;
    while i < |ps|
      invariant i <= |ps| && forall j :: 0 <= j < i ==> !Same(ps[j].key, key)
    {
      SameIsEquiv(ps[i].key, key);
      var less := IsLess(ps[i].key, key);
      if !less {
        var greater := IsLess(key, ps[i].key);
        if !greater {
          KeyIndexIs(ps, key, i);
          return;
        }
        forall j | i <= j < |ps| ensures !Same(ps[j].key, key) { GreaterBehind(ps, key, i, j); }
        KeyIndexIs(ps, key, |ps|);
        return |ps|;
      }
      i := i + 1;
    }
    KeyIndexIs(ps, key, |ps|);
  }

  /** map::find: the section of that name, or the end. */
  method FindSection(ss: seq<Section>, name: string) returns (i: nat)
    requires SortedSections(ss)
    ensures i == SectionIndex(ss, name)
  {
    hide Less, Fold, Same;
    i := 0;
    while i < |ss|
      invariant i <= |ss| && forall j :: 0 <= j < i ==> !Same(ss[j].name, name)
    {
      SameIsEquiv(ss[i].name, name);
      var less := IsLess(ss[i].name, name);
      if !less {
        var greater := IsLess(name, ss[i].name);
        if !greater {
          SectionIndexIs(ss, name, i);
          return;
        }
        forall j | i <= j < |ss| ensures !Same(ss[j].name, name) {
          if i < j { LessTransitive(name, ss[i].name, ss[j].name); }
          SameIsEquiv(ss[j].name, name);
        }
        SectionIndexIs(ss, name, |ss|);
        return |ss|;
      }
      i := i + 1;
    }
    SectionIndexIs(ss, name, |ss|);
  }

  /** multimap::insert: behind the pairs of the same key. */
  method Insert(ps: seq<Pair>, p: Pair) returns (qs: seq<Pair>)
    ensures qs == InsertPair(ps, p)
  {
    hide Less;
    var i := 0;
    while i < |ps|
      invariant i <= |ps| && forall j :: 0 <= j < i ==> !Less(p.key, ps[j].key)
    {
      var greater := IsLess(p.key, ps[i].key);
      if greater { break; }
      i := i + 1;
    }
    UpperIs(ps, p.key, i);
    qs := ps[..i] + [p] + ps[i..];
  }

  lemma UpperIs(ps: seq<Pair>, key: string, i: nat)
    requires i <= |ps| && (forall j :: 0 <= j < i ==> !Less(key, ps[j].key)) && (i < |ps| ==> Less(key, ps[i].key))
    ensures Upper(ps, key) == i
  {
    hide Less;
  }

  /** map::insert of a section that is not there. */
  method InsertNew(ss: seq<Section>, s: Section) returns (rs: seq<Section>)
    ensures rs == InsertSection(ss, s)
  {
    hide Less;
    var i := 0;
    while i < |ss|
      invariant i <= |ss| && forall j :: 0 <= j < i ==> Less(ss[j].name, s.name)
    {
      var less := IsLess(ss[i].name, s.name);
      if !less { break; }
      i := i + 1;
    }
    LowerIs(ss, s.name, i);
    rs := ss[..i] + [s] + ss[i..];
  }

  lemma LowerIs(ss: seq<Section>, name: string, i: nat)
    requires i <= |ss| && (forall j :: 0 <= j < i ==> Less(ss[j].name, name)) && (i < |ss| ==> !Less(ss[i].name, name))
    ensures Lower(ss, name) == i
  {
    hide Less;
  }

  // ---------- collecting the pairs of a key

  lemma MatchesStep(ps: seq<Pair>, key: string, i: nat)
    requires i < |ps|
    ensures Matches(ps[..i + 1], key) == Matches(ps[..i], key) + (if Same(ps[i].key, key) then [ps[i]] else [])
  {
    hide Fold;
    assert ps[..i + 1] == ps[..i] + [ps[i]];
    MatchesAppend(ps[..i], [ps[i]], key);
    assert Matches([ps[i]], key) == (if Same(ps[i].key, key) then [ps[i]] else []);
  }

  lemma NoMatchesBefore(ps: seq<Pair>, key: string)
    ensures Matches(ps[..KeyIndex(ps, key)], key) == []
  {
    hide Fold;
    var front := ps[..KeyIndex(ps, key)];
    forall p | p in front ensures !Same(p.key, key) { }
    NoMatches(front, key);
  }

  /** The pairs collected up to the first greater key are all the pairs of the key. */
  lemma MatchesComplete(ps: seq<Pair>, key: string, i: nat)
    requires SortedPairs(ps) && i <= |ps| && (i < |ps| ==> Less(key, ps[i].key))
    ensures Matches(ps[..i], key) == Matches(ps, key)
  {
    hide Less, Fold, SortedPairs;
    var back := ps[i..];
    forall p | p in back ensures !Same(p.key, key) {
      var j :| i <= j < |ps| && ps[j] == p;
      GreaterBehind(ps, key, i, j);
    }
    NoMatches(back, key);
    MatchesAppend(ps[..i], back, key);
    assert ps == ps[..i] + back;
  }

  /** From the first pair of the key on, collect while the key is not greater. */
  method Collect(ps: seq<Pair>, key: string, first: nat) returns (ms: seq<Pair>)
    requires SortedPairs(ps) && first == KeyIndex(ps, key) && first < |ps|
    ensures ms == Matches(ps, key) && ms != [] && ms[0] == ps[first]
  {
    hide Less, Fold, Same, SortedPairs, Matches;
    NoMatchesBefore(ps, key);
    MatchesStep(ps, key, first);
    ms := [ps[first]];
    var i := first + 1;
    while i < |ps|
      invariant first < i <= |ps| && ms == Matches(ps[..i], key) && ms != [] && ms[0] == ps[first]
    {
      var greater := IsLess(key, ps[i].key);
      if greater { break; }
      NotGreaterIsSame(ps, key, first, i);
      MatchesStep(ps, key, i);
      ms := ms + [ps[i]];
      i := i + 1;
    }
    MatchesComplete(ps, key, i);
  }

  // ---------- listing the keys

  lemma HasKeyStep(ps: seq<Pair>, last: string, i: nat)
    requires SortedPairs(ps) && 0 < i < |ps| && HasKey(ps[..i], last)
    requires forall j :: 0 <= j < i ==> !Less(last, ps[j].key)
    ensures HasKey(ps[..i], ps[i].key) <==> !Less(last, ps[i].key)
    ensures Less(last, ps[i].key) ==> forall j :: 0 <= j <= i ==> !Less(ps[i].key, ps[j].key)
    ensures !Less(last, ps[i].key) ==> forall j :: 0 <= j <= i ==> !Less(last, ps[j].key)
  {
    hide Less, Fold;
    var k :| 0 <= k < i && Same(ps[..i][k].key, last);
    var key := ps[i].key;
    LessIrreflexive(key);
    if Less(last, key) {
      forall j | 0 <= j < i ensures !Same(ps[..i][j].key, key) {
        SameIsEquiv(ps[j].key, key);
        if Same(ps[j].key, key) { LessOnFolds(last, ps[j].key, last, key); }
      }
    } else {
      SameIsEquiv(last, key);
      SameIsEquiv(ps[k].key, last);
      if Less(key, last) { LessOnFolds(key, last, key, ps[k].key); }
      assert Same(ps[..i][k].key, key);
    }
  }

  /** GetAllKeys: a pair is listed when its key is greater than the one listed last. */
  method ListKeys(ps: seq<Pair>) returns (ns: seq<Name>)
    requires SortedPairs(ps)
    ensures ns == Firsts(ps)
  {
    hide Less, Fold, SortedPairs, HasKey;
    ns := [];
    var last: Option<string> := None;
    var i := 0;
    while i < |ps|
      invariant i <= |ps| && ns == Firsts(ps[..i])
      invariant i == 0 <==> last.None?
      invariant last.Some? ==> HasKey(ps[..i], last.value) && forall j :: 0 <= j < i ==> !Less(last.value, ps[j].key)
    {
      assert ps[..i + 1][..i] == ps[..i];
      var take := last.None?;
      if last.Some? {
        HasKeyStep(ps, last.value, i);
        take := IsLess(last.value, ps[i].key);
      } else {
        NoMatches(ps[..0], ps[i].key);
        LessIrreflexive(ps[i].key);
      }
      HasKeyAppend(ps[..i], [ps[i]], ps[i].key);
      HasOnly(ps[i], ps[i].key);
      assert ps[..i + 1] == ps[..i] + [ps[i]];
      if take {
        ns := ns + [KeyHead(ps[i])];
        last := Some(ps[i].key);
      } else {
        HasKeyAppend(ps[..i], [ps[i]], last.value);
      }
      i := i + 1;
    }
    assert ps[..i] == ps;
  }

  // ---------- erasing

  lemma {:induction false} WithoutAppend(a: seq<Pair>, b: seq<Pair>, key: string, value: Option<string>)
    ensures Without(a + b, key, value) == Without(a, key, value) + Without(b, key, value)
  {
    hide Removes;
    if a == [] {
      assert a + b == b;
    } else {
      WithoutAppend(a[1..], b, key, value);
      assert (a + b)[1..] == a[1..] + b;
      var x := if Removes(a[0], key, value) then [] else [a[0]];
      assert x + (Without(a[1..], key, value) + Without(b, key, value))
        == x + Without(a[1..], key, value) + Without(b, key, value);
    }
  }

  lemma {:induction false} WithoutNone(ps: seq<Pair>, key: string, value: Option<string>)
    requires forall p :: p in ps ==> !Same(p.key, key)
    ensures Without(ps, key, value) == ps
  {
    hide Fold;
    if ps != [] { WithoutNone(ps[1..], key, value); }
  }

  lemma WithoutStep(ps: seq<Pair>, key: string, value: Option<string>, j: nat)
    requires j < |ps|
    ensures Without(ps[..j + 1], key, value)
      == Without(ps[..j], key, value) + (if Removes(ps[j], key, value) then [] else [ps[j]])
  {
    hide Removes;
    assert ps[..j + 1] == ps[..j] + [ps[j]];
    WithoutAppend(ps[..j], [ps[j]], key, value);
    assert Without([ps[j]], key, value) == (if Removes(ps[j], key, value) then [] else [ps[j]]);
  }

  /** Nothing of the key before its first pair or from the first greater one on. */
  lemma WithoutOutside(ps: seq<Pair>, key: string, value: Option<string>, j: nat)
    requires SortedPairs(ps) && j <= |ps| && (j < |ps| ==> Less(key, ps[j].key))
    ensures Without(ps, key, value) == Without(ps[..j], key, value) + ps[j..]
  {
    hide Less, Fold, SortedPairs;
    forall p | p in ps[j..] ensures !Same(p.key, key) {
      var i :| j <= i < |ps| && ps[i] == p;
      GreaterBehind(ps, key, j, i);
    }
    WithoutNone(ps[j..], key, value);
    WithoutAppend(ps[..j], ps[j..], key, value);
    assert ps == ps[..j] + ps[j..];
  }

  lemma FrontKept(ps: seq<Pair>, key: string, value: Option<string>)
    ensures Without(ps[..KeyIndex(ps, key)], key, value) == ps[..KeyIndex(ps, key)]
  {
    hide Fold;
    var front := ps[..KeyIndex(ps, key)];
    forall p | p in front ensures !Same(p.key, key) { }
    WithoutNone(front, key, value);
  }

  /** One step of the erasing loop: the pair at i of what is left is the pair j of the whole. */
  lemma EraseStep(ps: seq<Pair>, qs: seq<Pair>, key: string, value: Option<string>, i: nat, j: nat)
    requires j < |ps| && i == |Without(ps[..j], key, value)| && qs == Without(ps[..j], key, value) + ps[j..]
    ensures i < |qs| && qs[i] == ps[j]
    ensures if Removes(ps[j], key, value)
            then qs[..i] + qs[i + 1..] == Without(ps[..j + 1], key, value) + ps[j + 1..]
              && i == |Without(ps[..j + 1], key, value)|
            else qs == Without(ps[..j + 1], key, value) + ps[j + 1..] && i + 1 == |Without(ps[..j + 1], key, value)|
  {
    hide Removes;
    var front := Without(ps[..j], key, value);
    WithoutStep(ps, key, value, j);
    assert qs[..i] == front && qs[i + 1..] == ps[j + 1..];
    assert front + ps[j..] == front + [ps[j]] + ps[j + 1..];
  }

  /** Is this pair to be erased? */
  method IsHit(p: Pair, key: string, value: Option<string>) returns (hit: bool)
    requires Same(p.key, key)
    ensures hit == Removes(p, key, value)
  {
    hide Less, Fold;
    hit := value.None?;
    if value.Some? {
      SameIsEquiv(p.value, value.value);
      var below := IsLess(value.value, p.value);
      var above := IsLess(p.value, value.value);
      hit := !below && !above;
    }
  }

  /** Erase every pair of the key, or every pair of the key with an equivalent value, from the first one on. */
  method Erase(ps: seq<Pair>, key: string, value: Option<string>, first: nat) returns (qs: seq<Pair>, deleted: bool)
    requires SortedPairs(ps) && first == KeyIndex(ps, key) && first < |ps|
    ensures qs == Without(ps, key, value)
    ensures deleted <==> |qs| < |ps|
  {
    hide Less, Fold, Same, SortedPairs, Without, Removes;
    qs, deleted := ps, false;
    var i := first;
    ghost var j: nat := first;
    FrontKept(ps, key, value);
    assert ps == ps[..first] + ps[first..];
    LessIrreflexive(ps[first].key);
    SameIsEquiv(ps[first].key, key);
    var more := true;
    while more
      invariant first <= j <= |ps| && i <= j && i == |Without(ps[..j], key, value)|
      invariant qs == Without(ps[..j], key, value) + ps[j..]
      invariant deleted <==> i < j
      invariant more ==> j < |ps| && !Less(key, ps[j].key)
      invariant !more && j < |ps| ==> Less(key, ps[j].key)
      decreases |ps| - j, more
    {
      NotGreaterIsSame(ps, key, first, j);
      EraseStep(ps, qs, key, value, i, j);
      var hit := IsHit(qs[i], key, value);
      if hit {
        qs := qs[..i] + qs[i + 1..];
        deleted := true;
      } else {
        i := i + 1;
      }
      j := j + 1;
      more := i < |qs|;
      if more {
        var greater := IsLess(key, qs[i].key);
        more := !greater;
      }
    }
    WithoutOutside(ps, key, value, j);
  }

  // ---------- the oldest pair of a key

  lemma OldestIs(ms: seq<Pair>, p: Pair)
    requires p in ms && (forall q :: q in ms ==> p.order <= q.order)
    requires forall q, r :: q in ms && r in ms && q.order == r.order ==> q == r
    ensures Oldest(ms) == p
  {
    var q := Oldest(ms);
    assert q in ms && q.order == p.order;
  }

  lemma CandidatesDiffer(ps: seq<Pair>, key: string, p: Pair)
    requires Distinct(ps) && forall q :: q in ps ==> q.order < p.order
    ensures forall q, r :: q in Matches(ps, key) + [p] && r in Matches(ps, key) + [p] && q.order == r.order ==> q == r
  {
    hide Fold, Distinct;
    MatchesAre(ps, key);
    forall q, r | q in Matches(ps, key) + [p] && r in Matches(ps, key) + [p] && q.order == r.order ensures q == r {
      if q in ps && r in ps { SameOrderSamePair(ps, q, r); }
    }
  }

  /** Of the pairs of a key and the new one, the one with the smallest load order. */
  method OldestOf(ps: seq<Pair>, key: string, first: nat, p: Pair) returns (best: Pair)
    requires SortedPairs(ps) && Distinct(ps) && first == KeyIndex(ps, key) && first < |ps|
    requires forall q :: q in ps ==> q.order < p.order
    ensures best == Oldest(Matches(ps, key) + [p])
  {
    hide Less, Fold, Same, SortedPairs, Distinct, Oldest, Matches, KeyIndex;
    NoMatchesBefore(ps, key);
    best := p;
    var i := first;
    while i < |ps|
      invariant first <= i <= |ps| && best in Matches(ps[..i], key) + [p]
      invariant forall q :: q in Matches(ps[..i], key) + [p] ==> best.order <= q.order
    {
      var greater := IsLess(key, ps[i].key);
      if greater { break; }
      NotGreaterIsSame(ps, key, first, i);
      MatchesStep(ps, key, i);
      if ps[i].order < best.order { best := ps[i]; }
      i := i + 1;
    }
    MatchesComplete(ps, key, i);
    CandidatesDiffer(ps, key, p);
    OldestIs(Matches(ps, key) + [p], best);
  }
}
