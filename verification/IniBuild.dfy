/** Adding the entries of a document one by one builds a table that stands for that document. */
module IniBuild {
  import opened IniOrder
  import opened IniDocument
  import opened IniTable
  import opened IniView

  // ---------- inserting into a multimap, as the queries see it

  lemma {:induction false} MatchesAppend(a: seq<Pair>, b: seq<Pair>, key: string)
    ensures Matches(a + b, key) == Matches(a, key) + Matches(b, key)
  {
    hide Same;
    if a == [] {
      assert a + b == b;
    } else {
      MatchesAppend(a[1..], b, key);
      assert (a + b)[1..] == a[1..] + b;
      var x := if Same(a[0].key, key) then [a[0]] else [];
      assert x + (Matches(a[1..], key) + Matches(b, key)) == x + Matches(a[1..], key) + Matches(b, key);
    }
  }

  lemma NoMatches(ps: seq<Pair>, key: string)
    requires forall p :: p in ps ==> !Same(p.key, key)
    ensures Matches(ps, key) == [] && !HasKey(ps, key)
  {
    hide Same;
  }

  lemma OneMatch(p: Pair, key: string)
    ensures Matches([p], key) == if Same(p.key, key) then [p] else []
  {
  }

  /** A pair inserted into a sorted multimap is the last of its key; other keys do not notice. */
  lemma MatchesInsert(ps: seq<Pair>, p: Pair, key: string)
    requires SortedPairs(ps)
    ensures Matches(InsertPair(ps, p), key) == Matches(ps, key) + (if Same(p.key, key) then [p] else [])
  {
    hide Less, Fold, SortedPairs, Matches;
    var n := Upper(ps, p.key);
    MatchesAppend(ps[..n], ps[n..], key);
    MatchesAppend(ps[..n] + [p], ps[n..], key);
    MatchesAppend(ps[..n], [p], key);
    assert ps == ps[..n] + ps[n..];
    OneMatch(p, key);
    if Same(p.key, key) {
      forall q | q in ps[n..] ensures !Same(q.key, key) {
        var j :| n <= j < |ps| && ps[j] == q;
        BehindUpper(ps, p.key, j);
      }
      NoMatches(ps[n..], key);
    }
  }

  lemma HasKeyAppend(a: seq<Pair>, b: seq<Pair>, key: string)
    ensures HasKey(a + b, key) <==> HasKey(a, key) || HasKey(b, key)
  {
    hide Same;
    if HasKey(b, key) {
      var i :| 0 <= i < |b| && Same(b[i].key, key);
      assert (a + b)[|a| + i] == b[i];
    }
    if HasKey(a, key) {
      var i :| 0 <= i < |a| && Same(a[i].key, key);
      assert (a + b)[i] == a[i];
    }
  }

  /** First pairs of a list with p put in where no pair behind has its key. */
  lemma {:induction false} FirstsInsert(a: seq<Pair>, p: Pair, b: seq<Pair>)
    requires forall q :: q in b ==> !Same(q.key, p.key)
    ensures HasKey(a, p.key) ==> Firsts(a + [p] + b) == Firsts(a + b)
    ensures !HasKey(a, p.key) ==>
      forall m :: m in Firsts(a + [p] + b) <==> m in Firsts(a + b) || m == KeyHead(p)
  {
    hide Fold, HasKey;
    if b == [] {
      assert a + [p] + b == a + [p] && a + b == a;
      assert (a + [p])[..|a|] == a;
    } else {
      var front := b[..|b| - 1];
      var last := b[|b| - 1];
      FirstsInsert(a, p, front);
      assert (a + [p] + b)[..|a| + |b|] == a + [p] + front;
      assert (a + b)[..|a| + |b| - 1] == a + front;
      HasKeyAppend(a + [p], front, last.key);
      HasKeyAppend(a, [p], last.key);
      HasKeyAppend(a, front, last.key);
      assert !Same(p.key, last.key);
      assert !HasKey([p], last.key) by { NoMatches([p], last.key); }
    }
  }

  lemma {:induction false} FirstsMembers(ps: seq<Pair>)
    ensures forall m :: m in Firsts(ps) ==> exists p :: p in ps && m == KeyHead(p)
    ensures Distinct(ps) ==> DistinctNames(Firsts(ps))
  {
    hide HasKey;
    if ps != [] {
      var front := ps[..|ps| - 1];
      FirstsMembers(front);
      assert ps == front + [ps[|ps| - 1]];
      if Distinct(ps) {
        forall m | m in Firsts(front) ensures m.order != ps[|ps| - 1].order {
          var p :| p in front && m == KeyHead(p);
        }
      }
    }
  }

  /** Every key of the multimap is listed once: under the name of its first pair. */
  lemma {:induction false} FirstsCover(ps: seq<Pair>, key: string)
    ensures HasKey(ps, key) <==> exists m :: m in Firsts(ps) && Same(m.item, key)
  {
    hide Fold, HasKey;
    if ps == [] {
      NoMatches(ps, key);
    } else {
      var front := ps[..|ps| - 1];
      var last := ps[|ps| - 1];
      FirstsCover(front, key);
      FirstsCover(front, last.key);
      assert ps == front + [last];
      HasKeyAppend(front, [last], key);
      HasOnly(last, key);
      if Same(last.key, key) && !HasKey(front, last.key) { assert KeyHead(last) in Firsts(ps); }
      if Same(last.key, key) && HasKey(front, last.key) {
        var m :| m in Firsts(front) && Same(m.item, last.key);
        assert m in Firsts(ps) && Same(m.item, key);
      }
    }
  }

  lemma HasOnly(p: Pair, key: string)
    ensures HasKey([p], key) <==> Same(p.key, key)
  {
    hide Same;
    assert [p][0] == p;
  }

  /** No key is listed twice. */
  lemma {:induction false} FirstsDiffer(ps: seq<Pair>)
    ensures forall i, j :: 0 <= i < j < |Firsts(ps)| ==> !Same(Firsts(ps)[i].item, Firsts(ps)[j].item)
  {
    hide Fold, HasKey;
    if ps != [] {
      var front := ps[..|ps| - 1];
      var last := ps[|ps| - 1];
      FirstsDiffer(front);
      FirstsCover(front, last.key);
      if !HasKey(front, last.key) {
        forall m | m in Firsts(front) ensures !Same(m.item, last.key) { }
      }
    }
  }

  // ---------- the listing of one section after an insertion

  lemma MatchesNone(ps: seq<Pair>, key: string)
    requires !HasKey(ps, key)
    ensures Matches(ps, key) == []
  {
    hide Fold;
    MatchesAre(ps, key);
  }

  /** The facts about the sorted key list that both insertion lemmas use. */
  lemma KeyListFacts(ps: seq<Pair>)
    requires Distinct(ps)
    ensures forall i :: 0 <= i < |ByOrder(Firsts(ps))| ==>
      ByOrder(Firsts(ps))[i] in Firsts(ps) && HasKey(ps, ByOrder(Firsts(ps))[i].item)
    ensures DistinctNames(Firsts(ps))
  {
    hide Fold, HasKey, Distinct, DistinctNames, Increasing;
    ByOrderIs(Firsts(ps));
    FirstsMembers(ps);
    forall m | m in Firsts(ps) ensures HasKey(ps, m.item) { FirstsCover(ps, m.item); }
  }

  lemma SameIsSymmetric(a: string, b: string, c: string)
    ensures Same(a, a) && (Same(a, b) <==> Same(b, a)) && (Same(a, b) && Same(b, c) ==> Same(a, c))
  {
  }

  /** HasKey does not see the spelling. */
  lemma HasKeySame(ps: seq<Pair>, a: string, b: string)
    requires Same(a, b)
    ensures HasKey(ps, a) <==> HasKey(ps, b)
  {
    hide Fold;
  }

  lemma KeyDocUnchanged(ps: seq<Pair>, p: Pair, n: Name, multiKey: bool)
    requires SortedPairs(ps) && !Same(p.key, n.item)
    ensures KeyDoc(InsertPair(ps, p), n, multiKey) == KeyDoc(ps, n, multiKey)
  {
    hide Matches, InsertPair, SortedPairs, Same;
    MatchesInsert(ps, p, n.item);
    assert Matches(ps, n.item) + [] == Matches(ps, n.item);
  }

  lemma KeyDocNew(ps: seq<Pair>, p: Pair, multiKey: bool)
    requires SortedPairs(ps) && !HasKey(ps, p.key)
    ensures KeyDoc(InsertPair(ps, p), KeyHead(p), multiKey) == Key(p.key, [Val(p.value, p.comment)])
  {
    hide Matches, InsertPair, SortedPairs, Same, HasKey;
    MatchesNone(ps, p.key);
    MatchesInsert(ps, p, p.key);
    SameIsSymmetric(p.key, p.key, p.key);
    assert Matches(InsertPair(ps, p), p.key) == [p];
    assert ToVals([p]) == [Val(p.value, p.comment)];
  }

  lemma KeyDocMore(ps: seq<Pair>, p: Pair, n: Name)
    requires SortedPairs(ps) && Same(p.key, n.item)
    ensures KeyDoc(InsertPair(ps, p), n, true) == Key(n.item, KeyDoc(ps, n, true).vals + [Val(p.value, p.comment)])
  {
    hide Matches, InsertPair, SortedPairs, Same;
    MatchesInsert(ps, p, n.item);
    var m := Matches(ps, n.item);
    assert ToVals(m + [p]) == ToVals(m) + [Val(p.value, p.comment)];
  }

  lemma OrdersBelow(ps: seq<Pair>, order: int)
    requires forall q :: q in ps ==> q.order < order
    ensures forall m :: m in Firsts(ps) ==> m.order < order
  {
    hide Firsts;
    FirstsMembers(ps);
  }

  /** A new key with the largest load order is listed last, with its one value. */
  lemma KeysNew(ps: seq<Pair>, p: Pair, multiKey: bool)
    requires SortedPairs(ps) && Distinct(ps) && !HasKey(ps, p.key)
    requires forall q :: q in ps ==> q.order < p.order
    ensures Keys(InsertPair(ps, p), multiKey) == Keys(ps, multiKey) + [Key(p.key, [Val(p.value, p.comment)])]
  {
    hide Less, Fold, HasKey, Distinct, DistinctNames, SortedPairs, InsertPair, Same, Firsts, ByOrder, KeyDoc;
    var qs := InsertPair(ps, p);
    var ns := ByOrder(Firsts(ps));
    FirstsOfInsert(ps, p);
    assert Distinct(qs) by { NewOrder(ps, p); }
    KeyListFacts(ps);
    KeyListFacts(qs);
    OrdersBelow(ps, p.order);
    SortAppends(Firsts(ps), Firsts(qs), KeyHead(p));
    forall i | 0 <= i < |ns| ensures KeyDoc(qs, ns[i], multiKey) == KeyDoc(ps, ns[i], multiKey) {
      if Same(p.key, ns[i].item) { HasKeySame(ps, p.key, ns[i].item); }
      KeyDocUnchanged(ps, p, ns[i], multiKey);
    }
    KeyDocNew(ps, p, multiKey);
  }

  lemma NewOrder(ps: seq<Pair>, p: Pair)
    requires Distinct(ps) && forall q :: q in ps ==> q.order < p.order
    ensures Distinct(InsertPair(ps, p))
  {
    hide InsertPair, Distinct;
    InsertPairOrders(ps, p);
  }

  lemma FirstsOfInsert(ps: seq<Pair>, p: Pair)
    requires SortedPairs(ps)
    ensures HasKey(ps, p.key) ==> Firsts(InsertPair(ps, p)) == Firsts(ps)
    ensures !HasKey(ps, p.key) ==> forall m :: m in Firsts(InsertPair(ps, p)) <==> m in Firsts(ps) || m == KeyHead(p)
  {
    hide Less, Fold, HasKey, SortedPairs, Firsts;
    var n := Upper(ps, p.key);
    forall q | q in ps[n..] ensures !Same(q.key, p.key) {
      var j :| n <= j < |ps| && ps[j] == q;
      BehindUpper(ps, p.key, j);
    }
    NoMatches(ps[n..], p.key);
    HasKeyAppend(ps[..n], ps[n..], p.key);
    assert ps == ps[..n] + ps[n..];
    FirstsInsert(ps[..n], p, ps[n..]);
  }

  /** With multi-key on, a further value of the key listed last goes to the end of its values. */
  lemma KeysMore(ps: seq<Pair>, p: Pair)
    requires SortedPairs(ps) && Distinct(ps) && HasKey(ps, p.key)
    requires Keys(ps, true) != [] && Same(Keys(ps, true)[|Keys(ps, true)| - 1].name, p.key)
    ensures
      var ks := Keys(ps, true);
      var k := ks[|ks| - 1];
      Keys(InsertPair(ps, p), true) == ks[|ks| - 1 := Key(k.name, k.vals + [Val(p.value, p.comment)])]
  {
    hide Less, Fold, HasKey, Distinct, DistinctNames, SortedPairs, InsertPair, Same, KeyDoc;
    var qs := InsertPair(ps, p);
    var ns := ByOrder(Firsts(ps));
    var last := |ns| - 1;
    FirstsOfInsert(ps, p);
    KeyDocName(ps, ns[last]);
    assert Keys(ps, true)[last] == KeyDoc(ps, ns[last], true);
    assert Same(ns[last].item, p.key);
    SameIsSymmetric(ns[last].item, p.key, p.key);
    forall i | 0 <= i < last ensures KeyDoc(qs, ns[i], true) == KeyDoc(ps, ns[i], true) {
      SameIsSymmetric(p.key, ns[i].item, ns[last].item);
      SameIsSymmetric(ns[i].item, p.key, ns[last].item);
      KeysDiffer(ps, i, last);
      KeyDocUnchanged(ps, p, ns[i], true);
    }
    KeyDocMore(ps, p, ns[last]);
  }

  lemma KeyDocName(ps: seq<Pair>, n: Name)
    ensures KeyDoc(ps, n, true).name == n.item
  {
  }

  /** The sorted key list names no key twice. */
  lemma KeysDiffer(ps: seq<Pair>, i: nat, j: nat)
    requires Distinct(ps) && i < j < |ByOrder(Firsts(ps))|
    ensures !Same(ByOrder(Firsts(ps))[i].item, ByOrder(Firsts(ps))[j].item)
  {
    hide Fold, HasKey, Distinct, Same;
    var fs := Firsts(ps);
    var ns := ByOrder(fs);
    FirstsDiffer(ps);
    FirstsMembers(ps);
    ByOrderIs(fs);
    assert ns[i] in fs && ns[j] in fs;
    var a :| 0 <= a < |fs| && fs[a] == ns[i];
    var b :| 0 <= b < |fs| && fs[b] == ns[j];
    assert ns[i].order < ns[j].order;
    SameIsSymmetric(fs[a].item, fs[b].item, fs[a].item);
    assert a != b;
  }
}
