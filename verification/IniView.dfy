/**
 * The document a table stands for: its sections and keys in load order, as the queries list
 * them and Save writes them; and the two directions between tables and documents.
 */
module IniView {
  import opened IniDocument
  import opened IniTable

  // ---------- sorting by load order

  predicate Increasing(ns: seq<Name>) { forall i, j :: 0 <= i < j < |ns| ==> ns[i].order < ns[j].order }

  predicate DistinctNames(ns: seq<Name>) { forall i, j :: 0 <= i < j < |ns| ==> ns[i].order != ns[j].order }

  function Place(ns: seq<Name>, order: int): (n: nat)
    ensures n <= |ns|
    ensures forall i :: 0 <= i < n ==> ns[i].order <= order
    ensures n < |ns| ==> order < ns[n].order
  {
    if ns == [] || order < ns[0].order then 0 else 1 + Place(ns[1..], order)
  }

  function InsertByOrder(ns: seq<Name>, n: Name): seq<Name> {
    var k := Place(ns, n.order);
    ns[..k] + [n] + ns[k..]
  }

  /** A list sorted by load order. */
  function ByOrder(ns: seq<Name>): seq<Name> {
    if ns == [] then [] else InsertByOrder(ByOrder(ns[..|ns| - 1]), ns[|ns| - 1])
  }

  lemma InsertMembers(ns: seq<Name>, n: Name)
    ensures forall m :: m in InsertByOrder(ns, n) <==> m in ns || m == n
  {
    assert ns == ns[..Place(ns, n.order)] + ns[Place(ns, n.order)..];
  }

  lemma InsertIncreasing(ns: seq<Name>, n: Name)
    requires Increasing(ns) && forall m :: m in ns ==> m.order != n.order
    ensures Increasing(InsertByOrder(ns, n))
  {
    var k := Place(ns, n.order);
    var ms := InsertByOrder(ns, n);
    forall i, j | 0 <= i < j < |ms| ensures ms[i].order < ms[j].order {
      if i == k { assert ns[k].order <= ns[j - 1].order; }
      if j == k { assert ns[i] in ns; }
    }
  }

  /** Sorting keeps the members, and distinct load orders come out strictly increasing. */
  lemma {:induction false} ByOrderIs(ns: seq<Name>)
    ensures forall m :: m in ByOrder(ns) <==> m in ns
    ensures DistinctNames(ns) ==> Increasing(ByOrder(ns))
    ensures |ByOrder(ns)| == |ns|
  {
    hide Increasing, InsertByOrder;
    if ns != [] {
      var front := ns[..|ns| - 1];
      var last := ns[|ns| - 1];
      ByOrderIs(front);
      InsertMembers(ByOrder(front), last);
      assert ns == front + [last];
      if DistinctNames(ns) { InsertIncreasing(ByOrder(front), last); }
      assert |InsertByOrder(ByOrder(front), last)| == |front| + 1 by { InsertLength(ByOrder(front), last); }
    } else {
      EmptyIncreasing();
    }
  }

  lemma InsertLength(ns: seq<Name>, n: Name)
    ensures |InsertByOrder(ns, n)| == |ns| + 1
  {
  }

  lemma EmptyIncreasing()
    ensures Increasing([])
  {
  }

  lemma SomeMember(ns: seq<Name>)
    ensures ns != [] ==> exists m :: m in ns
  {
    if ns != [] { assert ns[0] in ns; }
  }

  /** A strictly increasing list is determined by its members. */
  lemma {:induction false} IncreasingUnique(a: seq<Name>, b: seq<Name>)
    requires Increasing(a) && Increasing(b)
    requires forall m :: m in a <==> m in b
    ensures a == b
    decreases |a|
  {
    if a == [] {
      SomeMember(b);
    } else {
      assert a[0] in b && b != [] && b[0] in a;
      assert a[0] == b[0];
      forall m ensures m in a[1..] <==> m in b[1..] {
        if m in a[1..] { assert m in a && m != a[0]; }
        if m in b[1..] { assert m in b && m != b[0]; }
      }
      IncreasingUnique(a[1..], b[1..]);
      assert a == [a[0]] + a[1..] && b == [b[0]] + b[1..];
    }
  }

  /** A new member with the largest load order is sorted to the end. */
  lemma SortAppends(ns: seq<Name>, ms: seq<Name>, n: Name)
    requires DistinctNames(ns) && DistinctNames(ms)
    requires forall m :: m in ms <==> m in ns || m == n
    requires forall m :: m in ns ==> m.order < n.order
    ensures ByOrder(ms) == ByOrder(ns) + [n]
  {
    hide ByOrder, DistinctNames;
    ByOrderIs(ns);
    ByOrderIs(ms);
    IncreasingUnique(ByOrder(ms), ByOrder(ns) + [n]);
  }

  // ---------- what the queries list

  function HeadOf(s: Section): Name { Name(s.name, s.comment, s.order) }

  /** GetAllSections: the sections in map order. */
  function Heads(ss: seq<Section>): seq<Name> {
    seq(|ss|, i requires 0 <= i < |ss| => HeadOf(ss[i]))
  }

  function KeyHead(p: Pair): Name { Name(p.key, p.comment, p.order) }

  /** GetAllKeys: the first pair of every key, in multimap order. */
  function Firsts(ps: seq<Pair>): seq<Name> {
    if ps == [] then []
    else
      var front := ps[..|ps| - 1];
      var last := ps[|ps| - 1];
      Firsts(front) + (if HasKey(front, last.key) then [] else [KeyHead(last)])
  }

  function ToVals(ps: seq<Pair>): seq<Val> {
    seq(|ps|, i requires 0 <= i < |ps| => Val(ps[i].value, ps[i].comment))
  }

  /** GetAllValues: every value of a key, or only the first when multi-key is off. */
  function ValuesOf(ps: seq<Pair>, key: string, multiKey: bool): seq<Pair> {
    var m := Matches(ps, key);
    if multiKey || m == [] then m else m[..1]
  }

  // ---------- the document

  function KeyDoc(ps: seq<Pair>, n: Name, multiKey: bool): Key {
    Key(n.item, ToVals(ValuesOf(ps, n.item, multiKey)))
  }

  function KeyDocs(ps: seq<Pair>, ns: seq<Name>, multiKey: bool): seq<Key> {
    seq(|ns|, i requires 0 <= i < |ns| => KeyDoc(ps, ns[i], multiKey))
  }

  /** The keys of a section in load order. */
  function Keys(ps: seq<Pair>, multiKey: bool): seq<Key> { KeyDocs(ps, ByOrder(Firsts(ps)), multiKey) }

  function NamelessIndex(ns: seq<Name>): (n: nat)
    ensures n <= |ns|
    ensures forall i :: 0 <= i < n ==> ns[i].item != ""
    ensures n < |ns| ==> ns[n].item == ""
  {
    if ns == [] || ns[0].item == "" then 0 else 1 + NamelessIndex(ns[1..])
  }

  lemma NamelessIs(ns: seq<Name>, k: nat)
    requires k <= |ns| && (forall i :: 0 <= i < k ==> ns[i].item != "")
    requires k < |ns| ==> ns[k].item == ""
    ensures NamelessIndex(ns) == k
  {
  }

  /** The nameless section is moved to the front, wherever it was. */
  function NamelessFirst(ns: seq<Name>): seq<Name> {
    var k := NamelessIndex(ns);
    if k < |ns| then [ns[k]] + ns[..k] + ns[k + 1..] else ns
  }

  function SectDoc(ss: seq<Section>, n: Name, multiKey: bool): Sect {
    Sect(n.item, n.comment, Keys(PairsOf(ss, n.item), multiKey))
  }

  function SectDocs(ss: seq<Section>, ns: seq<Name>, multiKey: bool): seq<Sect> {
    seq(|ns|, i requires 0 <= i < |ns| => SectDoc(ss, ns[i], multiKey))
  }

  /** The order in which Save writes the sections. */
  function WriteOrder(ss: seq<Section>): seq<Name> { NamelessFirst(ByOrder(Heads(ss))) }

  /** The sections a table stands for, in the order in which they are written. */
  function Sects(t: Table, multiKey: bool): seq<Sect> {
    SectDocs(t.sections, WriteOrder(t.sections), multiKey)
  }

  // ---------- from a document to its table

  /** The shape every listing of a table has: nothing is listed twice. */
  predicate KeysCanonical(keys: seq<Key>, multiKey: bool) {
    && (forall i, j :: 0 <= i < j < |keys| ==> !Same(keys[i].name, keys[j].name))
    && (forall i :: 0 <= i < |keys| ==> keys[i].vals != [] && (multiKey || |keys[i].vals| == 1))
  }

  predicate Canonical(sects: seq<Sect>, multiKey: bool) {
    && (forall i, j :: 0 <= i < j < |sects| ==> !Same(sects[i].name, sects[j].name))
    && (forall i :: 0 <= i < |sects| ==> KeysCanonical(sects[i].keys, multiKey))
    && (forall i :: 0 <= i < |sects| && sects[i].name == "" ==> i == 0)
  }
}
