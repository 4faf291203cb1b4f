/** The INI object with its strings where they really are: every operation keeps all pointers alive and unshared,
    and does to what the pointers read exactly what it does to the table of values. */
module IniOwnership {
  import opened Basics
  import opened IniOrder
  import opened IniGrammar
  import opened IniTable
  import opened IniPool
  import opened IniRoundTrip
  import IniStore

  datatype Sec = Sec(name: Ref, comment: Option<Ref>, order: int, pairs: seq<Slot>) {
    function Read(pool: Pool): Section {
      Section(name.Read(pool), ReadOpt(pool, comment), order, ReadSlots(pool, pairs))
    }

    function Ids(): multiset<Id> { SlotIds(pairs) + HeadIds() }

    function HeadIds(): multiset<Id> { name.Ids() + IdsOpt(comment) }

    predicate Lasts() { !name.Outside? && Lasting(comment) && forall p :: p in pairs ==> p.Lasts() }
  }

  function ReadSecs(pool: Pool, ss: seq<Sec>): (r: seq<Section>)
    ensures |r| == |ss| && forall i :: 0 <= i < |ss| ==> r[i] == ss[i].Read(pool)
  {
    if ss == [] then [] else [ss[0].Read(pool)] + ReadSecs(pool, ss[1..])
  }

  function SecIds(ss: seq<Sec>): multiset<Id> {
    if ss == [] then multiset{} else ss[0].Ids() + SecIds(ss[1..])
  }

  /** loaded says that the object keeps a block, so that later texts are copied. */
  datatype Store = Store(pool: Pool, fileComment: Option<Ref>, sections: seq<Sec>, order: int, loaded: bool) {
    function Rows(): Table { Table(ReadSecs(pool, sections), order) }

    function Read(): Ini { Ini(ReadOpt(pool, fileComment), Rows()) }

    function Ids(): multiset<Id> { SecIds(sections) + IdsOpt(fileComment) }
  }

  const NEW := Store(map[], None, [], 0, false)

  /** Every pointer of the object leads into the block, to the empty string, or to a live copy,
      and no copy is shared. */
  ghost predicate Safe(st: Store) {
    Sound(st.pool, st.Ids()) && Lasting(st.fileComment) && forall s :: s in st.sections ==> s.Lasts()
  }

  lemma {:induction false} SecIdsAppend(ss: seq<Sec>, rs: seq<Sec>)
    ensures SecIds(ss + rs) == SecIds(ss) + SecIds(rs)
  {
    hide Sec.Ids;
    if ss == [] {
      assert ss + rs == rs;
    } else {
      SecIdsAppend(ss[1..], rs);
      assert (ss + rs)[1..] == ss[1..] + rs;
      assert ss[0].Ids() + (SecIds(ss[1..]) + SecIds(rs)) == ss[0].Ids() + SecIds(ss[1..]) + SecIds(rs);
    }
  }

  lemma SecAgrees(a: Pool, b: Pool, s: Sec)
    requires Agree(a, b, s.HeadIds())
    ensures s.name.Read(a) == s.name.Read(b) && ReadOpt(a, s.comment) == ReadOpt(b, s.comment)
  {
    hide Agree, ReadOpt, IdsOpt;
    AgreeParts(a, b, s.name.Ids(), IdsOpt(s.comment));
    RefAgrees(a, b, s.name);
    OptAgrees(a, b, s.comment);
  }

  lemma {:induction false} SecsAgree(a: Pool, b: Pool, ss: seq<Sec>)
    requires Agree(a, b, SecIds(ss))
    ensures ReadSecs(a, ss) == ReadSecs(b, ss)
  {
    hide Agree, ReadSlots, ReadOpt, Ref.Read, SlotIds, Sec.HeadIds;
    if ss != [] {
      AgreeParts(a, b, ss[0].Ids(), SecIds(ss[1..]));
      AgreeParts(a, b, SlotIds(ss[0].pairs), ss[0].HeadIds());
      SlotsAgree(a, b, ss[0].pairs);
      SecAgrees(a, b, ss[0]);
      SecsAgree(a, b, ss[1..]);
    }
  }

  lemma SecIdsAround(ss: seq<Sec>, n: nat, s: Sec)
    requires n <= |ss|
    ensures SecIds(ss[..n] + [s] + ss[n..]) == s.Ids() + SecIds(ss)
  {
    hide Sec.Ids;
    SecIdsAppend(ss[..n] + [s], ss[n..]);
    SecIdsAppend(ss[..n], [s]);
    SecIdsAppend(ss[..n], ss[n..]);
    assert ss == ss[..n] + ss[n..];
    assert SecIds([s]) == s.Ids() by { assert [s][1..] == []; assert s.Ids() + multiset{} == s.Ids(); }
  }

  /** The sections but one. */
  function Others(ss: seq<Sec>, i: nat): seq<Sec>
    requires i < |ss|
  {
    ss[..i] + ss[i + 1..]
  }

  lemma SecIdsAt(ss: seq<Sec>, i: nat, s: Sec)
    requires i < |ss|
    ensures SecIds(ss[i := s]) == s.Ids() + SecIds(Others(ss, i))
  {
    hide Sec.Ids, SecIds;
    var rest := Others(ss, i);
    SecIdsAround(rest, i, s);
    assert rest[..i] == ss[..i] && rest[i..] == ss[i + 1..];
    assert ss[i := s] == rest[..i] + [s] + rest[i..];
  }

  /** What is read of the sections when one of them changes and the strings of the others do not. */
  lemma ReadAt(a: Pool, b: Pool, ss: seq<Sec>, i: nat, s: Sec)
    requires i < |ss| && Agree(a, b, SecIds(Others(ss, i)))
    ensures ReadSecs(b, ss[i := s]) == ReadSecs(a, ss)[i := s.Read(b)]
    ensures ReadSecs(b, Others(ss, i)) == ReadSecs(a, ss)[..i] + ReadSecs(a, ss)[i + 1..]
  {
    hide Agree, Sec.Read, SecIds, ReadSecs, Others;
    SecsAgree(a, b, Others(ss, i));
    ReadOthers(a, ss, i);
    ReadOthers(b, ss, i);
    ReadReplaced(b, ss, i, s);
    SameExcept(ReadSecs(a, ss), ReadSecs(b, ss), i, s.Read(b));
  }

  lemma SameExcept<X>(xs: seq<X>, ys: seq<X>, i: nat, x: X)
    requires i < |xs| == |ys| && xs[..i] + xs[i + 1..] == ys[..i] + ys[i + 1..]
    ensures xs[i := x] == ys[i := x]
  {
    var us, vs := xs[..i] + xs[i + 1..], ys[..i] + ys[i + 1..];
    forall j | 0 <= j < |xs| && j != i ensures xs[j] == ys[j] {
      var k := if j < i then j else j - 1;
      assert us[k] == xs[j] && vs[k] == ys[j];
    }
  }

  lemma ReadOthers(pool: Pool, ss: seq<Sec>, i: nat)
    requires i < |ss|
    ensures ReadSecs(pool, Others(ss, i)) == ReadSecs(pool, ss)[..i] + ReadSecs(pool, ss)[i + 1..]
  {
    hide Sec.Read;
  }

  lemma ReadReplaced(pool: Pool, ss: seq<Sec>, i: nat, s: Sec)
    requires i < |ss|
    ensures ReadSecs(pool, ss[i := s]) == ReadSecs(pool, ss)[i := s.Read(pool)]
  {
    hide Sec.Read;
  }

  // ---------- AddEntry

  function InsertSec(pool: Pool, ss: seq<Sec>, s: Sec): seq<Sec> {
    var n := Lower(ReadSecs(pool, ss), s.name.Read(pool));
    ss[..n] + [s] + ss[n..]
  }

  /** The section entry is created if it does not exist. */
  ghost function Ensure(st: Store, section: Ref, comment: Option<Ref>, copy: bool): Store {
    if SectionIndex(ReadSecs(st.pool, st.sections), section.Read(st.pool)) < |st.sections| then st
    else
      var (pool, name) := Keep(st.pool, section, copy);
      st.(pool := pool, sections := InsertSec(pool, st.sections, Sec(name, comment, st.order + 1, [])),
          order := st.order + 1)
  }

  lemma ReadInserted(pool: Pool, ss: seq<Sec>, n: nat, s: Sec)
    requires n <= |ss|
    ensures ReadSecs(pool, ss[..n] + [s] + ss[n..])
      == ReadSecs(pool, ss)[..n] + [s.Read(pool)] + ReadSecs(pool, ss)[n..]
  {
    hide Sec.Read;
  }

  lemma InsertSecOk(pool: Pool, ss: seq<Sec>, s: Sec)
    ensures ReadSecs(pool, InsertSec(pool, ss, s)) == InsertSection(ReadSecs(pool, ss), s.Read(pool))
    ensures SecIds(InsertSec(pool, ss, s)) == s.Ids() + SecIds(ss)
    ensures forall r :: r in InsertSec(pool, ss, s) ==> r in ss || r == s
  {
    hide Sec.Ids, Ref.Read, ReadOpt, ReadSlots, SecIds, ReadSecs, Lower;
    var n := Lower(ReadSecs(pool, ss), s.name.Read(pool));
    SecIdsAround(ss, n, s);
    ReadInserted(pool, ss, n, s);
  }

  lemma EnsureOk(st: Store, section: Ref, comment: Option<Ref>, copy: bool, m: multiset<Id>)
    requires Sound(st.pool, st.Ids() + IdsOpt(comment) + m) && Lasting(st.fileComment)
    requires (forall s :: s in st.sections ==> s.Lasts())
    requires !section.Owned? && (copy || !section.Outside?) && Lasting(comment)
    ensures var st2 := Ensure(st, section, comment, copy);
      && Sound(st2.pool, st2.Ids() + m) && Lasting(st2.fileComment) && (forall s :: s in st2.sections ==> s.Lasts())
      && Agree(st.pool, st2.pool, st.Ids() + IdsOpt(comment) + m)
      && st2.Rows() == EnsureSection(st.Rows(), section.Read(st.pool), ReadOpt(st.pool, comment))
  {
    hide Sound, Agree, Keep, InsertSec, IdsOpt, ReadOpt, Lasting, Ref.Ids, Ref.Read, InsertSection, SecIds;
    var held := st.Ids() + IdsOpt(comment) + m;
    if SectionIndex(ReadSecs(st.pool, st.sections), section.Read(st.pool)) < |st.sections| {
      assert held == st.Ids() + m + IdsOpt(comment);
      SoundPart(st.pool, st.Ids() + m, IdsOpt(comment));
      AgreeSelf(st.pool, held);
    } else {
      var (pool, name) := Keep(st.pool, section, copy);
      KeepOk(st.pool, section, copy, held);
      var s := Sec(name, comment, st.order + 1, []);
      InsertSecOk(pool, st.sections, s);
      AgreeParts(st.pool, pool, st.Ids() + IdsOpt(comment), m);
      AgreeParts(st.pool, pool, st.Ids(), IdsOpt(comment));
      AgreeParts(st.pool, pool, SecIds(st.sections), IdsOpt(st.fileComment));
      SecsAgree(st.pool, pool, st.sections);
      OptAgrees(st.pool, pool, comment);
      assert SlotIds([]) == multiset{};
      assert s.Ids() + SecIds(st.sections) + IdsOpt(st.fileComment) + m == held + name.Ids();
    }
  }

  /** The key is assigned in a section that exists. */
  ghost function Put(st: Store, section: string, key: Ref, value: Ref, comment: Option<Ref>, force: bool, copy: bool,
                     multiKey: bool): Store {
    var i := SectionIndex(ReadSecs(st.pool, st.sections), section);
    if i == |st.sections| then st
    else
      var (pool, qs) := AssignSlots(st.pool, st.sections[i].pairs, key, value, comment, st.order + 1, force, copy,
                                    multiKey);
      st.(pool := pool, sections := st.sections[i := st.sections[i].(pairs := qs)], order := st.order + 1)
  }

  ghost function KeepOpt(pool: Pool, r: Option<Ref>, copy: bool): (Pool, Option<Ref>) {
    if r.None? then (pool, r)
    else
      var (pool2, r2) := Keep(pool, r.value, copy);
      (pool2, Some(r2))
  }

  lemma KeepOptOk(pool: Pool, r: Option<Ref>, copy: bool, m: multiset<Id>)
    requires Sound(pool, m) && Arg(r, copy)
    ensures var (pool2, r2) := KeepOpt(pool, r, copy);
      Lasting(r2) && Sound(pool2, m + IdsOpt(r2)) && Agree(pool, pool2, m) && ReadOpt(pool2, r2) == ReadOpt(pool, r)
  {
    hide Sound, Agree, Keep, Ref.Read, Ref.Ids;
    if r.None? {
      assert m + IdsOpt(r) == m;
      AgreeSelf(pool, m);
    } else {
      KeepOk(pool, r.value, copy, m);
    }
  }

  /** The first half of AddEntry: the comment is copied if need be, and the section entry is created if there is none.
      A section alone takes the comment. */
  ghost function Begin(st: Store, section: Ref, comment: Option<Ref>, alone: bool, copy: bool): (Store, Option<Ref>) {
    var (pool, c) := KeepOpt(st.pool, comment, copy);
    (Ensure(st.(pool := pool), section, if alone then c else None, copy), c)
  }

  ghost function AddEntry(st: Store, section: Ref, key: Option<Ref>, value: Option<Ref>, comment: Option<Ref>,
                          force: bool, copy: bool, multiKey: bool): Store
  {
    var (st1, c) := Begin(st, section, comment, key.None?, copy);
    if key.None? then st1
    else Put(st1, section.Read(st.pool), key.value, if value.None? then Constant else value.value,
             c, force, copy, multiKey)
  }

  lemma EnsureHolds(st: Store, section: Ref, comment: Option<Ref>, copy: bool)
    requires !section.Owned?
    ensures var st1 := Ensure(st, section, comment, copy);
      && (|st1.sections| == |st.sections| ==> st1 == st)
      && (|st1.sections| != |st.sections| ==>
            exists s :: s in st1.sections && (copy ==> s.name.Owned?) && st1.pool.Keys == st.pool.Keys + Copies(s.name))
  {
    hide Ref.Read, ReadSecs, SectionIndex, Keep, InsertSec, Copies;
    var (pool, name) := Keep(st.pool, section, copy);
    var s := Sec(name, comment, st.order + 1, []);
    KeepHolds(st.pool, section, copy);
    CopiedName(st.pool, section, copy);
    SecInserted(pool, st.sections, s);
  }

  lemma CopiedName(pool: Pool, r: Ref, copy: bool)
    ensures copy ==> Keep(pool, r, copy).1.Owned?
  {
    KeepCopies(pool, r, copy);
  }

  lemma SecInserted(pool: Pool, ss: seq<Sec>, s: Sec)
    ensures s in InsertSec(pool, ss, s) && |InsertSec(pool, ss, s)| == |ss| + 1
  {
    hide Ref.Read, ReadSecs, Lower;
    var n := Lower(ReadSecs(pool, ss), s.name.Read(pool));
    assert InsertSec(pool, ss, s)[n] == s;
  }

  /** The first half makes a copy of the comment, whether or not it is used, and of the name of a new section. */
  lemma BeginHolds(st: Store, section: Ref, comment: Option<Ref>, alone: bool, copy: bool)
    requires Arg(Some(section), copy) && Arg(comment, copy)
    ensures var (st1, c) := Begin(st, section, comment, alone, copy);
      && (copy && comment.Some? ==> c.Some? && c.value.Owned?)
      && (|st1.sections| == |st.sections| ==>
            st1.sections == st.sections && st1.pool.Keys == st.pool.Keys + OptCopies(c))
      && (|st1.sections| != |st.sections| ==>
            exists s :: s in st1.sections && (copy ==> s.name.Owned?)
              && st1.pool.Keys == st.pool.Keys + OptCopies(c) + Copies(s.name))
  {
    hide Keep, Ensure, Copies;
    var (pool, c) := KeepOpt(st.pool, comment, copy);
    if comment.Some? {
      KeepHolds(st.pool, comment.value, copy);
      CopiedName(st.pool, comment.value, copy);
    }
    EnsureHolds(st.(pool := pool), section, if alone then c else None, copy);
  }

  // ---------- one section apart from the rest

  /** The ids outside the pairs of section i. */
  function Frame(st: Store, i: nat): multiset<Id>
    requires i < |st.sections|
  {
    st.sections[i].HeadIds() + SecIds(Others(st.sections, i)) + IdsOpt(st.fileComment)
  }

  /** Section i gets other pairs, in a pool that has kept every other string. */
  lemma NewPairsOk(st: Store, pool: Pool, i: nat, qs: seq<Slot>)
    requires i < |st.sections| && Safe(st) && (forall q :: q in qs ==> q.Lasts())
    requires Agree(st.pool, pool, Frame(st, i)) && Sound(pool, SlotIds(qs) + Frame(st, i))
    ensures var st2 := st.(pool := pool, sections := st.sections[i := st.sections[i].(pairs := qs)]);
      && Safe(st2) && ReadOpt(pool, st.fileComment) == ReadOpt(st.pool, st.fileComment)
      && st2.Rows() == Table(st.Rows().sections[i := st.Rows().sections[i].(pairs := ReadSlots(pool, qs))], st.order)
  {
    hide Sound, Agree, IdsOpt, ReadOpt, Lasting, Ref.Ids, Ref.Read, SecIds, SlotIds, Slot.Lasts;
    var ss := st.sections;
    var s2 := ss[i].(pairs := qs);
    AgreeParts(st.pool, pool, ss[i].HeadIds() + SecIds(Others(ss, i)), IdsOpt(st.fileComment));
    AgreeParts(st.pool, pool, ss[i].HeadIds(), SecIds(Others(ss, i)));
    OptAgrees(st.pool, pool, st.fileComment);
    SecAgrees(st.pool, pool, ss[i]);
    ReadAt(st.pool, pool, ss, i, s2);
    SecIdsAt(ss, i, s2);
    assert ss[i] in ss;
    assert SecIds(ss[i := s2]) + IdsOpt(st.fileComment) == SlotIds(qs) + Frame(st, i);
  }

  lemma IdsSplit(st: Store, i: nat)
    requires i < |st.sections|
    ensures st.Ids() == SlotIds(st.sections[i].pairs) + Frame(st, i)
  {
    hide SlotIds, SecIds, IdsOpt;
    var ss := st.sections;
    SecIdsAt(ss, i, ss[i]);
    assert ss[i := ss[i]] == ss;
  }

  lemma SafeAt(st: Store, i: nat)
    requires i < |st.sections| && Safe(st)
    ensures Sound(st.pool, SlotIds(st.sections[i].pairs) + Frame(st, i))
    ensures forall p :: p in st.sections[i].pairs ==> p.Lasts()
  {
    hide Sound, Slot.Lasts, SlotIds, SecIds, IdsOpt, Frame;
    IdsSplit(st, i);
    assert st.sections[i] in st.sections;
  }

  lemma {:induction false} SecOrders(t: Table, s: Section)
    requires Valid(t) && s in t.sections
    ensures forall p :: p in s.pairs ==> p.order <= t.order
  {
    hide SortedSections, AllApart, SortedPairs, Distinct;
    assert SectionOk(s, t.order);
    forall p | p in s.pairs ensures p.order <= t.order { assert p.order in OrderSet(s.pairs); }
  }

  lemma PutOk(st: Store, section: string, key: Ref, value: Ref, comment: Option<Ref>, force: bool, copy: bool,
              multiKey: bool)
    requires Sound(st.pool, st.Ids() + IdsOpt(comment)) && Lasting(st.fileComment)
    requires (forall s :: s in st.sections ==> s.Lasts())
    requires Valid(st.Rows()) && HasSection(st.Rows().sections, section)
    requires !key.Owned? && !value.Owned? && (copy || (!key.Outside? && !value.Outside?)) && Lasting(comment)
    ensures var st2 := Put(st, section, key, value, comment, force, copy, multiKey);
      && Safe(st2) && ReadOpt(st2.pool, st2.fileComment) == ReadOpt(st.pool, st.fileComment)
      && st2.Rows()
           == PutPair(st.Rows(), section, key.Read(st.pool), value.Read(st.pool), ReadOpt(st.pool, comment),
                       force, multiKey)
  {
    hide Sound, Agree, AssignSlots, IdsOpt, ReadOpt, Lasting, Ref.Ids, Ref.Read, Assign, Less, Fold, SecIds, SlotIds,
      Valid, Frame,
      Slot.Lasts, ReadSlots;
    var i := SectionIndex(st.Rows().sections, section);
    var ps := st.sections[i].pairs;
    var m := Frame(st, i);
    SoundPart(st.pool, st.Ids(), IdsOpt(comment));
    IdsSplit(st, i);
    SafeAt(st, i);
    assert st.Ids() + IdsOpt(comment) == SlotIds(ps) + IdsOpt(comment) + m;
    SlotOrders(st, i);
    AssignSlotsOk(st.pool, ps, key, value, comment, st.order + 1, force, copy, multiKey, m);
    var (pool, qs) := AssignSlots(st.pool, ps, key, value, comment, st.order + 1, force, copy, multiKey);
    NewPairsOk(st, pool, i, qs);
    NextOrder(st.(pool := pool, sections := st.sections[i := st.sections[i].(pairs := qs)]));
  }

  /** The counter has no strings. */
  lemma NextOrder(st: Store)
    requires Safe(st)
    ensures Safe(st.(order := st.order + 1))
  {
    hide Sound, Lasting, SecIds, IdsOpt, Sec.Lasts;
  }

  lemma SlotOrders(st: Store, i: nat)
    requires Valid(st.Rows()) && i < |st.sections|
    ensures forall p :: p in st.sections[i].pairs ==> p.order < st.order + 1
  {
    hide Valid, ReadOpt, Ref.Read;
    var s := st.Rows().sections[i];
    assert s in st.Rows().sections;
    SecOrders(st.Rows(), s);
    forall p | p in st.sections[i].pairs ensures p.order < st.order + 1 {
      var j :| 0 <= j < |st.sections[i].pairs| && st.sections[i].pairs[j] == p;
      assert s.pairs[j] in s.pairs;
    }
  }

  predicate Arg(r: Option<Ref>, copy: bool) { r.Some? ==> !r.value.Owned? && (copy || !r.value.Outside?) }

  lemma BeginOk(st: Store, section: Ref, comment: Option<Ref>, alone: bool, copy: bool)
    requires Safe(st) && Arg(Some(section), copy) && Arg(comment, copy)
    ensures var (st1, c) := Begin(st, section, comment, alone, copy);
      && Sound(st1.pool, st1.Ids() + IdsOpt(if alone then None else c))
      && Lasting(st1.fileComment) && (forall s :: s in st1.sections ==> s.Lasts()) && Lasting(c)
      && ReadOpt(st1.pool, st1.fileComment) == ReadOpt(st.pool, st.fileComment)
      && (!alone ==> ReadOpt(st1.pool, c) == ReadOpt(st.pool, comment))
      && st1.Rows()
           == EnsureSection(st.Rows(), section.Read(st.pool), if alone then ReadOpt(st.pool, comment) else None)
      && st1.loaded == st.loaded
  {
    hide Sound, Agree, KeepOpt, Ensure, IdsOpt, ReadOpt, Lasting, Ref.Ids, Ref.Read, EnsureSection, SecIds, ReadSecs;
    var (pool, c) := KeepOpt(st.pool, comment, copy);
    KeepOptOk(st.pool, comment, copy, st.Ids());
    var st0 := st.(pool := pool);
    AgreeParts(st.pool, pool, SecIds(st.sections), IdsOpt(st.fileComment));
    SecsAgree(st.pool, pool, st.sections);
    OptAgrees(st.pool, pool, st.fileComment);
    NotOwnedReads(st.pool, pool, section);
    NoIds();
    var c1 := if alone then c else None;
    var m := IdsOpt(if alone then None else c);
    assert st0.Ids() + IdsOpt(c1) + m == st.Ids() + IdsOpt(c);
    EnsureOk(st0, section, c1, copy, m);
    var st1 := Ensure(st0, section, c1, copy);
    SameComment(st0, section, c1, copy);
    AgreeParts(pool, st1.pool, st0.Ids() + IdsOpt(c1), m);
    AgreeParts(pool, st1.pool, st0.Ids(), IdsOpt(c1));
    AgreeParts(pool, st1.pool, SecIds(st0.sections), IdsOpt(st0.fileComment));
    OptAgrees(pool, st1.pool, st0.fileComment);
    if !alone { OptAgrees(pool, st1.pool, c); }
  }

  lemma NoIds()
    ensures IdsOpt(None) == multiset{} && Lasting(None) && forall pool :: ReadOpt(pool, None) == None
  {
  }

  lemma SameComment(st: Store, section: Ref, comment: Option<Ref>, copy: bool)
    ensures var st1 := Ensure(st, section, comment, copy); st1.fileComment == st.fileComment && st1.loaded == st.loaded
  {
    hide SectionIndex, Keep, InsertSec;
  }

  /** AddEntry through pointers, on arguments that are not strings of the object: no pointer is left dangling or shared,
      and what the pointers read is the table with the entry added. */
  lemma AddEntryOk(st: Store, section: Ref, key: Option<Ref>, value: Option<Ref>, comment: Option<Ref>, force: bool,
                   copy: bool, multiKey: bool)
    requires Safe(st) && Valid(st.Rows())
    requires Arg(Some(section), copy) && Arg(key, copy) && Arg(value, copy) && Arg(comment, copy)
    ensures var st2 := AddEntry(st, section, key, value, comment, force, copy, multiKey);
      var x := Entry(section.Read(st.pool), ReadOpt(st.pool, key), ReadOpt(st.pool, value), ReadOpt(st.pool, comment));
      && Safe(st2) && Valid(st2.Rows()) && st2.loaded == st.loaded
      && st2.Read() == Ini(ReadOpt(st.pool, st.fileComment), Add(st.Rows(), x, force, multiKey))
  {
    hide Sound, Agree, Begin, Put, Lasting, Ref.Ids, Ref.Read, EnsureSection, PutPair, Valid, SecIds, ReadSecs,
      HasSection, Sec.Lasts;
    var x := Entry(section.Read(st.pool), ReadOpt(st.pool, key), ReadOpt(st.pool, value), ReadOpt(st.pool, comment));
    AddKeepsValid(st.Rows(), x, force, multiKey);
    BeginOk(st, section, comment, key.None?, copy);
    var (st1, c) := Begin(st, section, comment, key.None?, copy);
    if key.None? {
      assert st1.Ids() + IdsOpt(None) == st1.Ids();
    } else {
      var v := if value.None? then Constant else value.value;
      EnsureKeepsValid(st.Rows(), x.section, None);
      EnsureHas(st.Rows(), x.section, None);
      NotOwnedReads(st.pool, st1.pool, key.value);
      NotOwnedReads(st.pool, st1.pool, v);
      EmptyReads(st.pool);
      PutOk(st1, x.section, key.value, v, c, force, copy, multiKey);
      PutKeeps(st1, x.section, key.value, v, c, force, copy, multiKey);
    }
  }

  lemma EmptyReads(pool: Pool)
    ensures Constant.Read(pool) == ""
  {
  }

  lemma PutKeeps(st: Store, section: string, key: Ref, value: Ref, comment: Option<Ref>, force: bool, copy: bool,
                 multiKey: bool)
    ensures Put(st, section, key, value, comment, force, copy, multiKey).loaded == st.loaded
  {
    hide AssignSlots, SectionIndex;
  }

  // ---------- DeleteValue

  /** The section at position i is removed; the strings of its keys and values are gone already. */
  function RemoveSec(st: Store, pool: Pool, i: nat): Store
    requires i < |st.sections|
  {
    st.(pool := Drop(pool, st.sections[i].name), sections := Others(st.sections, i))
  }

  function DeleteValue(st: Store, section: string, key: Option<string>, value: Option<string>,
                       removeEmpty: bool): (Store, bool) {
    var i := SectionIndex(ReadSecs(st.pool, st.sections), section);
    if i == |st.sections| then (st, false)
    else
      var ps := st.sections[i].pairs;
      if key.None? then (RemoveSec(st, DropSlots(st.pool, ps), i), true)
      else
        var (pool, qs) := Erase(st.pool, ps, key.value, value);
        if |qs| == |ps| then (st, false)
        else if !removeEmpty || qs != [] then
          (st.(pool := pool, sections := st.sections[i := st.sections[i].(pairs := qs)]), true)
        else (RemoveSec(st, pool, i), true)
  }

  lemma RemoveSecOk(st: Store, pool: Pool, i: nat)
    requires i < |st.sections| && Safe(st) && Agree(st.pool, pool, Frame(st, i)) && Sound(pool, Frame(st, i))
    ensures var st2 := RemoveSec(st, pool, i);
      && Safe(st2) && ReadOpt(st2.pool, st.fileComment) == ReadOpt(st.pool, st.fileComment)
      && st2.Rows() == Table(st.Rows().sections[..i] + st.Rows().sections[i + 1..], st.order)
  {
    hide Sound, Agree, IdsOpt, ReadOpt, Lasting, Ref.Ids, Ref.Read, SecIds, SlotIds, Drop, Sec.Lasts;
    var ss := st.sections;
    var rest := SecIds(Others(ss, i)) + IdsOpt(st.fileComment);
    assert Frame(st, i) == rest + ss[i].name.Ids() + IdsOpt(ss[i].comment);
    SoundPart(pool, rest + ss[i].name.Ids(), IdsOpt(ss[i].comment));
    DropOk(pool, ss[i].name, rest);
    var pool2 := Drop(pool, ss[i].name);
    AgreeLess(st.pool, pool, Frame(st, i), rest);
    AgreeThrough(st.pool, pool, pool2, rest);
    AgreeParts(st.pool, pool2, SecIds(Others(ss, i)), IdsOpt(st.fileComment));
    OptAgrees(st.pool, pool2, st.fileComment);
    ReadAt(st.pool, pool2, ss, i, ss[i]);
  }

  /** DeleteValue through pointers: what it deletes no other slot reads, and what the pointers read is the table
      after the deletion. */
  lemma DeleteValueOk(st: Store, section: string, key: Option<string>, value: Option<string>, removeEmpty: bool)
    requires Safe(st) && Valid(st.Rows())
    ensures var (st2, done) := DeleteValue(st, section, key, value, removeEmpty);
      && Safe(st2) && Valid(st2.Rows()) && st2.loaded == st.loaded
      && (st2.Rows(), done) == Delete(st.Rows(), section, key, value, removeEmpty)
      && ReadOpt(st2.pool, st2.fileComment) == ReadOpt(st.pool, st.fileComment)
  {
    hide Sound, Agree, IdsOpt, ReadOpt, Lasting, Ref.Ids, Ref.Read, SecIds, SlotIds, Erase, DropSlots, RemoveSec,
      Without, Valid, Less, Fold,
      Sec.Lasts, Slot.Lasts, Frame, ReadSlots;
    DeleteKeepsValid(st.Rows(), section, key, value, removeEmpty);
    var i := SectionIndex(ReadSecs(st.pool, st.sections), section);
    if i < |st.sections| {
      var ps := st.sections[i].pairs;
      SafeAt(st, i);
      if key.None? {
        DropSlotsOk(st.pool, ps, Frame(st, i));
        RemoveSecOk(st, DropSlots(st.pool, ps), i);
        RemovedKeeps(st, DropSlots(st.pool, ps), i);
      } else {
        var (pool, qs) := Erase(st.pool, ps, key.value, value);
        EraseOk(st.pool, ps, key.value, value, Frame(st, i));
        SlotCount(st.pool, pool, ps, qs);
        AgreeParts(st.pool, pool, SlotIds(qs), Frame(st, i));
        if |qs| != |ps| {
          if !removeEmpty || qs != [] {
            NewPairsOk(st, pool, i, qs);
          } else {
            SoundPart(pool, SlotIds(qs), Frame(st, i));
            RemoveSecOk(st, pool, i);
            RemovedKeeps(st, pool, i);
          }
        }
      }
    }
  }

  /** The copies that DeleteValue deletes are those of key and value of every pair that goes and, if the section goes,
      of its name. Comments stay in the pool until the object is reset. */
  lemma DeleteValueFrees(st: Store, section: string, key: Option<string>, value: Option<string>, removeEmpty: bool)
    requires Safe(st)
    ensures var (st2, done) := DeleteValue(st, section, key, value, removeEmpty);
      var i := SectionIndex(ReadSecs(st.pool, st.sections), section);
      if !done then st2.pool == st.pool
      else
        && i < |st.sections|
        && var s := st.sections[i];
           st2.pool.Keys == st.pool.Keys
             - (if key.None? then Held(s.pairs) else Removed(st.pool, s.pairs, key.value, value))
             - (if |st2.sections| < |st.sections| then Copies(s.name) else {})
  {
    hide Sound, IdsOpt, Lasting, Ref.Ids, Ref.Read, SecIds, SlotIds, Erase, DropSlots, Frame, ReadSecs, Removed, Held;
    var i := SectionIndex(ReadSecs(st.pool, st.sections), section);
    if i < |st.sections| {
      SafeAt(st, i);
      var ps := st.sections[i].pairs;
      if key.None? { DropSlotsFrees(st.pool, ps); } else { EraseFrees(st.pool, ps, key.value, value, Frame(st, i)); }
    }
  }

  lemma SlotCount(a: Pool, b: Pool, ps: seq<Slot>, qs: seq<Slot>)
    ensures |ReadSlots(a, ps)| == |ps| && |ReadSlots(b, qs)| == |qs|
  {
  }

  lemma RemovedKeeps(st: Store, pool: Pool, i: nat)
    requires i < |st.sections|
    ensures RemoveSec(st, pool, i).loaded == st.loaded && RemoveSec(st, pool, i).fileComment == st.fileComment
  {
  }

  // ---------- LoadData

  /** A string the loader found: it stands in the new block, which is kept only if none was kept before. */
  function Lend(text: string, copy: bool): Ref { if copy then Outside(text) else InBlock(text) }

  function LendOpt(text: Option<string>, copy: bool): Option<Ref> {
    if text.Some? then Some(Lend(text.value, copy)) else None
  }

  ghost function AddEntries(st: Store, xs: seq<Entry>, copy: bool, multiKey: bool): Store
    decreases |xs|
  {
    if xs == [] then st
    else
      var x := xs[0];
      AddEntries(AddEntry(st, Lend(x.section, copy), LendOpt(x.key, copy), LendOpt(x.value, copy),
                          LendOpt(x.comment, copy), false, copy, multiKey),
                 xs[1..], copy, multiKey)
  }

  /** FindFileComment: there is only one file comment. */
  ghost function TakeComment(st: Store, comment: Option<string>, copy: bool): Store {
    if st.fileComment.Some? then st
    else
      var (pool, c) := KeepOpt(st.pool, LendOpt(comment, copy), copy);
      st.(pool := pool, fileComment := c)
  }

  /** LoadData: without text nothing happens; the first block is kept, and what is loaded later is copied. */
  ghost function LoadData(st: Store, text: string, o: Options): Store {
    if (if BOM <= text then text[3..] else text) == "" then st
    else
      var st1 := TakeComment(st, FileComment(Received(text)), st.loaded);
      AddEntries(st1, EntriesFor(st.Read(), text, o).entries, st.loaded, o.multiKey).(loaded := true)
  }

  lemma NotKept(pool: Pool, r: Ref)
    ensures Keep(pool, r, false) == (pool, r) && KeepOpt(pool, Some(r), false) == (pool, Some(r))
  {
  }

  /** Strings of the block are not copied. */
  lemma AddedWithoutCopies(st: Store, section: Ref, key: Option<Ref>, value: Option<Ref>, comment: Option<Ref>,
                           multiKey: bool)
    ensures AddEntry(st, section, key, value, comment, false, false, multiKey).pool == st.pool
  {
    hide Ref.Read, ReadSecs, SectionIndex, InsertSec, AssignSlots, Keep;
    NotKept(st.pool, section);
    if comment.Some? { NotKept(st.pool, comment.value); }
    var (st1, c) := Begin(st, section, comment, key.None?, false);
    assert st1.pool == st.pool;
    if key.Some? {
      var v := if value.None? then Constant else value.value;
      var i := SectionIndex(ReadSecs(st1.pool, st1.sections), section.Read(st.pool));
      if i < |st1.sections| {
        AssignedWithoutCopies(st1.pool, st1.sections[i].pairs, key.value, v, c, st1.order + 1, multiKey);
      }
    }
  }

  lemma AssignedWithoutCopies(pool: Pool, ps: seq<Slot>, key: Ref, value: Ref, comment: Option<Ref>, order: int,
                              multiKey: bool)
    ensures AssignSlots(pool, ps, key, value, comment, order, false, false, multiKey).0 == pool
  {
    hide Ref.Read, InsertSlot, KeyIndex, ReadSlots, Keep;
    NotKept(pool, key);
    NotKept(pool, value);
  }

  lemma {:induction false} AddedFromBlock(st: Store, xs: seq<Entry>, multiKey: bool)
    ensures AddEntries(st, xs, false, multiKey).pool == st.pool
    decreases |xs|
  {
    hide AddEntry;
    if xs != [] {
      var x := xs[0];
      AddedWithoutCopies(st, Lend(x.section, false), LendOpt(x.key, false), LendOpt(x.value, false),
                         LendOpt(x.comment, false), multiKey);
      AddedFromBlock(AddEntry(st, Lend(x.section, false), LendOpt(x.key, false), LendOpt(x.value, false),
                              LendOpt(x.comment, false), false, false, multiKey), xs[1..], multiKey);
    }
  }

  /** The first text that is loaded is kept as a block, and no string of it is copied. */
  lemma FirstBlockIsShared(st: Store, text: string, o: Options)
    requires !st.loaded
    ensures LoadData(st, text, o).pool == st.pool
    ensures text != "" && !("\U{EF}\U{BB}\U{BF}" <= text) ==> LoadData(st, text, o).loaded
  {
    hide AddEntries, EntriesFor, FileComment, Received, ReadSecs;
    var st1 := TakeComment(st, FileComment(Received(text)), false);
    AddedFromBlock(st1, EntriesFor(st.Read(), text, o).entries, o.multiKey);
  }

  lemma LendReads(pool: Pool, text: Option<string>, copy: bool)
    ensures Arg(LendOpt(text, copy), copy) && ReadOpt(pool, LendOpt(text, copy)) == text
  {
  }

  lemma {:induction false} AddEntriesOk(st: Store, xs: seq<Entry>, copy: bool, multiKey: bool)
    requires Safe(st) && Valid(st.Rows())
    ensures var st2 := AddEntries(st, xs, copy, multiKey);
      && Safe(st2) && Valid(st2.Rows())
      && st2.Read() == Ini(ReadOpt(st.pool, st.fileComment), AddAll(st.Rows(), xs, multiKey))
    decreases |xs|
  {
    hide Safe, Valid, Add, AddEntry, ReadSecs, ReadOpt, Arg, LendOpt;
    if xs != [] {
      var x := xs[0];
      LendReads(st.pool, Some(x.section), copy);
      LendReads(st.pool, x.key, copy);
      LendReads(st.pool, x.value, copy);
      LendReads(st.pool, x.comment, copy);
      OneLent(st.pool, x.section, copy);
      AddEntryOk(st, Lend(x.section, copy), LendOpt(x.key, copy), LendOpt(x.value, copy), LendOpt(x.comment, copy),
                 false, copy, multiKey);
      var st1 := AddEntry(st, Lend(x.section, copy), LendOpt(x.key, copy), LendOpt(x.value, copy),
                          LendOpt(x.comment, copy), false, copy, multiKey);
      assert x == Entry(x.section, x.key, x.value, x.comment);
      AddEntriesOk(st1, xs[1..], copy, multiKey);
    }
  }

  lemma OneLent(pool: Pool, text: string, copy: bool)
    ensures LendOpt(Some(text), copy) == Some(Lend(text, copy)) && Lend(text, copy).Read(pool) == text
  {
  }

  lemma TakeCommentOk(st: Store, comment: Option<string>, copy: bool)
    requires Safe(st)
    ensures var st1 := TakeComment(st, comment, copy);
      && Safe(st1) && st1.Rows() == st.Rows()
      && ReadOpt(st1.pool, st1.fileComment)
           == if st.fileComment.Some? then ReadOpt(st.pool, st.fileComment) else comment
  {
    hide Sound, Agree, KeepOpt, IdsOpt, ReadOpt, Lasting, SecIds, ReadSecs, Sec.Lasts, LendOpt, Arg;
    if st.fileComment.None? {
      NoIds();
      var (pool, c) := KeepOpt(st.pool, LendOpt(comment, copy), copy);
      LendReads(st.pool, comment, copy);
      assert st.Ids() == SecIds(st.sections);
      KeepOptOk(st.pool, LendOpt(comment, copy), copy, st.Ids());
      SecsAgree(st.pool, pool, st.sections);
    }
  }

  /** LoadData through pointers, on a text that is read through: behind an unclosed header the source goes on,
      which this model does not follow. */
  lemma LoadDataOk(st: Store, text: string, o: Options)
    requires Safe(st) && Valid(st.Rows()) && EntriesFor(st.Read(), text, o).complete
    ensures var st2 := LoadData(st, text, o);
      Safe(st2) && Valid(st2.Rows()) && st2.Read() == LoadInto(st.Read(), text, o)
  {
    hide Sound, Valid, AddAll, AddEntries, TakeComment, Parse, ReadSecs, CommentBlock, Received, FileComment, SecIds,
      IdsOpt;
    if (if BOM <= text then text[3..] else text) == "" {
      IniStore.NothingReceived(text, st.Rows(), o);
      NothingAdded(st, text, o);
    } else {
      TakeCommentOk(st, FileComment(Received(text)), st.loaded);
      var st1 := TakeComment(st, FileComment(Received(text)), st.loaded);
      AddEntriesOk(st1, EntriesFor(st.Read(), text, o).entries, st.loaded, o.multiKey);
    }
  }

  lemma NothingAdded(st: Store, text: string, o: Options)
    requires Received(text) == "" && FileComment("") == None && Body("") == ""
    requires Parse("", "", None, o) == Parsed([], true)
    requires AddAll(st.Rows(), [], o.multiKey) == st.Rows()
    ensures LoadInto(st.Read(), text, o) == st.Read()
  {
    hide Parse, AddAll, FileComment, Body, Received;
  }

  // ---------- whole runs

  /** A call of the object; the strings given are the caller's. */
  datatype Call =
    | Load(text: string, options: Options)
    | SetValue(section: string, key: Option<string>, value: Option<string>, comment: Option<string>,
               force: bool, multiKey: bool)
    | Remove(section: string, key: Option<string>, value: Option<string>, removeEmpty: bool)
    | Reset

  /** What a call does to the strings and pointers. */
  ghost function Perform(st: Store, c: Call): Store {
    match c
    case Load(text, o) => LoadData(st, text, o)
    case SetValue(section, key, value, comment, force, multiKey) =>
      AddEntry(st, Lend(section, true), LendOpt(key, true), LendOpt(value, true), LendOpt(comment, true),
               force, true, multiKey)
    case Remove(section, key, value, removeEmpty) => DeleteValue(st, section, key, value, removeEmpty).0
    case Reset => NEW.(order := st.order)
  }

  /** What a call does to the table of values. */
  function Meaning(ini: Ini, c: Call): Ini {
    match c
    case Load(text, o) => LoadInto(ini, text, o)
    case SetValue(section, key, value, comment, force, multiKey) =>
      ini.(table := Add(ini.table, Entry(section, key, value, comment), force, multiKey))
    case Remove(section, key, value, removeEmpty) =>
      ini.(table := Delete(ini.table, section, key, value, removeEmpty).0)
    case Reset => Ini(None, Table([], ini.table.order))
  }

  ghost function PerformAll(st: Store, cs: seq<Call>): Store
    decreases |cs|
  {
    if cs == [] then st else PerformAll(Perform(st, cs[0]), cs[1..])
  }

  function MeaningAll(ini: Ini, cs: seq<Call>): Ini
    decreases |cs|
  {
    if cs == [] then ini else MeaningAll(Meaning(ini, cs[0]), cs[1..])
  }

  /** Every text that is loaded on the way is read through to its end: no header is left open, and no here-document is
      closed by its first line. */
  predicate ReadThrough(ini: Ini, cs: seq<Call>)
    decreases |cs|
  {
    cs != [] ==> LoadsWhole(ini, cs[0]) && ReadThrough(Meaning(ini, cs[0]), cs[1..])
  }

  predicate LoadsWhole(ini: Ini, c: Call) { c.Load? ==> EntriesFor(ini, c.text, c.options).complete }

  lemma PerformOk(st: Store, c: Call)
    requires Safe(st) && Valid(st.Rows()) && LoadsWhole(st.Read(), c)
    ensures var st2 := Perform(st, c); Safe(st2) && Valid(st2.Rows()) && st2.Read() == Meaning(st.Read(), c)
  {
    hide Safe, Valid, Add, AddEntry, ReadSecs, ReadOpt, Arg, LendOpt, LoadData, LoadInto, DeleteValue, Delete;
    match c
    case Load(text, o) => LoadDataOk(st, text, o);
    case SetValue(section, key, value, comment, force, multiKey) =>
      LendReads(st.pool, Some(section), true);
      LendReads(st.pool, key, true);
      LendReads(st.pool, value, true);
      LendReads(st.pool, comment, true);
      OneLent(st.pool, section, true);
      AddEntryOk(st, Lend(section, true), LendOpt(key, true), LendOpt(value, true), LendOpt(comment, true), force, true,
                 multiKey);
    case Remove(section, key, value, removeEmpty) => DeleteValueOk(st, section, key, value, removeEmpty);
    case Reset => EmptyOk(st.order);
  }

  lemma EmptyOk(order: int)
    ensures var st := NEW.(order := order); Safe(st) && Valid(st.Rows()) && st.Read() == Ini(None, Table([], order))
  {
  }

  /** Over every run of loading, setting, deleting and resetting whose texts are read through:
      every string that the object points to lies in its block,
      is the empty string, or is a live copy that no other slot points to; and what it reads through its pointers
      is the table of values after the same run. */
  lemma {:induction false} StringsOwned(st: Store, cs: seq<Call>)
    requires Safe(st) && Valid(st.Rows()) && ReadThrough(st.Read(), cs)
    ensures var st2 := PerformAll(st, cs); Safe(st2) && Valid(st2.Rows()) && st2.Read() == MeaningAll(st.Read(), cs)
    decreases |cs|
  {
    hide Safe, Valid, Perform, Meaning, Store.Read, Store.Rows, LoadsWhole;
    if cs != [] {
      PerformOk(st, cs[0]);
      StringsOwned(Perform(st, cs[0]), cs[1..]);
    }
  }

  lemma RunsFromNew(cs: seq<Call>)
    requires ReadThrough(FRESH, cs)
    ensures var st := PerformAll(NEW, cs); Safe(st) && st.Read() == MeaningAll(FRESH, cs)
  {
    hide PerformAll, MeaningAll, ReadThrough;
    EmptyOk(0);
    StringsOwned(NEW, cs);
  }
}
