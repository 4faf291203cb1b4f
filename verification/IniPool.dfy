/**
 * Who owns the strings of the INI object. The table holds pointers: into the loaded block, to the constant
 * empty string, or to copies that live in a pool. Read through its pointers it is the table of IniTable,
 * as long as no pointer dangles and no two slots share a copy.
 */
module IniPool {
  import opened Basics
  import opened IniOrder
  import opened IniTable

  type Id = nat
  type Pool = map<Id, string>

  /** A pointer to a string: in the loaded block, the constant empty string, a copy in the pool, or memory that belongs
      to the caller and may be gone after the call. What block and caller hold does not change while it is looked at. */
  datatype Ref = InBlock(text: string) | Constant | Owned(id: Id) | Outside(text: string) {
    /** What the pointer reads. */
    function Read(pool: Pool): string {
      match this
      case InBlock(t) => t
      case Constant => ""
      case Owned(i) => if i in pool then pool[i] else ""
      case Outside(t) => t
    }

    function Ids(): multiset<Id> { if Owned? then multiset{id} else multiset{} }
  }

  function IdsOpt(r: Option<Ref>): multiset<Id> { if r.Some? then r.value.Ids() else multiset{} }

  function ReadOpt(pool: Pool, r: Option<Ref>): Option<string> { if r.Some? then Some(r.value.Read(pool)) else None }

  predicate Lasting(r: Option<Ref>) { r.Some? ==> !r.value.Outside? }

  datatype Slot = Slot(key: Ref, comment: Option<Ref>, order: int, value: Ref) {
    function Read(pool: Pool): Pair { Pair(key.Read(pool), ReadOpt(pool, comment), order, value.Read(pool)) }

    function Ids(): multiset<Id> { key.Ids() + IdsOpt(comment) + value.Ids() }

    predicate Lasts() { !key.Outside? && Lasting(comment) && !value.Outside? }
  }

  function ReadSlots(pool: Pool, ps: seq<Slot>): (r: seq<Pair>)
    ensures |r| == |ps| && forall i :: 0 <= i < |ps| ==> r[i] == ps[i].Read(pool)
  {
    if ps == [] then [] else [ps[0].Read(pool)] + ReadSlots(pool, ps[1..])
  }

  function SlotIds(ps: seq<Slot>): multiset<Id> {
    if ps == [] then multiset{} else ps[0].Ids() + SlotIds(ps[1..])
  }

  // ---------- the pool

  /** Every id in m is in the pool, and occurs once: no pointer dangles, and none is shared. */
  ghost predicate Sound(pool: Pool, m: multiset<Id>) { forall i :: i in m ==> m[i] == 1 && i in pool }

  ghost predicate Agree(a: Pool, b: Pool, m: multiset<Id>) { forall i :: i in m ==> i in a && i in b && a[i] == b[i] }

  /** The allocator hands out any address that is not in use. */
  ghost function Fresh(pool: Pool): (i: Id)
    ensures i !in pool
  {
    NotAll(pool.Keys);
    var i: Id :| i !in pool; i
  }

  lemma NotAll(s: set<Id>)
    ensures exists i: Id :: i !in s
  {
    var bound := Above(s);
    assert bound !in s;
  }

  ghost function Above(s: set<Id>): (b: nat)
    ensures forall i :: i in s ==> i < b
  {
    if s == {} then 0 else
      var x :| x in s;
      var b := Above(s - {x});
      assert forall i :: i in s ==> i == x || i in s - {x};
      if x < b then b else x + 1
  }

  /** CopyString. */
  ghost function Copy(pool: Pool, text: string): (Pool, Ref) {
    var i := Fresh(pool);
    (pool[i := text], Owned(i))
  }

  /** The copies that a pointer leads to. */
  function Copies(r: Ref): set<Id> { if r.Owned? then {r.id} else {} }

  /** DeleteString: only copies are deleted. */
  function Drop(pool: Pool, r: Ref): Pool { if r.Owned? then pool - {r.id} else pool }

  lemma CopyOk(pool: Pool, text: string, m: multiset<Id>)
    requires Sound(pool, m)
    ensures var (pool2, r) := Copy(pool, text);
      r.Owned? && Sound(pool2, m + r.Ids()) && Agree(pool, pool2, m) && r.Read(pool2) == text
  {
  }

  lemma DropOk(pool: Pool, r: Ref, m: multiset<Id>)
    requires Sound(pool, m + r.Ids())
    ensures Sound(Drop(pool, r), m) && Agree(pool, Drop(pool, r), m)
    ensures Drop(pool, r).Keys == pool.Keys - Copies(r)
  {
    var all := m + r.Ids();
    forall i | i in m ensures m[i] == 1 && i in pool && (r.Owned? ==> i != r.id) {
      assert i in all && all[i] == m[i] + r.Ids()[i];
    }
  }

  /** A text that is copied goes to a place of its own, whatever the pointer was; one that is not stays where it is. */
  lemma KeepCopies(pool: Pool, r: Ref, copy: bool)
    ensures var (pool2, r2) := Keep(pool, r, copy);
      if copy then r2.Owned? && r2.id !in pool && pool2 == pool[r2.id := r.Read(pool)] else pool2 == pool && r2 == r
  {
  }

  lemma SoundPart(pool: Pool, m: multiset<Id>, n: multiset<Id>)
    requires Sound(pool, m + n)
    ensures Sound(pool, m) && Sound(pool, n)
  {
    forall i | i in m + n ensures (m + n)[i] == m[i] + n[i] { }
    forall i | i in m ensures m[i] == 1 && i in pool { assert i in m + n; }
    forall i | i in n ensures n[i] == 1 && i in pool { assert i in m + n; }
  }

  lemma AgreeParts(a: Pool, b: Pool, m: multiset<Id>, n: multiset<Id>)
    ensures Agree(a, b, m + n) <==> Agree(a, b, m) && Agree(a, b, n)
  {
    assert forall i :: i in m + n <==> i in m || i in n;
  }

  lemma AgreeThrough(a: Pool, b: Pool, c: Pool, m: multiset<Id>)
    requires Agree(a, b, m) && Agree(b, c, m)
    ensures Agree(a, c, m)
  {
  }

  lemma OptAgrees(a: Pool, b: Pool, r: Option<Ref>)
    requires Agree(a, b, IdsOpt(r))
    ensures ReadOpt(a, r) == ReadOpt(b, r)
  {
    if r.Some? && r.value.Owned? { assert r.value.id in IdsOpt(r); }
  }

  lemma SlotAgrees(a: Pool, b: Pool, p: Slot)
    requires Agree(a, b, p.Ids())
    ensures p.Read(a) == p.Read(b)
  {
    hide Agree, ReadOpt, IdsOpt;
    AgreeParts(a, b, p.key.Ids() + IdsOpt(p.comment), p.value.Ids());
    AgreeParts(a, b, p.key.Ids(), IdsOpt(p.comment));
    RefAgrees(a, b, p.key);
    RefAgrees(a, b, p.value);
    OptAgrees(a, b, p.comment);
  }

  lemma RefAgrees(a: Pool, b: Pool, r: Ref)
    requires Agree(a, b, r.Ids())
    ensures r.Read(a) == r.Read(b)
  {
    if r.Owned? { assert r.id in r.Ids(); }
  }

  lemma {:induction false} SlotsAgree(a: Pool, b: Pool, ps: seq<Slot>)
    requires Agree(a, b, SlotIds(ps))
    ensures ReadSlots(a, ps) == ReadSlots(b, ps)
  {
    hide Agree, Slot.Read, Slot.Ids;
    if ps != [] {
      AgreeParts(a, b, ps[0].Ids(), SlotIds(ps[1..]));
      SlotAgrees(a, b, ps[0]);
      SlotsAgree(a, b, ps[1..]);
    }
  }

  lemma {:induction false} SlotIdsAppend(ps: seq<Slot>, qs: seq<Slot>)
    ensures SlotIds(ps + qs) == SlotIds(ps) + SlotIds(qs)
  {
    hide Slot.Ids;
    if ps == [] {
      assert ps + qs == qs;
    } else {
      SlotIdsAppend(ps[1..], qs);
      assert (ps + qs)[1..] == ps[1..] + qs;
      assert ps[0].Ids() + (SlotIds(ps[1..]) + SlotIds(qs)) == ps[0].Ids() + SlotIds(ps[1..]) + SlotIds(qs);
    }
  }

  // ---------- deleting pairs

  /** The loop of DeleteValue: key and value of each removed pair are deleted. */
  function Erase(pool: Pool, ps: seq<Slot>, key: string, value: Option<string>): (Pool, seq<Slot>)
    decreases |ps|
  {
    if ps == [] then (pool, [])
    else if Removes(ps[0].Read(pool), key, value) then
      Erase(Drop(Drop(pool, ps[0].key), ps[0].value), ps[1..], key, value)
    else
      var (pool2, rest) := Erase(pool, ps[1..], key, value);
      (pool2, [ps[0]] + rest)
  }

  /** Key and value of every pair are deleted. */
  function DropSlots(pool: Pool, ps: seq<Slot>): Pool
    decreases |ps|
  {
    if ps == [] then pool else DropSlots(Drop(Drop(pool, ps[0].key), ps[0].value), ps[1..])
  }

  /** The copies of keys and values of the pairs that the loop removes. */
  function Removed(pool: Pool, ps: seq<Slot>, key: string, value: Option<string>): set<Id> {
    if ps == [] then {}
    else (if Removes(ps[0].Read(pool), key, value) then Copies(ps[0].key) + Copies(ps[0].value) else {})
         + Removed(pool, ps[1..], key, value)
  }

  function Held(ps: seq<Slot>): set<Id> {
    if ps == [] then {} else Copies(ps[0].key) + Copies(ps[0].value) + Held(ps[1..])
  }

  lemma {:induction false} RemovedAgree(a: Pool, b: Pool, ps: seq<Slot>, key: string, value: Option<string>)
    requires Agree(a, b, SlotIds(ps))
    ensures Removed(a, ps, key, value) == Removed(b, ps, key, value)
  {
    hide Agree, Slot.Read, Slot.Ids, Removes, Copies;
    if ps != [] {
      AgreeParts(a, b, ps[0].Ids(), SlotIds(ps[1..]));
      SlotAgrees(a, b, ps[0]);
      RemovedAgree(a, b, ps[1..], key, value);
    }
  }

  /** The loop deletes the copies of key and value of every pair it removes, and no other copy. */
  lemma {:induction false} EraseFrees(pool: Pool, ps: seq<Slot>, key: string, value: Option<string>, m: multiset<Id>)
    requires Sound(pool, SlotIds(ps) + m)
    ensures Erase(pool, ps, key, value).0.Keys == pool.Keys - Removed(pool, ps, key, value)
    decreases |ps|
  {
    hide Sound, Agree, Removes, Slot.Ids, Slot.Read;
    if ps != [] {
      var p, rest := ps[0], ps[1..];
      assert SlotIds(ps) + m == p.Ids() + (SlotIds(rest) + m);
      assert p.Ids() + (SlotIds(rest) + m) == SlotIds(rest) + (p.Ids() + m);
      if Removes(p.Read(pool), key, value) {
        var pool1 := Drop(Drop(pool, p.key), p.value);
        DropSlotOk(pool, p, SlotIds(rest) + m);
        AgreeParts(pool, pool1, SlotIds(rest), m);
        RemovedAgree(pool, pool1, rest, key, value);
        EraseFrees(pool1, rest, key, value, m);
      } else {
        EraseFrees(pool, rest, key, value, p.Ids() + m);
      }
    }
  }

  lemma {:induction false} DropSlotsFrees(pool: Pool, ps: seq<Slot>)
    ensures DropSlots(pool, ps).Keys == pool.Keys - Held(ps)
    decreases |ps|
  {
    if ps != [] { DropSlotsFrees(Drop(Drop(pool, ps[0].key), ps[0].value), ps[1..]); }
  }

  lemma DropSlotOk(pool: Pool, p: Slot, m: multiset<Id>)
    requires Sound(pool, p.Ids() + m)
    ensures var pool2 := Drop(Drop(pool, p.key), p.value); Sound(pool2, m) && Agree(pool, pool2, m)
  {
    hide Sound, Drop, Agree, IdsOpt, Ref.Ids;
    assert p.Ids() + m == m + p.value.Ids() + p.key.Ids() + IdsOpt(p.comment);
    SoundPart(pool, m + p.value.Ids() + p.key.Ids(), IdsOpt(p.comment));
    DropOk(pool, p.key, m + p.value.Ids());
    AgreeParts(pool, Drop(pool, p.key), m, p.value.Ids());
    DropOk(Drop(pool, p.key), p.value, m);
    AgreeThrough(pool, Drop(pool, p.key), Drop(Drop(pool, p.key), p.value), m);
  }

  /** Deleting the strings of the removed pairs changes no string that another slot reads. */
  lemma {:induction false} EraseOk(pool: Pool, ps: seq<Slot>, key: string, value: Option<string>, m: multiset<Id>)
    requires Sound(pool, SlotIds(ps) + m)
    ensures var (pool2, qs) := Erase(pool, ps, key, value);
      && ReadSlots(pool2, qs) == Without(ReadSlots(pool, ps), key, value)
      && Sound(pool2, SlotIds(qs) + m) && Agree(pool, pool2, SlotIds(qs) + m)
      && forall q :: q in qs ==> q in ps
    decreases |ps|
  {
    hide Sound, Drop, Agree, Removes, Slot.Ids, Slot.Read;
    if ps == [] {
      assert SlotIds(ps) + m == m;
      AgreeSelf(pool, m);
      return;
    }
    var p, rest := ps[0], ps[1..];
    assert SlotIds(ps) + m == p.Ids() + (SlotIds(rest) + m);
    assert ReadSlots(pool, ps)[1..] == ReadSlots(pool, rest);
    if Removes(p.Read(pool), key, value) {
      var pool1 := Drop(Drop(pool, p.key), p.value);
      DropSlotOk(pool, p, SlotIds(rest) + m);
      AgreeParts(pool, pool1, SlotIds(rest), m);
      SlotsAgree(pool, pool1, rest);
      EraseOk(pool1, rest, key, value, m);
      var (pool2, qs) := Erase(pool1, rest, key, value);
      EraseIds(pool1, rest, key, value);
      AgreeLess(pool, pool1, SlotIds(rest) + m, SlotIds(qs) + m);
      AgreeThrough(pool, pool1, pool2, SlotIds(qs) + m);
    } else {
      assert SlotIds(rest) + (p.Ids() + m) == p.Ids() + (SlotIds(rest) + m);
      EraseOk(pool, rest, key, value, p.Ids() + m);
      var (pool2, qs) := Erase(pool, rest, key, value);
      assert SlotIds([p] + qs) + m == SlotIds(qs) + (p.Ids() + m) by { assert ([p] + qs)[1..] == qs; }
      AgreeParts(pool, pool2, SlotIds(qs), p.Ids() + m);
      AgreeParts(pool, pool2, p.Ids(), m);
      SlotAgrees(pool, pool2, p);
      assert ([p] + qs)[1..] == qs;
    }
  }

  lemma AgreeSelf(pool: Pool, m: multiset<Id>)
    requires Sound(pool, m)
    ensures SlotIds([]) + m == m && Agree(pool, pool, m)
  {
  }

  lemma AgreeLess(a: Pool, b: Pool, m: multiset<Id>, n: multiset<Id>)
    requires Agree(a, b, m) && n <= m
    ensures Agree(a, b, n)
  {
  }

  lemma {:induction false} EraseIds(pool: Pool, ps: seq<Slot>, key: string, value: Option<string>)
    ensures SlotIds(Erase(pool, ps, key, value).1) <= SlotIds(ps)
    decreases |ps|
  {
    hide Drop, Removes, Slot.Ids, Slot.Read;
    if ps != [] {
      if Removes(ps[0].Read(pool), key, value) {
        EraseIds(Drop(Drop(pool, ps[0].key), ps[0].value), ps[1..], key, value);
      } else {
        EraseIds(pool, ps[1..], key, value);
        var qs := Erase(pool, ps[1..], key, value).1;
        assert ([ps[0]] + qs)[1..] == qs;
      }
    }
  }

  lemma {:induction false} DropSlotsOk(pool: Pool, ps: seq<Slot>, m: multiset<Id>)
    requires Sound(pool, SlotIds(ps) + m)
    ensures Sound(DropSlots(pool, ps), m) && Agree(pool, DropSlots(pool, ps), m)
    decreases |ps|
  {
    hide Sound, Drop, Agree, Slot.Ids, Slot.Read;
    if ps == [] {
      assert SlotIds(ps) + m == m;
      AgreeSelf(pool, m);
    } else {
      var pool1 := Drop(Drop(pool, ps[0].key), ps[0].value);
      assert SlotIds(ps) + m == ps[0].Ids() + (SlotIds(ps[1..]) + m);
      DropSlotOk(pool, ps[0], SlotIds(ps[1..]) + m);
      AgreeParts(pool, pool1, SlotIds(ps[1..]), m);
      DropSlotsOk(pool1, ps[1..], m);
      AgreeThrough(pool, pool1, DropSlots(pool, ps), m);
    }
  }

  // ---------- assigning a key

  /** A copy, or the pointer itself if the string stands in the block that is kept. */
  ghost function Keep(pool: Pool, r: Ref, copy: bool): (Pool, Ref) {
    if copy then Copy(pool, r.Read(pool)) else (pool, r)
  }

  lemma KeepOk(pool: Pool, r: Ref, copy: bool, m: multiset<Id>)
    requires Sound(pool, m) && !r.Owned? && (copy || !r.Outside?)
    ensures var (pool2, r2) := Keep(pool, r, copy);
      !r2.Outside? && Sound(pool2, m + r2.Ids()) && Agree(pool, pool2, m) && r2.Read(pool2) == r.Read(pool)
  {
    hide Sound, Agree;
    if copy {
      CopyOk(pool, r.Read(pool), m);
    } else {
      assert m + r.Ids() == m;
      AgreeSelf(pool, m);
    }
  }

  /** A string that is not in the pool reads the same whatever the pool holds. */
  lemma NotOwnedReads(a: Pool, b: Pool, r: Ref)
    requires !r.Owned?
    ensures r.Read(a) == r.Read(b)
  {
  }

  function InsertSlot(pool: Pool, ps: seq<Slot>, p: Slot): seq<Slot> {
    var n := Upper(ReadSlots(pool, ps), p.key.Read(pool));
    ps[..n] + [p] + ps[n..]
  }

  /** The ids of a list, those of one of its slots taken apart. */
  lemma IdsAround(ps: seq<Slot>, n: nat, p: Slot)
    requires n <= |ps|
    ensures SlotIds(ps[..n] + [p] + ps[n..]) == SlotIds(ps) + p.Ids()
  {
    hide Slot.Ids;
    SlotIdsAppend(ps[..n] + [p], ps[n..]);
    SlotIdsAppend(ps[..n], [p]);
    SlotIdsAppend(ps[..n], ps[n..]);
    assert ps == ps[..n] + ps[n..];
    assert SlotIds([p]) == p.Ids() by { assert [p][1..] == []; assert p.Ids() + multiset{} == p.Ids(); }
  }

  lemma InsertSlotOk(pool: Pool, ps: seq<Slot>, p: Slot)
    ensures ReadSlots(pool, InsertSlot(pool, ps, p)) == InsertPair(ReadSlots(pool, ps), p.Read(pool))
    ensures SlotIds(InsertSlot(pool, ps, p)) == SlotIds(ps) + p.Ids()
    ensures forall q :: q in InsertSlot(pool, ps, p) ==> q in ps || q == p
  {
    hide Slot.Ids, Ref.Read, IdsOpt, ReadOpt, Less, SlotIds;
    var n := Upper(ReadSlots(pool, ps), p.key.Read(pool));
    IdsAround(ps, n, p);
  }

  /** A pair gets another value; the string of the old one stays in the pool. */
  lemma NewValueOk(pool: Pool, ps: seq<Slot>, k: nat, v: Ref, m: multiset<Id>)
    requires k < |ps| && Sound(pool, SlotIds(ps) + m + v.Ids())
    ensures var qs := ps[k := ps[k].(value := v)];
      && ReadSlots(pool, qs) == ReadSlots(pool, ps)[k := ReadSlots(pool, ps)[k].(value := v.Read(pool))]
      && Sound(pool, SlotIds(qs) + m)
  {
    hide Sound, IdsOpt, Ref.Ids, Ref.Read, SlotIds;
    var p := ps[k];
    var q := p.(value := v);
    var rest := ps[..k] + ps[k + 1..];
    assert rest[..k] == ps[..k] && rest[k..] == ps[k + 1..];
    IdsAround(rest, k, p);
    IdsAround(rest, k, q);
    assert ps == ps[..k] + [p] + ps[k + 1..];
    assert ps[k := q] == ps[..k] + [q] + ps[k + 1..];
    assert SlotIds(ps) + m + v.Ids() == SlotIds(ps[k := q]) + m + p.value.Ids();
    SoundPart(pool, SlotIds(ps[k := q]) + m, p.value.Ids());
  }

  /** The tail of AddEntry: copies of key and value are made where needed, and the pair is inserted. */
  ghost function Place(pool: Pool, ps: seq<Slot>, key: Ref, value: Ref, comment: Option<Ref>, order: int,
                       copy: bool): (Pool, seq<Slot>) {
    var (pool1, k) := Keep(pool, key, copy);
    var (pool2, v) := Keep(pool1, value, copy);
    (pool2, InsertSlot(pool2, ps, Slot(k, comment, order, v)))
  }

  lemma PlaceOk(pool: Pool, ps: seq<Slot>, key: Ref, value: Ref, comment: Option<Ref>, order: int, copy: bool,
                m: multiset<Id>)
    requires Sound(pool, SlotIds(ps) + IdsOpt(comment) + m)
    requires !key.Owned? && !value.Owned? && (copy || (!key.Outside? && !value.Outside?))
    requires Lasting(comment) && forall p :: p in ps ==> p.Lasts()
    ensures var (pool2, qs) := Place(pool, ps, key, value, comment, order, copy);
      && ReadSlots(pool2, qs)
           == InsertPair(ReadSlots(pool, ps), Pair(key.Read(pool), ReadOpt(pool, comment), order, value.Read(pool)))
      && Sound(pool2, SlotIds(qs) + m) && Agree(pool, pool2, m)
      && forall q :: q in qs ==> q.Lasts()
  {
    hide Sound, Agree, Keep, InsertSlot, InsertPair, IdsOpt, ReadOpt, Ref.Ids, Ref.Read;
    var held := SlotIds(ps) + IdsOpt(comment) + m;
    var (pool1, k) := Keep(pool, key, copy);
    KeepOk(pool, key, copy, held);
    var (pool2, v) := Keep(pool1, value, copy);
    KeepOk(pool1, value, copy, held + k.Ids());
    NotOwnedReads(pool, pool1, value);
    AgreeParts(pool1, pool2, held, k.Ids());
    RefAgrees(pool1, pool2, k);
    AgreeThrough(pool, pool1, pool2, held);
    AgreeParts(pool, pool2, SlotIds(ps) + IdsOpt(comment), m);
    AgreeParts(pool, pool2, SlotIds(ps), IdsOpt(comment));
    SlotsAgree(pool, pool2, ps);
    OptAgrees(pool, pool2, comment);
    var p := Slot(k, comment, order, v);
    InsertSlotOk(pool2, ps, p);
    assert SlotIds(ps) + p.Ids() + m == held + k.Ids() + v.Ids();
  }

  // ---------- the oldest pair of a key

  function MatchSlots(pool: Pool, ps: seq<Slot>, key: string): seq<Slot> {
    if ps == [] then []
    else (if Same(ps[0].key.Read(pool), key) then [ps[0]] else []) + MatchSlots(pool, ps[1..], key)
  }

  function OldestSlot(ps: seq<Slot>): (p: Slot)
    requires ps != []
    ensures p in ps
  {
    if |ps| == 1 then ps[0]
    else
      var p := OldestSlot(ps[1..]);
      if ps[0].order <= p.order then ps[0] else p
  }

  lemma {:induction false} MatchSlotsRead(pool: Pool, ps: seq<Slot>, key: string)
    ensures ReadSlots(pool, MatchSlots(pool, ps, key)) == Matches(ReadSlots(pool, ps), key)
    ensures forall p :: p in MatchSlots(pool, ps, key) ==> p in ps
  {
    hide Same, Ref.Read, ReadOpt;
    if ps != [] {
      var rest := MatchSlots(pool, ps[1..], key);
      MatchSlotsRead(pool, ps[1..], key);
      assert ReadSlots(pool, ps)[1..] == ReadSlots(pool, ps[1..]);
      if Same(ps[0].key.Read(pool), key) {
        assert ([ps[0]] + rest)[1..] == rest;
      } else {
        assert [] + rest == rest;
      }
    }
  }

  lemma {:induction false} OldestSlotRead(pool: Pool, ps: seq<Slot>)
    requires ps != []
    ensures OldestSlot(ps).Read(pool) == Oldest(ReadSlots(pool, ps))
  {
    hide Ref.Read, ReadOpt;
    if |ps| > 1 {
      OldestSlotRead(pool, ps[1..]);
      assert ReadSlots(pool, ps)[1..] == ReadSlots(pool, ps[1..]);
    }
  }

  /** A pair with a greater load order changes nothing. */
  lemma {:induction false} OldestAppend(ps: seq<Pair>, p: Pair)
    requires ps != [] && forall q :: q in ps ==> q.order < p.order
    ensures Oldest(ps + [p]) == Oldest(ps)
  {
    if |ps| == 1 {
      assert (ps + [p])[1..] == [p];
    } else {
      OldestAppend(ps[1..], p);
      assert (ps + [p])[1..] == ps[1..] + [p];
    }
  }

  /** The pairs of a section after AddEntry has assigned a key. */
  ghost function AssignSlots(pool: Pool, ps: seq<Slot>, key: Ref, value: Ref, comment: Option<Ref>, order: int,
                             force: bool, copy: bool, multiKey: bool): (Pool, seq<Slot>)
  {
    var name := key.Read(pool);
    var k := KeyIndex(ReadSlots(pool, ps), name);
    if k < |ps| && !multiKey then
      var (pool1, v) := Keep(pool, value, copy);
      (pool1, ps[k := ps[k].(value := v)])
    else if k < |ps| && force then
      FoundMatches(pool, ps, name);
      var first := OldestSlot(MatchSlots(pool, ps, name));
      var (pool1, c) := Inherit(pool, comment, if first.order < order then first.comment else None);
      var (pool2, qs) := Erase(pool1, ps, name, None);
      Place(pool2, qs, key, value, c, if first.order < order then first.order else order, copy)
    else Place(pool, ps, key, value, comment, order, copy)
  }

  lemma FoundMatches(pool: Pool, ps: seq<Slot>, name: string)
    requires KeyIndex(ReadSlots(pool, ps), name) < |ps|
    ensures HasKey(ReadSlots(pool, ps), name) && MatchSlots(pool, ps, name) != []
  {
    hide Fold;
    MatchSlotsRead(pool, ps, name);
    MatchesAre(ReadSlots(pool, ps), name);
    KeyIndexFinds(ReadSlots(pool, ps), name);
  }

  /** The comment of the oldest pair replaces the given one: this is deleted, that is copied. */
  ghost function Inherit(pool: Pool, comment: Option<Ref>, oldest: Option<Ref>): (Pool, Option<Ref>) {
    if oldest.None? then (pool, comment)
    else
      var pool1 := if comment.Some? then Drop(pool, comment.value) else pool;
      var (pool2, c) := Copy(pool1, oldest.value.Read(pool1));
      (pool2, Some(c))
  }

  lemma InheritOk(pool: Pool, comment: Option<Ref>, oldest: Option<Ref>, m: multiset<Id>)
    requires Sound(pool, IdsOpt(comment) + m) && IdsOpt(oldest) <= m && Lasting(comment)
    ensures var (pool2, c) := Inherit(pool, comment, oldest);
      && Sound(pool2, IdsOpt(c) + m) && Agree(pool, pool2, m) && Lasting(c)
      && ReadOpt(pool2, c) == if oldest.Some? then ReadOpt(pool, oldest) else ReadOpt(pool, comment)
  {
    hide Sound, Agree, Copy, Drop, Ref.Read;
    if oldest.None? {
      SoundPart(pool, IdsOpt(comment), m);
      AgreeSelf(pool, m);
    } else {
      var pool1 := if comment.Some? then Drop(pool, comment.value) else pool;
      assert IdsOpt(comment) + m == m + IdsOpt(comment);
      if comment.Some? { DropOk(pool, comment.value, m); } else { assert m + IdsOpt(comment) == m; AgreeSelf(pool, m); }
      AgreeLess(pool, pool1, m, IdsOpt(oldest));
      OptAgrees(pool, pool1, oldest);
      var (pool2, c) := Copy(pool1, oldest.value.Read(pool1));
      CopyOk(pool1, oldest.value.Read(pool1), m);
      assert m + c.Ids() == c.Ids() + m;
      AgreeThrough(pool, pool1, pool2, m);
    }
  }

  /** Assigning a key through pointers is assigning it in the table that they read, and no pointer is left dangling. */
  lemma AssignSlotsOk(pool: Pool, ps: seq<Slot>, key: Ref, value: Ref, comment: Option<Ref>, order: int,
                      force: bool, copy: bool, multiKey: bool, m: multiset<Id>)
    requires Sound(pool, SlotIds(ps) + IdsOpt(comment) + m)
    requires !key.Owned? && !value.Owned? && (copy || (!key.Outside? && !value.Outside?))
    requires Lasting(comment) && forall p :: p in ps ==> p.Lasts() && p.order < order
    ensures var (pool2, qs) := AssignSlots(pool, ps, key, value, comment, order, force, copy, multiKey);
      && ReadSlots(pool2, qs)
           == Assign(ReadSlots(pool, ps), key.Read(pool), value.Read(pool), ReadOpt(pool, comment), order,
                      force, multiKey)
      && Sound(pool2, SlotIds(qs) + m) && Agree(pool, pool2, m)
      && forall q :: q in qs ==> q.Lasts()
  {
    hide Sound, Agree, Keep, Place, Erase, Inherit, IdsOpt, ReadOpt, Lasting, Ref.Ids, Ref.Read, Slot.Ids, Matches,
      Without, InsertPair,
      HasKey, SlotIds, MatchSlots;
    var name := key.Read(pool);
    var view := ReadSlots(pool, ps);
    var k := KeyIndex(view, name);
    KeyIndexFinds(view, name);
    if k < |ps| && !multiKey {
      var (pool1, v) := Keep(pool, value, copy);
      var held := SlotIds(ps) + IdsOpt(comment) + m;
      KeepOk(pool, value, copy, held);
      AgreeParts(pool, pool1, SlotIds(ps) + IdsOpt(comment), m);
      AgreeParts(pool, pool1, SlotIds(ps), IdsOpt(comment));
      SlotsAgree(pool, pool1, ps);
      assert held + v.Ids() == SlotIds(ps) + m + v.Ids() + IdsOpt(comment);
      SoundPart(pool1, SlotIds(ps) + m + v.Ids(), IdsOpt(comment));
      NewValueOk(pool1, ps, k, v, m);
    } else if k < |ps| && force {
      AssignOldestOk(pool, ps, key, value, comment, order, copy, m);
    } else {
      PlaceOk(pool, ps, key, value, comment, order, copy, m);
    }
  }

  /** The case of a forced replacement: the pairs of the key collapse into one. */
  lemma AssignOldestOk(pool: Pool, ps: seq<Slot>, key: Ref, value: Ref, comment: Option<Ref>, order: int, copy: bool,
                       m: multiset<Id>)
    requires Sound(pool, SlotIds(ps) + IdsOpt(comment) + m) && KeyIndex(ReadSlots(pool, ps), key.Read(pool)) < |ps|
    requires !key.Owned? && !value.Owned? && (copy || (!key.Outside? && !value.Outside?))
    requires Lasting(comment) && forall p :: p in ps ==> p.Lasts() && p.order < order
    ensures var (pool2, qs) := AssignSlots(pool, ps, key, value, comment, order, true, copy, true);
      && ReadSlots(pool2, qs)
           == Assign(ReadSlots(pool, ps), key.Read(pool), value.Read(pool), ReadOpt(pool, comment), order, true, true)
      && Sound(pool2, SlotIds(qs) + m) && Agree(pool, pool2, m)
      && forall q :: q in qs ==> q.Lasts()
  {
    hide Sound, Agree, Keep, Place, Erase, Inherit, IdsOpt, Lasting, Ref.Ids, Ref.Read, Slot.Ids, Matches, Without,
      InsertPair,
      HasKey, SlotIds, MatchSlots, Oldest, OldestSlot, KeyIndex;
    var name := key.Read(pool);
    var view := ReadSlots(pool, ps);
    FoundMatches(pool, ps, name);
    MatchSlotsRead(pool, ps, name);
    var ms := MatchSlots(pool, ps, name);
    var first := OldestSlot(ms);
    OldestSlotRead(pool, ms);
    OldestAppend(ReadSlots(pool, ms), Pair(name, ReadOpt(pool, comment), order, value.Read(pool)));
    var (pool1, c) := Inherit(pool, comment, first.comment);
    var held := SlotIds(ps) + m;
    CommentIn(ps, first);
    assert SlotIds(ps) + IdsOpt(comment) + m == IdsOpt(comment) + held;
    InheritOk(pool, comment, first.comment, held);
    AgreeParts(pool, pool1, SlotIds(ps), m);
    SlotsAgree(pool, pool1, ps);
    NotOwnedReads(pool, pool1, key);
    NotOwnedReads(pool, pool1, value);
    var (pool2, qs) := Erase(pool1, ps, name, None);
    assert IdsOpt(c) + held == SlotIds(ps) + (IdsOpt(c) + m);
    EraseOk(pool1, ps, name, None, IdsOpt(c) + m);
    NotOwnedReads(pool1, pool2, key);
    NotOwnedReads(pool1, pool2, value);
    AgreeParts(pool1, pool2, SlotIds(qs), IdsOpt(c) + m);
    AgreeParts(pool1, pool2, IdsOpt(c), m);
    OptAgrees(pool1, pool2, c);
    AgreeThrough(pool, pool1, pool2, m);
    assert SlotIds(qs) + (IdsOpt(c) + m) == SlotIds(qs) + IdsOpt(c) + m;
    PlaceOk(pool2, qs, key, value, c, first.order, copy, m);
    AgreeThrough(pool, pool2, Place(pool2, qs, key, value, c, first.order, copy).0, m);
  }

  lemma {:induction false} CommentIn(ps: seq<Slot>, p: Slot)
    requires p in ps
    ensures IdsOpt(p.comment) <= SlotIds(ps)
  {
    hide Ref.Ids, IdsOpt;
    if ps[0] != p {
      CommentIn(ps[1..], p);
    }
  }

  // ---------- which copies there are afterwards

  function OptCopies(r: Option<Ref>): set<Id> { if r.Some? then Copies(r.value) else {} }

  lemma KeepHolds(pool: Pool, r: Ref, copy: bool)
    requires !r.Owned?
    ensures var (pool2, r2) := Keep(pool, r, copy); pool2.Keys == pool.Keys + Copies(r2)
  {
    KeepCopies(pool, r, copy);
  }

  /** The new pair has copies of its own of key and value. */
  lemma PlaceHolds(pool: Pool, ps: seq<Slot>, key: Ref, value: Ref, comment: Option<Ref>, order: int, copy: bool)
    requires !key.Owned? && !value.Owned?
    ensures var (pool2, qs) := Place(pool, ps, key, value, comment, order, copy);
      exists p :: p in qs && p.comment == comment && pool2.Keys == pool.Keys + Copies(p.key) + Copies(p.value)
  {
    hide Keep, InsertSlot;
    var (pool1, k) := Keep(pool, key, copy);
    KeepHolds(pool, key, copy);
    var (pool2, v) := Keep(pool1, value, copy);
    KeepHolds(pool1, value, copy);
    var p := Slot(k, comment, order, v);
    SlotInserted(pool2, ps, p);
    assert p.comment == comment && pool2.Keys == pool.Keys + Copies(p.key) + Copies(p.value);
  }

  lemma SlotInserted(pool: Pool, ps: seq<Slot>, p: Slot)
    ensures p in InsertSlot(pool, ps, p)
  {
    hide ReadSlots, Ref.Read;
    var n := Upper(ReadSlots(pool, ps), p.key.Read(pool));
    assert InsertSlot(pool, ps, p)[n] == p;
  }

  /** A comment that is replaced is deleted, and the one that replaces it is a copy. */
  lemma InheritHolds(pool: Pool, comment: Option<Ref>, oldest: Option<Ref>)
    ensures var (pool2, c) := Inherit(pool, comment, oldest);
      if oldest.None? then pool2 == pool && c == comment
      else pool2.Keys == pool.Keys - OptCopies(comment) + OptCopies(c) && c.Some? && c.value.Owned?
  {
  }

  /** A forced assignment to a key with several pairs deletes the copies of key and value of all of them, and the copy
      of the comment given if theirs is kept; the pair in their place has its own. */
  lemma ForcedFrees(pool: Pool, ps: seq<Slot>, key: Ref, value: Ref, comment: Option<Ref>, order: int, copy: bool,
                    m: multiset<Id>)
    requires Sound(pool, SlotIds(ps) + IdsOpt(comment) + m) && KeyIndex(ReadSlots(pool, ps), key.Read(pool)) < |ps|
    requires !key.Owned? && !value.Owned? && Lasting(comment) && forall p :: p in ps ==> p.order < order
    ensures var (pool2, qs) := AssignSlots(pool, ps, key, value, comment, order, true, copy, true);
      && MatchSlots(pool, ps, key.Read(pool)) != []
      && var kept := OldestSlot(MatchSlots(pool, ps, key.Read(pool))).comment;
         exists p :: p in qs
           && pool2.Keys == pool.Keys - (if kept.Some? then OptCopies(comment) else {})
                + (if kept.Some? then OptCopies(p.comment) else {})
                - Removed(pool, ps, key.Read(pool), None) + Copies(p.key) + Copies(p.value)
  {
    hide Sound, Agree, Place, Erase, Inherit, IdsOpt, Lasting, Ref.Ids, Ref.Read, Slot.Ids, SlotIds, MatchSlots,
      OldestSlot, KeyIndex, Removed, Copies, OptCopies, ReadSlots;
    var name := key.Read(pool);
    FoundMatches(pool, ps, name);
    MatchSlotsRead(pool, ps, name);
    var first := OldestSlot(MatchSlots(pool, ps, name));
    CommentIn(ps, first);
    var held := SlotIds(ps) + m;
    assert SlotIds(ps) + IdsOpt(comment) + m == IdsOpt(comment) + held;
    assert IdsOpt(first.comment) <= held;
    InheritOk(pool, comment, first.comment, held);
    InheritHolds(pool, comment, first.comment);
    var (pool1, c) := Inherit(pool, comment, first.comment);
    AgreeParts(pool, pool1, SlotIds(ps), m);
    RemovedAgree(pool, pool1, ps, name, None);
    assert IdsOpt(c) + held == SlotIds(ps) + (IdsOpt(c) + m);
    EraseFrees(pool1, ps, name, None, IdsOpt(c) + m);
    var (pool2, qs) := Erase(pool1, ps, name, None);
    PlaceHolds(pool2, qs, key, value, c, first.order, copy);
  }

  /** Any other assignment deletes no copy: it adds those of the new value and, for a new pair, of the key. */
  lemma AssignHolds(pool: Pool, ps: seq<Slot>, key: Ref, value: Ref, comment: Option<Ref>, order: int, force: bool,
                    copy: bool, multiKey: bool)
    requires !key.Owned? && !value.Owned?
    requires !(force && multiKey) || KeyIndex(ReadSlots(pool, ps), key.Read(pool)) == |ps|
    ensures var (pool2, qs) := AssignSlots(pool, ps, key, value, comment, order, force, copy, multiKey);
      exists p :: p in qs && pool2.Keys == pool.Keys + Copies(p.value)
        + (if multiKey || KeyIndex(ReadSlots(pool, ps), key.Read(pool)) == |ps| then Copies(p.key) else {})
  {
    hide Place, Keep, Ref.Read, KeyIndex, Copies, ReadSlots, InsertSlot;
    var k := KeyIndex(ReadSlots(pool, ps), key.Read(pool));
    if k < |ps| && !multiKey {
      var (pool1, v) := Keep(pool, value, copy);
      KeepHolds(pool, value, copy);
      var qs := ps[k := ps[k].(value := v)];
      assert qs[k] in qs && qs[k].value == v;
    } else {
      PlaceHolds(pool, ps, key, value, comment, order, copy);
    }
  }
}
