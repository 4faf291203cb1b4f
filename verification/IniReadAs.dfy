/** What the entries of a written document build: the listing, but for a nameless section without keys,
    and, with key-only on, but for empty values that take over the value in front of them. */
module IniReadAs {
  import opened Basics
  import opened IniGrammar
  import opened IniDocument
  import opened IniTable
  import opened IniView

  // ---------- a missing value is an empty one

  function Fill(e: Entry): Entry { if e.key.None? then e else e.(value := Some(Text(e.value))) }

  function FillAll(es: seq<Entry>): seq<Entry> { if es == [] then [] else [Fill(es[0])] + FillAll(es[1..]) }

  lemma {:induction false} FillAppend(a: seq<Entry>, b: seq<Entry>)
    ensures FillAll(a + b) == FillAll(a) + FillAll(b)
  {
    hide Fill;
    if a == [] {
      assert a + b == b;
    } else {
      FillAppend(a[1..], b);
      assert (a + b)[1..] == a[1..] + b && (a + b)[0] == a[0];
      assert [Fill(a[0])] + (FillAll(a[1..]) + FillAll(b)) == [Fill(a[0])] + FillAll(a[1..]) + FillAll(b);
    }
  }

  lemma AddFilled(t: Table, e: Entry, multiKey: bool)
    ensures Add(t, Fill(e), false, multiKey) == Add(t, e, false, multiKey)
  {
    hide EnsureSection, PutPair;
  }

  lemma {:induction false} AddAllFilled(t: Table, es: seq<Entry>, multiKey: bool)
    ensures AddAll(t, FillAll(es), multiKey) == AddAll(t, es, multiKey)
    decreases |es|
  {
    hide Add, Fill;
    if es != [] {
      AddFilled(t, es[0], multiKey);
      AddAllFilled(Add(t, es[0], false, multiKey), es[1..], multiKey);
      assert FillAll(es)[0] == Fill(es[0]) && FillAll(es)[1..] == FillAll(es[1..]);
    }
  }

  // ---------- the entries read are those of the listing ...As

  lemma {:induction false} ValReadsAre(section: string, key: string, vals: seq<Val>, previous: Option<string>,
                                       o: Options)
    ensures FillAll(ValReads(section, key, vals, previous, o)) == ValEntries(section, key, ValsAs(vals, previous, o))
    decreases |vals|
  {
    hide ValueRead;
    if vals != [] {
      var v := ValueRead(vals[0].value, previous, o);
      var e := Entry(section, Some(key), v, vals[0].comment);
      ValReadsAre(section, key, vals[1..], v, o);
      assert ([e] + ValReads(section, key, vals[1..], v, o))[1..] == ValReads(section, key, vals[1..], v, o);
      assert ValsAs(vals, previous, o)[1..] == ValsAs(vals[1..], v, o);
    }
  }

  lemma {:induction false} KeyReadsAre(section: string, keys: seq<Key>, previous: Option<string>, o: Options)
    ensures FillAll(KeyReads(section, keys, previous, o)) == KeyEntries(section, KeysAs(keys, previous, o))
    decreases |keys|
  {
    hide ValReads, ValEntries, ValsAs, ValLast;
    if keys != [] {
      var k := keys[0];
      var last := ValLast(k.vals, previous, o);
      ValReadsAre(section, k.name, k.vals, previous, o);
      KeyReadsAre(section, keys[1..], last, o);
      FillAppend(ValReads(section, k.name, k.vals, previous, o), KeyReads(section, keys[1..], last, o));
      assert KeysAs(keys, previous, o)[1..] == KeysAs(keys[1..], last, o);
    }
  }

  lemma HeaderFilled(s: Sect, keys: seq<Key>)
    ensures FillAll(HeaderEntries(s)) == HeaderEntries(s.(keys := keys))
  {
    if s.name != "" {
      var e := Entry(s.name, None, None, s.comment);
      assert [e][1..] == [];
    }
  }

  lemma {:induction false} SectionReadsAre(ds: seq<Sect>, o: Options)
    ensures FillAll(SectionReads(ds, o)) == SectionEntries(SectsAs(ds, o))
  {
    hide KeyReads, KeyEntries, KeysAs, HeaderEntries;
    if ds != [] {
      var s := ds[0];
      var es := KeyReads(s.name, s.keys, None, o);
      HeaderFilled(s, KeysAs(s.keys, None, o));
      KeyReadsAre(s.name, s.keys, None, o);
      SectionReadsAre(ds[1..], o);
      FillAppend(HeaderEntries(s) + es, SectionReads(ds[1..], o));
      FillAppend(HeaderEntries(s), es);
      assert SectsAs(ds, o)[1..] == SectsAs(ds[1..], o);
    }
  }

  lemma WrittenReads(ds: seq<Sect>, o: Options)
    ensures SectionReads(ds, o) == SectionReads(Written(ds), o)
  {
    if ds != [] && ds[0].name == "" && ds[0].keys == [] {
      assert HeaderEntries(ds[0]) + KeyReads(ds[0].name, ds[0].keys, None, o) == [];
      assert [] + SectionReads(ds[1..], o) == SectionReads(ds[1..], o);
    }
  }

  // ---------- which listings come back

  lemma {:induction false} ValsAsShape(vals: seq<Val>, previous: Option<string>, o: Options)
    ensures |ValsAs(vals, previous, o)| == |vals|
    decreases |vals|
  {
    hide ValueRead;
    if vals != [] { ValsAsShape(vals[1..], ValueRead(vals[0].value, previous, o), o); }
  }

  lemma {:induction false} KeysAsShape(keys: seq<Key>, previous: Option<string>, o: Options)
    ensures var ks := KeysAs(keys, previous, o);
      |ks| == |keys| && forall i :: 0 <= i < |keys| ==> ks[i].name == keys[i].name && |ks[i].vals| == |keys[i].vals|
    decreases |keys|
  {
    hide ValsAs, ValLast;
    if keys != [] {
      ValsAsShape(keys[0].vals, previous, o);
      KeysAsShape(keys[1..], ValLast(keys[0].vals, previous, o), o);
    }
  }

  lemma {:induction false} SectsAsShape(ds: seq<Sect>, o: Options)
    ensures var es := SectsAs(ds, o);
      |es| == |ds| && forall i :: 0 <= i < |ds| ==> es[i] == ds[i].(keys := KeysAs(ds[i].keys, None, o))
  {
    hide KeysAs;
    if ds != [] { SectsAsShape(ds[1..], o); }
  }

  lemma KeysStayCanonical(keys: seq<Key>, previous: Option<string>, o: Options, multiKey: bool)
    requires KeysCanonical(keys, multiKey)
    ensures KeysCanonical(KeysAs(keys, previous, o), multiKey)
  {
    hide KeysAs, Same;
    KeysAsShape(keys, previous, o);
    var ks := KeysAs(keys, previous, o);
    forall i | 0 <= i < |ks| ensures ks[i].vals != [] && (multiKey || |ks[i].vals| == 1) {
      assert |ks[i].vals| == |keys[i].vals|;
    }
  }

  /** The listing that comes back is one that can be built. */
  lemma ReadAsCanonical(ds: seq<Sect>, o: Options, multiKey: bool)
    requires Canonical(ds, multiKey) && Listed(ds)
    ensures Canonical(SectsAs(Written(ds), o), multiKey) && WellShaped(SectsAs(Written(ds), o))
  {
    hide KeysAs, Same, KeysCanonical;
    var ws := Written(ds);
    var es := SectsAs(ws, o);
    SectsAsShape(ws, o);
    assert forall i :: 0 <= i < |ws| ==> ws[i] == ds[if |ws| == |ds| then i else i + 1];
    forall i | 0 <= i < |es| ensures KeysCanonical(es[i].keys, multiKey) {
      KeysStayCanonical(ws[i].keys, None, o, multiKey);
    }
    forall i | 0 <= i < |es| && es[i].name == "" ensures i == 0 && es[i].keys != [] {
      assert ws[i].name == "";
      KeysAsShape(ws[i].keys, None, o);
    }
    forall s, k | s in es && k in s.keys ensures k.vals != [] {
      var i :| 0 <= i < |es| && es[i] == s;
      KeysHaveValues(s.keys, k, multiKey);
    }
  }

  lemma KeysHaveValues(keys: seq<Key>, k: Key, multiKey: bool)
    requires KeysCanonical(keys, multiKey) && k in keys
    ensures k.vals != []
  {
    hide Same;
  }

  // ---------- when nothing is taken over

  lemma EmptiesFirstStep(v: string, vs: seq<string>)
    ensures EmptiesFirst([v] + vs) <==> EmptiesFirst(vs) && (v != "" ==> "" !in vs)
  {
    var ws := [v] + vs;
    assert ws[0] == v && forall i :: 0 <= i < |vs| ==> ws[i + 1] == vs[i];
    if EmptiesFirst(ws) {
      forall i, j | 0 <= i < j < |vs| && vs[j] == "" ensures vs[i] == "" {
        assert ws[j + 1] == "" && ws[i + 1] == vs[i];
      }
      if "" in vs {
        var j :| 0 <= j < |vs| && vs[j] == "";
        assert ws[j + 1] == "" && ws[0] == "";
      }
    } else {
      var i, j :| 0 <= i < j < |ws| && ws[j] == "" && ws[i] != "";
      assert ws[j] == vs[j - 1];
      if i > 0 { assert ws[i] == vs[i - 1]; }
    }
  }

  lemma TwoStep(p: string, v: string, vs: seq<string>)
    ensures EmptiesFirst([p] + ([v] + vs)) <==> EmptiesFirst([v] + vs) && (v != "" || p == "")
  {
    EmptiesFirstStep(p, [v] + vs);
    EmptiesFirstStep(v, vs);
    assert "" in [v] + vs <==> v == "" || "" in vs;
  }

  /** The values of a key come back exactly when no empty one among them has a value in front of it. */
  lemma {:induction false} ValsKept(vals: seq<Val>, previous: Option<string>, more: seq<string>, o: Options)
    requires o.keyOnly
    ensures EmptiesFirst([Text(previous)] + (ValueTexts(vals) + more))
      <==> ValsAs(vals, previous, o) == vals && EmptiesFirst([Text(ValLast(vals, previous, o))] + more)
    decreases |vals|
  {
    hide EmptiesFirst;
    if vals == [] {
      assert [] + more == more;
    } else {
      var v := vals[0];
      var value := ValueRead(v.value, previous, o);
      var rest := ValueTexts(vals[1..]) + more;
      assert ValueTexts(vals) + more == [v.value] + rest;
      TwoStep(Text(previous), v.value, rest);
      ValsKept(vals[1..], value, more, o);
      var back := ValsAs(vals[1..], value, o);
      assert ([Val(Text(value), v.comment)] + back)[1..] == back;
      assert vals == [v] + vals[1..];
    }
  }

  lemma {:induction false} KeysKept(keys: seq<Key>, previous: Option<string>, o: Options)
    requires o.keyOnly
    ensures EmptiesFirst([Text(previous)] + ValuesIn(keys)) <==> KeysAs(keys, previous, o) == keys
    decreases |keys|
  {
    hide EmptiesFirst, ValsAs, ValLast, ValueTexts;
    if keys == [] {
      OneEmptiesFirst(Text(previous));
    } else {
      var k := keys[0];
      var last := ValLast(k.vals, previous, o);
      ValsKept(k.vals, previous, ValuesIn(keys[1..]), o);
      KeysKept(keys[1..], last, o);
      var back := KeysAs(keys[1..], last, o);
      assert ([Key(k.name, ValsAs(k.vals, previous, o))] + back)[1..] == back;
      assert keys == [k] + keys[1..];
    }
  }

  lemma OneEmptiesFirst(v: string)
    ensures EmptiesFirst([v] + [])
  {
  }

  lemma {:induction false} ValsSame(vals: seq<Val>, previous: Option<string>, o: Options)
    requires !o.keyOnly
    ensures ValsAs(vals, previous, o) == vals
    decreases |vals|
  {
    if vals != [] { ValsSame(vals[1..], Some(vals[0].value), o); }
  }

  lemma {:induction false} KeysSame(keys: seq<Key>, previous: Option<string>, o: Options)
    requires !o.keyOnly
    ensures KeysAs(keys, previous, o) == keys
    decreases |keys|
  {
    hide ValsAs, ValLast;
    if keys != [] {
      ValsSame(keys[0].vals, previous, o);
      KeysSame(keys[1..], ValLast(keys[0].vals, previous, o), o);
    }
  }

  /** A listing reads as itself exactly when no empty value takes over another. */
  lemma SectsKept(ds: seq<Sect>, o: Options)
    ensures SectsAs(ds, o) == ds <==> (o.keyOnly ==> NoneTakesOver(ds))
  {
    hide KeysAs, EmptiesFirst, ValuesIn;
    SectsAsShape(ds, o);
    forall i | 0 <= i < |ds|
      ensures KeysAs(ds[i].keys, None, o) == ds[i].keys <==> (o.keyOnly ==> EmptiesFirst(ValuesIn(ds[i].keys))) {
      if o.keyOnly {
        KeysKept(ds[i].keys, None, o);
        EmptiesFirstStep("", ValuesIn(ds[i].keys));
      } else {
        KeysSame(ds[i].keys, None, o);
      }
    }
    if SectsAs(ds, o) == ds {
      forall s | s in ds && o.keyOnly ensures EmptiesFirst(ValuesIn(s.keys)) {
        var i :| 0 <= i < |ds| && ds[i] == s;
        assert SectsAs(ds, o)[i] == ds[i];
      }
    } else {
      var i :| 0 <= i < |ds| && SectsAs(ds, o)[i] != ds[i];
      assert ds[i] in ds;
    }
  }

  /** So what comes back of a listing is the listing exactly when also no nameless section without keys is in it. */
  lemma ReadsAsItself(ds: seq<Sect>, o: Options)
    ensures SectsAs(Written(ds), o) == ds <==> Written(ds) == ds && (o.keyOnly ==> NoneTakesOver(ds))
  {
    hide NoneTakesOver, SectsAs;
    SectsAsShape(Written(ds), o);
    SectsKept(ds, o);
  }
}
