/** The INI object: its table, its settings, the block it was loaded from, and its operations. */
module IniStore {
  import opened Basics
  import opened IniText
  import opened IniOrder
  import opened IniGrammar
  import opened IniDocument
  import opened IniTable
  import opened IniView
  import opened IniBuild
  import opened IniBuildDocument
  import opened IniSearch
  import opened IniRoundTrip
  import opened IniScan
  import opened IniBlocks
  import opened IniParser
  import opened IniWriter

  /** The result codes of AddEntry. */
  datatype Change = Updated | Inserted

  /** The strings of one entry, as positions in the loaded block. */
  datatype Handed = Handed(section: Ptr, key: Ptr, val: Ptr, comment: Ptr)

  /** In the buffer b, the positions h stand for the strings of the entry. */
  ghost predicate InPlace(b: seq<char>, h: Handed, x: Entry, p: int, e: int) {
    && Settled(b, h.section, Some(x.section), p, e) && Settled(b, h.key, x.key, p, e)
    && Settled(b, h.val, x.value, p, e) && Settled(b, h.comment, x.comment, p, e)
  }

  ghost predicate AllInPlace(b: seq<char>, hs: seq<Handed>, xs: seq<Entry>, p: int, e: int) {
    |hs| == |xs| && forall i :: 0 <= i < |hs| ==> InPlace(b, hs[i], xs[i], p, e)
  }

  /** Strings handed out stay what they are while the reader goes on. */
  lemma AllStandStay(b: seq<char>, c: seq<char>, hs: seq<Handed>, xs: seq<Entry>, p: int, q: int, e: int)
    requires AllInPlace(b, hs, xs, p, e) && Unread(b, p, e) && AgreeOutside(b, c, p, q) && p <= q <= e < |b|
    ensures AllInPlace(c, hs, xs, q, e)
  {
    hide Settled, Unread, AgreeOutside;
    forall i | 0 <= i < |hs| ensures InPlace(c, hs[i], xs[i], q, e) {
      var h, x := hs[i], xs[i];
      assert InPlace(b, h, x, p, e);
      SettledStays(b, c, h.section, Some(x.section), p, q, e);
      SettledStays(b, c, h.key, x.key, p, q, e);
      SettledStays(b, c, h.val, x.value, p, q, e);
      SettledStays(b, c, h.comment, x.comment, p, q, e);
    }
  }

  /** The strings of an entry that FindEntry found, given that those of the entry before were settled. */
  lemma FoundStands(b: seq<char>, c: seq<char>, t: seq<char>, step: Step, section: Ptr, key: Ptr, val: Ptr,
                    comment: Ptr,
                    section0: Ptr, prev: Ptr, name: string, previous: Option<string>, p0: int, p: int, e: int)
    requires 0 <= p0 <= p <= e < |t| && step.Found? && Unread(b, p0, e) && AgreeOutside(b, c, p0, p)
    requires |t| == |b| && EntryFound(c, t, step, section, key, val, comment, section0, prev, name, previous, p, e)
    requires Settled(b, section0, Some(name), p0, e) && Settled(b, prev, previous, p0, e)
    ensures InPlace(c, Handed(section, key, val, comment), step.entry, p, e) && step.rest == t[p..e]
  {
    hide Settled, Unread, AgreeOutside;
    SettledStays(b, c, section0, Some(name), p0, p, e);
    SettledStays(b, c, prev, previous, p0, p, e);
    NullSettled(c, p, e);
  }

  /** One entry of the text, read off its grammar. */
  lemma ParseStep(s: string, name: string, previous: Option<string>, o: Options)
    ensures var step := Next(s, name, previous, None, o);
      && (step.Malformed? ==> !Parse(s, name, previous, o).complete)
      && (step.Finish? ==> Parse(s, name, previous, o) == Parsed([], true))
      && (step.Found? ==>
        var rest := Parse(step.rest, step.entry.section, step.entry.value, o);
        Parse(s, name, previous, o) == Parsed([step.entry] + rest.entries, rest.complete))
  {
    hide Next;
  }

  lemma AddOne(t: Table, done: seq<Entry>, x: Entry, multiKey: bool)
    ensures AddAll(t, done + [x], multiKey) == Add(AddAll(t, done, multiKey), x, false, multiKey)
  {
    hide Add;
    AddAllAppend(t, done, [x], multiKey);
  }

  lemma AgreeTail(t: seq<char>, b: seq<char>, p0: int, p: int, e: int)
    requires 0 <= p0 <= p <= e < |t| && AgreeOutside(t, b, p0, p)
    ensures |b| == |t| && b[p..e] == t[p..e] && b[e] == t[e]
  {
  }

  lemma AgreeStays(t: seq<char>, b: seq<char>, c: seq<char>, p0: int, q: int, p: int, e: int)
    requires 0 <= p0 <= q <= p <= e < |t| && AgreeOutside(t, b, p0, q) && AgreeOutside(b, c, q, p) && Unread(b, q, e)
    ensures AgreeOutside(t, c, p0, p) && Unread(c, p, e) && c[e] == NUL
  {
  }

  /** What the loader has done so far: the entries added, and the strings its two pointers stand for. */
  datatype SoFar = SoFar(done: seq<Entry>, name: string, previous: Option<string>)

  /** The loop invariant of the loader for a text that can be read through, with all its entries xs. */
  ghost predicate Progress(b: seq<char>, t: seq<char>, xs: seq<Entry>, so: SoFar, section: Ptr, val: Ptr,
                           handed: seq<Handed>,
                           p: int, e: int, rows0: Table, rows: Table, o: Options)
  {
    && 0 <= p <= e < |t|
    && xs == so.done + Parse(t[p..e], so.name, so.previous, o).entries
    && Parse(t[p..e], so.name, so.previous, o).complete
    && Settled(b, section, Some(so.name), p, e) && Settled(b, val, so.previous, p, e)
    && AllInPlace(b, handed, so.done, p, e) && rows == AddAll(rows0, so.done, o.multiKey)
  }

  lemma ProgressEnds(b: seq<char>, c: seq<char>, t: seq<char>, xs: seq<Entry>, so: SoFar, section: Ptr, val: Ptr,
                     handed: seq<Handed>,
                     q: int, p: int, e: int, rows0: Table, rows: Table, o: Options)
    requires Progress(b, t, xs, so, section, val, handed, q, e, rows0, rows, o) && q <= p <= e < |b|
    requires Unread(b, q, e)
    requires Next(t[q..e], so.name, so.previous, None, o).Finish? ==> AgreeOutside(b, c, q, p)
    requires !Next(t[q..e], so.name, so.previous, None, o).Found?
    ensures xs == so.done && AllInPlace(c, handed, xs, e, e) && rows == AddAll(rows0, xs, o.multiKey)
  {
    hide Parse, Next, Add, AddAll, Settled, AgreeOutside, Unread, AllInPlace, InPlace;
    ParseStep(t[q..e], so.name, so.previous, o);
    assert so.done + [] == so.done;
    AllStandStay(b, c, handed, so.done, q, p, e);
    AllStandAtEnd(c, handed, so.done, p, e);
  }

  lemma ProgressGoesOn(b: seq<char>, c: seq<char>, t: seq<char>, xs: seq<Entry>, so: SoFar, section: Ptr, val: Ptr,
                       handed: seq<Handed>,
                       h: Handed, x: Entry, q: int, p: int, e: int, rows0: Table, rows: Table, o: Options)
    requires Progress(b, t, xs, so, section, val, handed, q, e, rows0, rows, o) && q <= p <= e < |b| == |t|
    requires Unread(b, q, e) && AgreeOutside(b, c, q, p) && b[q..e] == t[q..e]
    requires var step := Next(b[q..e], so.name, so.previous, None, o);
      step.Found? ==> EntryFound(c, b, step, h.section, h.key, h.val, h.comment, section, val,
                                 so.name, so.previous, p, e)
    requires !Next(b[q..e], so.name, so.previous, None, o).Finish?
    requires forall y, i :: InPlace(c, h, y, i, e) ==> y == x
    ensures var step := Next(t[q..e], so.name, so.previous, None, o);
      && step.Found?
      && Progress(c, t, xs, SoFar(so.done + [step.entry], step.entry.section, step.entry.value),
                  h.section, h.val, handed + [h],
                  p, e, rows0, Add(rows, x, false, o.multiKey), o)
  {
    hide Parse, Next, Add, AddAll, Settled, AgreeOutside, Unread, AllInPlace, InPlace, EntryFound;
    var step := Next(t[q..e], so.name, so.previous, None, o);
    ParseStep(t[q..e], so.name, so.previous, o);
    AllStandStay(b, c, handed, so.done, q, p, e);
    FoundStands(b, c, b, step, h.section, h.key, h.val, h.comment, section, val, so.name, so.previous, q, p, e);
    assert x == step.entry;
    StandsParts(c, h, x, p, e);
    AddOne(rows0, so.done, x, o.multiKey);
    AllStandMore(c, handed, so.done, h, x, p, e);
    assert b[p..e] == b[q..e][p - q..] && t[p..e] == t[q..e][p - q..];
    var rest := Parse(step.rest, step.entry.section, step.entry.value, o);
    assert so.done + ([x] + rest.entries) == so.done + [x] + rest.entries;
  }

  lemma AtStart(t: seq<char>, p0: int, e: int, rows: Table, o: Options)
    requires Unread(t, p0, e)
    ensures 0 <= p0 <= e < |t| && AgreeOutside(t, t, p0, p0) && InBuffer(Empty, e) && InBuffer(Null, e)
    ensures var parsed := Parse(t[p0..e], "", None, o);
      parsed.complete ==> Progress(t, t, parsed.entries, SoFar([], "", None), Empty, Null, [], p0, e, rows, rows, o)
  {
    hide Parse;
    var parsed := Parse(t[p0..e], "", None, o);
    assert [] + parsed.entries == parsed.entries;
  }

  lemma StandsParts(b: seq<char>, h: Handed, x: Entry, p: int, e: int)
    requires InPlace(b, h, x, p, e)
    ensures Settled(b, h.section, Some(x.section), p, e) && Settled(b, h.val, x.value, p, e)
  {
    hide Settled;
  }

  lemma AllStandMore(b: seq<char>, hs: seq<Handed>, xs: seq<Entry>, h: Handed, x: Entry, p: int, e: int)
    requires AllInPlace(b, hs, xs, p, e) && InPlace(b, h, x, p, e)
    ensures AllInPlace(b, hs + [h], xs + [x], p, e)
  {
    hide InPlace;
  }

  lemma AllStandAtEnd(b: seq<char>, hs: seq<Handed>, xs: seq<Entry>, p: int, e: int)
    requires AllInPlace(b, hs, xs, p, e) && p <= e
    ensures AllInPlace(b, hs, xs, e, e)
  {
    forall i | 0 <= i < |hs| ensures InPlace(b, hs[i], xs[i], e, e) { assert InPlace(b, hs[i], xs[i], p, e); }
  }

  lemma NothingReceived(text: string, rows: Table, o: Options)
    requires (if BOM <= text then text[3..] else text) == ""
    ensures Received(text) == "" && FileComment("") == None && Body("") == ""
      && Parse("", "", None, o) == Parsed([], true)
    ensures AddAll(rows, [], o.multiKey) == rows
    ensures AllInPlace([], [], [], 0, 0)
  {
    NothingLeft("", None, None, o);
  }

  /** The buffer holds the received text, closed by a NUL. */
  lemma BufferIs(b: seq<char>, text: string, source: string)
    requires source == (if BOM <= text then text[3..] else text) && source != ""
    requires |b| == |source| + 1 && b[|source|] == NUL && forall i :: 0 <= i < |source| ==> b[i] == source[i]
    ensures var e := |Received(text)|; Unread(b, 0, e) && b[..e] == Received(text)
  {
    var e := |Received(text)|;
    assert Received(text) == source[..e];
    assert forall i :: 0 <= i < e ==> NotNul(source[i]);
  }

  lemma NoCommentThere(b: seq<char>, s: string, e: int)
    requires 0 <= e < |b| && s == b[..e] && !IsComment(b[0])
    ensures FileComment(s) == None && Body(s) == s
  {
  }

  class SimpleIni {
    var data: array?<char>
    var fileComment: Option<string>
    var sections: seq<Section>
    var order: int
    var options: Options

    constructor (multiKey: bool, multiLine: bool)
      ensures State() == FRESH && Valid(Rows())
      ensures options == Options(multiKey, multiLine, true, false, false) && data == null
    {
      data := null;
      fileComment := None;
      sections := [];
      order := 0;
      options := Options(multiKey, multiLine, true, false, false);
    }

    function Rows(): Table
      reads this
    {
      Table(sections, order)
    }

    function State(): Ini
      reads this
    {
      Ini(fileComment, Rows())
    }

    /** Adds a section (key is None) or sets a key. */
    method AddEntry(section: string, key: Option<string>, value: Option<string>, comment: Option<string>, force: bool)
      returns (rc: Change)
      requires Valid(Rows())
      modifies this`sections, this`order
      ensures Rows() == Add(old(Rows()), Entry(section, key, value, comment), force, options.multiKey) && Valid(Rows())
      ensures rc == Inserted <==>
        if key.None? then !HasSection(old(sections), section) else !HasKey(PairsOf(old(sections), section), key.value)
    {
      hide Less, Fold, Same, SortedPairs, SortedSections, SectionOk, AllApart, Assign, InsertSection, HasKey;
      ghost var x := Entry(section, key, value, comment);
      AddKeepsValid(Rows(), x, force, options.multiKey);
      assert SortedSections(sections);
      var i := FindSection(sections, section);
      var inserted := false;
      if i == |sections| {
        order := order + 1;
        inserted := true;
        sections := InsertNew(sections, Section(section, if key.None? then comment else None, order, []));
      }
      if key.None? {
        return if inserted then Inserted else Updated;
      }
      assert Rows() == EnsureSection(old(Rows()), section, None);
      EnsureKeepsValid(old(Rows()), section, None);
      EnsureHas(old(Rows()), section, None);
      i := FindSection(sections, section);
      rc := PutKey(i, section, key.value, if value.None? then "" else value.value, comment, force);
      if inserted { NewSectionIsEmpty(old(Rows()), section, key.value); }
    }

    /** The second half of AddEntry: the section exists, at position i. */
    method PutKey(i: nat, section: string, key: string, value: string, comment: Option<string>, force: bool)
      returns (rc: Change)
      requires Valid(Rows()) && HasSection(sections, section) && i == SectionIndex(sections, section)
      modifies this`sections, this`order
      ensures Rows() == PutPair(old(Rows()), section, key, value, comment, force, options.multiKey)
      ensures rc == Inserted <==> !HasKey(PairsOf(old(sections), section), key)
    {
      hide Less, Fold, Same, SortedPairs, SortedSections, AllApart, HasKey, Assign;
      assert SectionOk(sections[i], order);
      forall q | q in sections[i].pairs ensures q.order < order + 1 { assert q.order in OrderSet(sections[i].pairs); }
      order := order + 1;
      var ps, inserted := AssignKey(sections[i].pairs, key, value, comment, order, force, options.multiKey);
      sections := sections[i := sections[i].(pairs := ps)];
      rc := if inserted then Inserted else Updated;
    }

    /** The multimap of a section gets a value for a key: a further pair, a new value for the pair there is,
        or, with force, one pair in place of all those of the key. */
    static method AssignKey(ps: seq<Pair>, key: string, value: string, comment: Option<string>, order: int, force: bool,
                            multiKey: bool)
      returns (qs: seq<Pair>, inserted: bool)
      requires SortedPairs(ps) && Distinct(ps) && forall q :: q in ps ==> q.order < order
      ensures qs == Assign(ps, key, value, comment, order, force, multiKey)
      ensures inserted <==> !HasKey(ps, key)
    {
      hide Less, Fold, Same, SortedPairs, HasKey, InsertPair, Matches, Without;
      var k := FindKey(ps, key);
      KeyIndexFinds(ps, key);
      inserted := k == |ps|;
      if !inserted && !multiKey {
        qs := ps[k := ps[k].(value := value)];
      } else if !inserted && force {
        var p := OldestOf(ps, key, k, Pair(key, comment, order, value));
        var deleted;
        qs, deleted := Erase(ps, key, None, k);
        qs := Insert(qs, Pair(key, if p.comment.Some? then p.comment else comment, p.order, value));
      } else {
        qs := Insert(ps, Pair(key, comment, order, value));
      }
    }

    /** A section, a key, or the pairs of a key that have a certain value are removed. */
    method DeleteValue(section: string, key: Option<string>, value: Option<string>, removeEmpty: bool)
      returns (done: bool)
      requires Valid(Rows())
      modifies this`sections
      ensures (Rows(), done) == Delete(old(Rows()), section, key, value, removeEmpty) && Valid(Rows())
    {
      hide Less, Fold, Same, SortedPairs, SortedSections, AllApart, HasKey, Without;
      DeleteKeepsValid(Rows(), section, key, value, removeEmpty);
      var i := FindSection(sections, section);
      if i == |sections| { return false; }
      if key.Some? {
        var ps := sections[i].pairs;
        assert SectionOk(sections[i], order);
        var k := FindKey(ps, key.value);
        KeyIndexFinds(ps, key.value);
        WithoutShorter(ps, key.value, value);
        if k == |ps| { return false; }
        var qs, deleted := Erase(ps, key.value, value, k);
        if !deleted { return false; }
        if !removeEmpty || qs != [] {
          sections := sections[i := sections[i].(pairs := qs)];
          return true;
        }
      }
      sections := sections[..i] + sections[i + 1..];
      return true;
    }

    /** The value of a key (None if there is none), and with multi-key on whether it has several. */
    method GetValue(section: string, key: string) returns (value: Option<string>, several: bool)
      requires Valid(Rows())
      ensures var ms := Matches(PairsOf(sections, section), key);
        && value == (if ms == [] then None else Some(ms[0].value))
        && several == (options.multiKey && |ms| > 1)
    {
      hide Less, Fold, Same, SortedPairs, SortedSections, AllApart, HasKey, Matches;
      value, several := None, false;
      var i := FindSection(sections, section);
      if i == |sections| { NoPairsNoMatches(key); return; }
      var ps := sections[i].pairs;
      assert SectionOk(sections[i], order);
      var k := FindKey(ps, key);
      KeyIndexFinds(ps, key);
      MatchesAre(ps, key);
      if k == |ps| { return; }
      FirstMatches(ps, key, k);
      if options.multiKey && k + 1 < |ps| {
        var greater := IsLess(key, ps[k + 1].key);
        several := !greater;
      }
      value := Some(ps[k].value);
    }

    /** All values of a key, or only the first when multi-key is off. */
    method GetAllValues(section: string, key: string) returns (ok: bool, values: seq<Name>)
      requires Valid(Rows())
      ensures ok <==> HasKey(PairsOf(sections, section), key)
      ensures values == ValueNames(ValuesOf(PairsOf(sections, section), key, options.multiKey))
    {
      hide Less, Fold, Same, SortedPairs, SortedSections, AllApart, HasKey, Matches;
      values := [];
      var i := FindSection(sections, section);
      if i == |sections| { NoPairsNoMatches(key); return false, []; }
      var ps := sections[i].pairs;
      assert SectionOk(sections[i], order);
      var k := FindKey(ps, key);
      KeyIndexFinds(ps, key);
      MatchesAre(ps, key);
      if k == |ps| { return false, []; }
      FirstMatches(ps, key, k);
      var found := [ps[k]];
      if options.multiKey { found := Collect(ps, key, k); }
      values := ValueNames(found);
      ok := true;
    }

    /** All keys of a section, each once, in table order. */
    method GetAllKeys(section: string) returns (ok: bool, names: seq<Name>)
      requires Valid(Rows())
      ensures ok <==> HasSection(sections, section)
      ensures names == Firsts(PairsOf(sections, section))
    {
      hide Less, Fold, Same, SortedPairs, SortedSections, AllApart, HasKey;
      var i := FindSection(sections, section);
      if i == |sections| { return false, []; }
      assert SectionOk(sections[i], order);
      names := ListKeys(sections[i].pairs);
      ok := true;
    }

    /** The number of keys of a section, -1 if there is no such section. Without multi-key it is the number of pairs. */
    method GetSectionSize(section: string) returns (size: int)
      requires Valid(Rows())
      ensures size == if !HasSection(sections, section) then -1
                      else if options.multiKey then |Firsts(PairsOf(sections, section))|
                      else |PairsOf(sections, section)|
    {
      hide Less, Fold, Same, SortedPairs, SortedSections, AllApart, HasKey;
      var i := FindSection(sections, section);
      if i == |sections| { return -1; }
      if !options.multiKey || sections[i].pairs == [] { return |sections[i].pairs|; }
      assert SectionOk(sections[i], order);
      var names := ListKeys(sections[i].pairs);
      size := |names|;
    }

    // ---------- saving

    /** GetAllSections: the sections in table order. */
    method GetAllSections() returns (names: seq<Name>)
      ensures names == Heads(sections)
    {
      names := [];
      var i := 0;
      while i < |sections|
        invariant i <= |sections| && |names| == i && forall k :: 0 <= k < i ==> names[k] == HeadOf(sections[k])
      {
        names := names + [HeadOf(sections[i])];
        i := i + 1;
      }
    }

    /** The keys of a section in load order, with all their values. */
    method WriteKeys(section: string, nl: string) returns (out: string)
      requires Valid(Rows())
      ensures out == PrintKeys(Keys(PairsOf(sections, section), options.multiKey), options, nl)
    {
      hide Less, Fold, Same, Valid, PairsOf, PrintVals, ValuesOf, PrintKeys, HasKey, HasSection;
      var _, names := GetAllKeys(section);
      var ks := ByOrder(names);
      ghost var ps := PairsOf(sections, section);
      ghost var docs := Keys(ps, options.multiKey);
      out := "";
      assert docs[0..] == docs && "" + PrintKeys(docs, options, nl) == PrintKeys(docs, options, nl);
      var i := 0;
      while i < |ks|
        invariant i <= |ks| == |docs| && out + PrintKeys(docs[i..], options, nl) == PrintKeys(docs, options, nl)
      {
        var _, values := GetAllValues(section, ks[i].item);
        NameValsAre(ValuesOf(ps, ks[i].item, options.multiKey));
        assert docs[i] == KeyDoc(ps, ks[i], options.multiKey);
        var text := WriteVals(ks[i].item, values, options, nl);
        KeysStep(docs, i, out, text, options, nl);
        out := out + text;
        i := i + 1;
      }
      assert docs[i..] == [] && docs[0..] == docs;
      NothingPrinted(options, nl, true);
    }

    /** The sections in the order in which they are written. */
    method SortedHeads() returns (heads: seq<Name>)
      ensures heads == WriteOrder(sections)
    {
      heads := GetAllSections();
      heads := MoveNamelessFirst(ByOrder(heads));
    }

    /** The whole object as text; signature says whether a byte order mark goes in front. */
    method Save(signature: bool, nl: string) returns (out: string)
      requires Valid(Rows())
      ensures out == IniRoundTrip.Save(State(), signature, options, nl)
    {
      hide Less, Fold, Same, Valid, PairsOf, PrintKeys, Keys, PrintSections, PrintHeader, Output, WriteOrder;
      out := if signature then BOM else "";
      ghost var start := out;
      var heads := SortedHeads();
      ghost var docs := Sects(Rows(), options.multiKey);
      var gap := false;
      if fileComment.Some? {
        var text := WriteLines(fileComment.value, nl);
        out := out + text;
        gap := true;
      }
      ghost var begun := out;
      assert docs[0..] == docs;
      var i := 0;
      while i < |heads|
        invariant i <= |heads| == |docs| && (i > 0 ==> gap)
        invariant out + PrintSections(docs[i..], gap, options, nl)
          == begun + PrintSections(docs, fileComment.Some?, options, nl)
      {
        assert docs[i] == SectDoc(sections, heads[i], options.multiKey);
        var head := WriteHeader(heads[i], nl);
        var keys := WriteKeys(heads[i].item, nl);
        SectionsStep(docs, i, gap, out, head, keys, options, nl);
        if gap { out := out + (nl + nl); } else { assert out + "" == out; }
        out := out + head + keys;
        gap := true;
        i := i + 1;
      }
      assert docs[i..] == [];
      NothingPrinted(options, nl, gap);
      assert out == begun + PrintSections(docs, fileComment.Some?, options, nl);
    }

    /** The comment of a section and its name in brackets, if it has one. */
    static method WriteHeader(h: Name, nl: string) returns (out: string)
      ensures forall keys :: out == PrintHeader(Sect(h.item, h.comment, keys), nl)
    {
      hide Output;
      out := "";
      if h.comment.Some? { out := WriteLines(h.comment.value, nl); }
      if h.item != "" { out := out + ("[" + h.item + "]" + nl); }
    }

    // ---------- loading

    /** Loads a text into what is there. When the reader keeps its place, the object afterwards is the pure
        result, and every string handed out stands in the block exactly as the grammar gives it. So does a file
        comment taken from this text, at the start of the block, whatever the text. */
    method LoadData(text: string) returns (ghost block: seq<char>, ghost handed: seq<Handed>)
      requires Valid(Rows())
      modifies this
      ensures Valid(Rows()) && options == old(options)
      ensures EntriesFor(old(State()), text, options).complete ==> State() == LoadInto(old(State()), text, options)
      ensures EntriesFor(old(State()), text, options).complete ==>
        exists e :: AllInPlace(block, handed, EntriesFor(old(State()), text, options).entries, e, e)
      ensures old(fileComment).None? && fileComment.Some? ==> IsCStr(block, 0, fileComment.value)
      ensures data == old(data) || (old(data) == null && data != null && data[..] == block)
    {
      hide EntriesFor, LoadInto, Valid, AllInPlace, IsCStr, Received, Unread;
      var source := if BOM <= text then text[3..] else text;
      if source == "" {
        NothingToLoad(State(), text, options);
        return [], [];
      }
      var n := |source|;
      var buf := new char[n + 1](i => if 0 <= i < n then source[i] else NUL);
      BufferIs(buf[..], text, source);
      handed := ReadBlock(buf, text, |Received(text)|);
      block := buf[..];
      if data == null { data := buf; }
    }

    /** The block holds the text received: the file comment is taken if one is wanted, then every entry is added. */
    method ReadBlock(buf: array<char>, ghost text: string, ghost e: nat) returns (ghost handed: seq<Handed>)
      requires Valid(Rows()) && e == |Received(text)| && Unread(buf[..], 0, e) && buf[..][..e] == Received(text)
      modifies this`fileComment, this`sections, this`order, buf
      ensures Valid(Rows())
      ensures EntriesFor(old(State()), text, options).complete ==>
        && State() == LoadInto(old(State()), text, options)
        && AllInPlace(buf[..], handed, EntriesFor(old(State()), text, options).entries, e, e)
      ensures old(fileComment).None? && fileComment.Some? ==> IsCStr(buf[..], 0, fileComment.value)
    {
      hide Parse, Valid, AddAll, AllInPlace, IsCStr, Received, Unread, Settled, Body, FileComment;
      var p := 0;
      if fileComment.None? {
        p := TakeFileComment(buf, text, e);
      } else {
        UnreadBounds(buf[..], e);
        assert buf[..][0..e] == buf[..][..e];
      }
      ghost var before := buf[..];
      UnreadEnds(before, p, e);
      handed := AddEntries(buf, p, e);
      if old(fileComment).None? && fileComment.Some? { CommentStays(before, buf[..], fileComment.value, p, e); }
    }

    /** The comment at the front of the text becomes the file comment; the cursor ends behind it. */
    method TakeFileComment(buf: array<char>, ghost text: string, ghost e: nat) returns (p: nat)
      requires Unread(buf[..], 0, e) && buf[..][..e] == Received(text)
      modifies this`fileComment, buf
      ensures fileComment == FileComment(Received(text))
      ensures p <= e && Unread(buf[..], p, e) && buf[..][p..e] == Body(Received(text))
      ensures fileComment.Some? ==> Settled(buf[..], At(0), fileComment, p, e)
    {
      hide CommentBlock, Received;
      ghost var b := buf[..];
      ghost var s := Received(text);
      assert s == b[0..e] && (s != "" ==> s[0] == b[0]);
      var c;
      p, c := LoadComment(buf, 0, false, e);
      assert b[p..e] == buf[..][p..e];
      ghost var block := if c.Some? then CommentBlock(s, false).text else "";
      if c.None? { assert s == b[p..e]; NoCommentThere(b, s, e); }
      fileComment := ReadStr(buf, if c.Some? then At(0) else Null, e);
      assert Settled(buf[..], if c.Some? then At(0) else Null, if c.Some? then Some(block) else None, p, e);
    }

    /** Every entry of the buffer from p0 on is found and added. If the text is read through, the entries
        are those of the grammar on the text as it was, and the strings handed out on the way are still in place. */
    method AddEntries(buf: array<char>, p0: nat, ghost e: nat) returns (ghost handed: seq<Handed>)
      requires Valid(Rows()) && Unread(buf[..], p0, e)
      modifies this`sections, this`order, buf
      ensures Valid(Rows())
      ensures forall i :: 0 <= i < p0 ==> buf[i] == old(buf[i])
      ensures p0 == e ==> buf[..] == old(buf[..])
      ensures var parsed := Parse(old(buf[..])[p0..e], "", None, options);
        parsed.complete ==>
          Rows() == AddAll(old(Rows()), parsed.entries, options.multiKey)
          && AllInPlace(buf[..], handed, parsed.entries, e, e)
    {
      ghost var t := buf[..];
      ghost var parsed := Parse(t[p0..e], "", None, options);
      hide Parse, Next, Valid, Add, AddAll, Settled, EntryFound, AgreeOutside, Unread, AllInPlace, InPlace, Progress;
      ghost var so := SoFar([], "", None);
      handed := [];
      var p, section, val := p0, Empty, Null;
      AtStart(t, p0, e, Rows(), options);
      while true
        invariant p0 <= p <= e < |t| == buf.Length && Valid(Rows())
        invariant AgreeOutside(t, buf[..], p0, p) && Unread(buf[..], p, e) && InBuffer(section, e) && InBuffer(val, e)
        invariant parsed.complete ==>
          Progress(buf[..], t, parsed.entries, so, section, val, handed, p, e, old(Rows()), Rows(), options)
        decreases e - p
      {
        ghost var b, q, section0, prev, rows := buf[..], p, section, val, Rows();
        ghost var step := Next(t[q..e], so.name, so.previous, None, options);
        AgreeTail(t, b, p0, q, e);
        var found, key, comment;
        found, p, section, key, val, comment := FindEntry(buf, p, section, val, options, so.name, so.previous, e);
        if !found {
          if parsed.complete {
            ProgressEnds(b, buf[..], t, parsed.entries, so, section0, prev, handed, q, p, e, old(Rows()), Rows(),
                         options);
          }
          return;
        }
        AgreeStays(t, b, buf[..], p0, q, p, e);
        var nameRead, keyRead, valRead, commentRead := ReadEntry(buf, section, key, val, comment, e);
        var _ := AddEntry(nameRead, keyRead, valRead, commentRead, false);
        if parsed.complete {
          ghost var h := Handed(section, key, val, comment);
          ProgressGoesOn(b, buf[..], t, parsed.entries, so, section0, prev, handed, h,
                         Entry(nameRead, keyRead, valRead, commentRead),
                         q, p, e, old(Rows()), rows, options);
          so := SoFar(so.done + [step.entry], step.entry.section, step.entry.value);
          handed := handed + [h];
        }
      }
    }

    /** The strings of an entry are read out of the buffer. */
    static method ReadEntry(buf: array<char>, section: Ptr, key: Ptr, val: Ptr, comment: Ptr, ghost e: nat)
      returns (name: string, k: Option<string>, v: Option<string>, c: Option<string>)
      requires e < buf.Length && buf[e] == NUL && InBuffer(section, e) && InBuffer(key, e) && InBuffer(val, e)
      requires InBuffer(comment, e)
      ensures forall x, p :: InPlace(buf[..], Handed(section, key, val, comment), x, p, e) ==> x == Entry(name, k, v, c)
    {
      hide Settled;
      var s := ReadStr(buf, section, e);
      name := if s.Some? then s.value else "";
      k := ReadStr(buf, key, e);
      v := ReadStr(buf, val, e);
      c := ReadStr(buf, comment, e);
    }

    /** The string at a position of the buffer, up to its NUL. */
    static method ReadStr(buf: array<char>, ptr: Ptr, ghost e: nat) returns (s: Option<string>)
      requires e < buf.Length && buf[e] == NUL && InBuffer(ptr, e)
      ensures forall x, p :: Settled(buf[..], ptr, x, p, e) ==> s == x
    {
      if ptr.Null? { return None; }
      if ptr.Empty? { return Some(""); }
      var i := ptr.pos;
      while buf[i] != NUL
        invariant ptr.pos <= i <= e && forall k :: ptr.pos <= k < i ==> buf[k] != NUL
        decreases e - i
      {
        i := i + 1;
      }
      s := Some(buf[ptr.pos..i]);
      forall x, p | Settled(buf[..], ptr, x, p, e) ensures s == x {
        StrUnique(buf[..], ptr.pos, x.value, i);
      }
    }
  }

  lemma UnreadBounds(b: seq<char>, e: int)
    requires Unread(b, 0, e)
    ensures 0 <= e < |b|
  {
  }

  lemma UnreadEnds(b: seq<char>, p: int, e: int)
    requires Unread(b, p, e)
    ensures 0 <= p <= e < |b| && b[e] == NUL
  {
  }

  lemma NothingToLoad(ini: Ini, text: string, o: Options)
    requires (if BOM <= text then text[3..] else text) == ""
    ensures LoadInto(ini, text, o) == ini && EntriesFor(ini, text, o) == Parsed([], true)
      && AllInPlace([], [], [], 0, 0)
  {
    hide Parse, AddAll, AllInPlace, Received, FileComment, Body;
    NothingReceived(text, ini.table, o);
  }

  /** The file comment is not touched by the entries read behind it. */
  lemma CommentStays(b: seq<char>, c: seq<char>, comment: string, p: int, e: int)
    requires 0 <= p <= e < |b| == |c| && b[e] == NUL && Settled(b, At(0), Some(comment), p, e)
    requires (forall i :: 0 <= i < p ==> c[i] == b[i]) && (p == e ==> c == b)
    ensures IsCStr(c, 0, comment)
  {
  }

  /** A string of the buffer ends at the first NUL behind its start. */
  lemma StrUnique(b: seq<char>, i: int, s: string, j: int)
    requires IsCStr(b, i, s) && i <= j < |b| && b[j] == NUL && forall k :: i <= k < j ==> b[k] != NUL
    ensures b[i..j] == s
  {
    forall k | 0 <= k < |s| ensures b[i + k] == s[k] && b[i + k] != NUL {
      assert b[i..i + |s|][k] == s[k] && s[k] in s;
    }
    assert j == i + |s|;
  }

  function ValueNames(ps: seq<Pair>): seq<Name> {
    seq(|ps|, i requires 0 <= i < |ps| => Name(ps[i].value, ps[i].comment, ps[i].order))
  }

  lemma NameValsAre(ps: seq<Pair>)
    ensures NameVals(ValueNames(ps)) == ToVals(ps)
  {
  }

  lemma NoPairsNoMatches(key: string)
    ensures Matches([], key) == [] && !HasKey([], key)
  {
  }

  /** The first match is the pair found; there is a second one exactly when the next key is not greater. */
  lemma FirstMatches(ps: seq<Pair>, key: string, k: nat)
    requires SortedPairs(ps) && k == KeyIndex(ps, key) && k < |ps|
    ensures Matches(ps, key) != [] && Matches(ps, key)[0] == ps[k]
    ensures |Matches(ps, key)| > 1 <==> k + 1 < |ps| && !Less(key, ps[k + 1].key)
  {
    hide Less, Fold, Same, SortedPairs;
    NoMatchesBefore(ps, key);
    MatchesStep(ps, key, k);
    MatchesAppend(ps[..k + 1], ps[k + 1..], key);
    assert ps == ps[..k + 1] + ps[k + 1..];
    if k + 1 < |ps| {
      if Less(key, ps[k + 1].key) {
        MatchesComplete(ps, key, k + 1);
      } else {
        NotGreaterIsSame(ps, key, k, k + 1);
      }
    }
  }

  /** A section that was just created has no keys, and neither had it before. */
  lemma NewSectionIsEmpty(t: Table, name: string, key: string)
    requires Valid(t) && !HasSection(t.sections, name)
    ensures !HasKey(PairsOf(t.sections, name), key)
    ensures !HasKey(PairsOf(EnsureSection(t, name, None).sections, name), key)
  {
    hide Less, Fold, Same, SectionOk, AllApart, InsertSection;
    SameIsSymmetric(name, name, name);
    PairsOfInsert(t.sections, Section(name, None, t.order + 1, []), name);
    NoMatches([], key);
  }
}
