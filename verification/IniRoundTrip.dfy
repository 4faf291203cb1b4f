/** Saving and loading undo each other, on whole tables and on whole texts. */
module IniRoundTrip {
  import opened Basics
  import opened IniText
  import opened IniOrder
  import opened IniGrammar
  import opened IniDocument
  import opened IniReadDocument
  import opened IniTable
  import opened IniView
  import opened IniBuild
  import opened IniBuildDocument
  import opened IniReadAs
  import opened IniHeaders

  /** The data an INI object holds. */
  datatype Ini = Ini(fileComment: Option<string>, table: Table)

  const BOM := "\U{EF}\U{BB}\U{BF}"

  predicate NotNul(c: char) { c != NUL }

  /** What the loader reads of its input: no byte order mark, nothing from the first NUL on. */
  function Received(data: string): string {
    Take(if BOM <= data then data[3..] else data, NotNul)
  }

  const FRESH := Ini(None, EMPTY)

  /** The entries that loading adds: the file comment, if one is still wanted, is taken off first. */
  function EntriesFor(ini: Ini, data: string, o: Options): Parsed {
    Parse(if ini.fileComment.Some? then Received(data) else Body(Received(data)), "", None, o)
  }

  /** LoadData: every entry of the text is added to what is there. */
  function LoadInto(ini: Ini, data: string, o: Options): Ini {
    Ini(if ini.fileComment.Some? then ini.fileComment else FileComment(Received(data)),
        AddAll(ini.table, EntriesFor(ini, data, o).entries, o.multiKey))
  }

  function EntriesOf(data: string, o: Options): Parsed { EntriesFor(FRESH, data, o) }

  /** Loading into a fresh object. */
  function Load(data: string, o: Options): Ini { LoadInto(FRESH, data, o) }

  function DocOf(ini: Ini, o: Options): Doc { Doc(ini.fileComment, Sects(ini.table, o.multiKey)) }

  function Save(ini: Ini, signature: bool, o: Options, nl: string): string {
    (if signature then BOM else "") + Print(DocOf(ini, o), o, nl)
  }

  // ---------- every listing of a table is canonical

  lemma WriteOrderNames(t: Table, multiKey: bool)
    requires Valid(t)
    ensures forall i, j :: 0 <= i < j < |Sects(t, multiKey)| ==>
      !Same(Sects(t, multiKey)[i].name, Sects(t, multiKey)[j].name)
  {
    hide Same, WriteOrder, Valid, Keys;
    var ns := WriteOrder(t.sections);
    forall i, j | 0 <= i < j < |ns| ensures !Same(Sects(t, multiKey)[i].name, Sects(t, multiKey)[j].name) {
      WriteOrderDiffers(t, i, j);
    }
  }

  lemma KeyHasValues(ps: seq<Pair>, n: Name, multiKey: bool)
    requires HasKey(ps, n.item)
    ensures KeyDoc(ps, n, multiKey).vals != [] && (multiKey || |KeyDoc(ps, n, multiKey).vals| == 1)
  {
    hide Same, HasKey, Matches;
    MatchesAre(ps, n.item);
  }

  lemma KeysAreCanonical(ps: seq<Pair>, multiKey: bool)
    requires Distinct(ps)
    ensures KeysCanonical(Keys(ps, multiKey), multiKey)
  {
    hide Same, Distinct, HasKey, KeyDoc, ByOrder, Firsts;
    var ns := ByOrder(Firsts(ps));
    var ks := Keys(ps, multiKey);
    KeyListFacts(ps);
    forall i | 0 <= i < |ns| ensures ks[i].vals != [] && (multiKey || |ks[i].vals| == 1) {
      KeyHasValues(ps, ns[i], multiKey);
    }
    forall i, j | 0 <= i < j < |ns| ensures !Same(ks[i].name, ks[j].name) {
      KeysDiffer(ps, i, j);
      NameOfDoc(ps, ns[i], multiKey);
      NameOfDoc(ps, ns[j], multiKey);
    }
  }

  lemma NameOfDoc(ps: seq<Pair>, n: Name, multiKey: bool)
    ensures KeyDoc(ps, n, multiKey).name == n.item
  {
  }

  /** The nameless section comes first. */
  lemma NamelessComesFirst(ns: seq<Name>, i: nat)
    requires i < |NamelessFirst(ns)| && NamelessFirst(ns)[i].item == ""
    requires forall a, b :: 0 <= a < b < |NamelessFirst(ns)| ==>
      !Same(NamelessFirst(ns)[a].item, NamelessFirst(ns)[b].item)
    ensures i == 0
  {
    var k := NamelessIndex(ns);
    var rs := NamelessFirst(ns);
    assert rs[i] in rs;
    NamelessFirstMembers(ns);
    assert k < |ns|;
    assert rs[0].item == "";
    SameIsSymmetric(rs[0].item, rs[i].item, "");
  }

  /** If there is a nameless section it holds something. */
  predicate NamelessNotEmpty(t: Table) { HasSection(t.sections, "") ==> PairsOf(t.sections, "") != [] }

  lemma SectFacts(t: Table, i: nat, multiKey: bool)
    requires Valid(t) && i < |Sects(t, multiKey)|
    ensures var s := Sects(t, multiKey)[i];
      && HasSection(t.sections, s.name) && s.keys == Keys(PairsOf(t.sections, s.name), multiKey)
      && Distinct(PairsOf(t.sections, s.name)) && KeysCanonical(s.keys, multiKey)
  {
    hide Same, WriteOrder, Keys, Less, SortedSections, AllApart, Distinct, KeysCanonical;
    NameListed(t, i);
    var name := WriteOrder(t.sections)[i].item;
    var j := SectionIndex(t.sections, name);
    assert SectionOk(t.sections[j], t.order);
    KeysAreCanonical(PairsOf(t.sections, name), multiKey);
  }

  lemma KeysNotEmpty(ps: seq<Pair>, multiKey: bool)
    requires ps != []
    ensures Keys(ps, multiKey) != []
  {
    hide Fold;
    var p := ps[0];
    SameIsSymmetric(p.key, p.key, p.key);
    assert HasKey(ps, p.key);
    FirstsCover(ps, p.key);
    ByOrderIs(Firsts(ps));
  }

  /** What a well-formed table lists is canonical, and has the shape that can be written. */
  lemma ListingIsCanonical(t: Table, multiKey: bool)
    requires Valid(t)
    ensures Canonical(Sects(t, multiKey), multiKey)
    ensures Listed(Sects(t, multiKey))
  {
    hide Same, Valid, Keys, PairsOf, HasSection, KeysCanonical, Distinct, ByOrder, NamelessFirst;
    var ds := Sects(t, multiKey);
    var ns := ByOrder(Heads(t.sections));
    WriteOrderNames(t, multiKey);
    forall i | 0 <= i < |ds| ensures KeysCanonical(ds[i].keys, multiKey) { SectFacts(t, i, multiKey); }
    forall i | 0 <= i < |ds| && ds[i].name == "" ensures i == 0 {
      assert forall a :: 0 <= a < |ds| ==> ds[a].name == NamelessFirst(ns)[a].item;
      NamelessComesFirst(ns, i);
    }
    forall s, k | s in ds && k in s.keys ensures k.vals != [] {
      var i :| 0 <= i < |ds| && ds[i] == s;
      SectFacts(t, i, multiKey);
      CanonicalVals(s.keys, k, multiKey);
    }
  }

  /** The nameless section of a table is empty exactly when it is listed without keys. */
  lemma NamelessListed(t: Table, multiKey: bool)
    requires Valid(t)
    ensures NamelessNotEmpty(t) <==> Written(Sects(t, multiKey)) == Sects(t, multiKey)
  {
    hide Valid, Keys, PairsOf, HasSection, KeysCanonical, Distinct, Canonical, Sects, Fold;
    var ds := Sects(t, multiKey);
    ListingIsCanonical(t, multiKey);
    SectionListed(t, "", multiKey);
    NoKeys(multiKey);
    if HasSection(t.sections, "") {
      var i :| 0 <= i < |ds| && Same(ds[i].name, "");
      EmptyFold(ds[i].name);
      SectFacts(t, i, multiKey);
      if PairsOf(t.sections, "") != [] { KeysNotEmpty(PairsOf(t.sections, ""), multiKey); }
    }
  }

  lemma EmptyFold(s: string)
    requires Same(s, "")
    ensures s == ""
  {
  }

  lemma CanonicalVals(keys: seq<Key>, k: Key, multiKey: bool)
    requires KeysCanonical(keys, multiKey) && k in keys
    ensures k.vals != []
  {
    hide Same;
  }

  // ---------- a written document has no NUL

  lemma {:induction false} LinesNoNul(s: string, nl: string)
    requires NoNul(s) && IsNewLineSpelling(nl)
    ensures NoNul(Lines(s, nl))
    decreases |s|
  {
    var n := Span(s, NotLF);
    if n < |s| { LinesNoNul(s[n + 1..], nl); }
  }

  lemma CommentNoNul(c: Option<string>, nl: string)
    requires c.Some? ==> NoNul(c.value)
    requires IsNewLineSpelling(nl)
    ensures NoNul(PrintComment(c, nl))
  {
    hide Lines;
    if c.Some? { LinesNoNul(c.value, nl); }
  }

  lemma ValNoNul(key: string, v: Val, o: Options, nl: string)
    requires NoNul(key) && NoNul(v.value) && (v.comment.Some? ==> NoNul(v.comment.value)) && IsNewLineSpelling(nl)
    ensures NoNul(PrintVal(key, v, o, nl))
  {
    hide Lines, IsMultiLineData, IsSingleLineQuotedValue;
    LinesNoNul(v.value, nl);
    CommentNoNul(v.comment, nl);
    assert NoNul(PrintValue(v.value, o, nl));
  }

  lemma CommentOkNoNul(c: string, blanks: bool)
    requires CommentOk(c, blanks)
    ensures NoNul(c)
  {
  }

  lemma {:induction false} ValsNoNul(key: string, vals: seq<Val>, o: Options, nl: string)
    requires KeyOk(Key(key, vals), o, nl) && IsNewLineSpelling(nl)
    ensures NoNul(PrintVals(key, vals, o, nl))
  {
    hide PrintVal, CommentOk, NoTagLine;
    if vals != [] {
      assert vals[0] in vals;
      if vals[0].comment.Some? { CommentOkNoNul(vals[0].comment.value, true); }
      ValNoNul(key, vals[0], o, nl);
      ValsNoNul(key, vals[1..], o, nl);
    }
  }

  lemma {:induction false} KeysNoNul(keys: seq<Key>, o: Options, nl: string)
    requires (forall k :: k in keys ==> KeyOk(k, o, nl)) && IsNewLineSpelling(nl)
    ensures NoNul(PrintKeys(keys, o, nl))
  {
    hide PrintVals, KeyOk;
    if keys != [] {
      assert keys[0] in keys && keys[0] == Key(keys[0].name, keys[0].vals);
      ValsNoNul(keys[0].name, keys[0].vals, o, nl);
      KeysNoNul(keys[1..], o, nl);
    }
  }

  lemma HeaderNoNul(s: Sect, o: Options, nl: string)
    requires SectOk(s, o, nl) && IsNewLineSpelling(nl)
    ensures NoNul(PrintHeader(s, nl))
  {
    hide PrintComment, CommentOk, KeyOk;
    if s.comment.Some? { CommentOkNoNul(s.comment.value, true); }
    CommentNoNul(s.comment, nl);
  }

  lemma {:induction false} SectionsNoNul(ds: seq<Sect>, gap: bool, o: Options, nl: string)
    requires (forall s :: s in ds ==> SectOk(s, o, nl)) && IsNewLineSpelling(nl)
    ensures NoNul(PrintSections(ds, gap, o, nl))
    decreases |ds|
  {
    hide PrintHeader, PrintKeys, KeyOk;
    if ds != [] {
      assert ds[0] in ds;
      HeaderNoNul(ds[0], o, nl);
      KeysNoNul(ds[0].keys, o, nl);
      SectionsNoNul(ds[1..], true, o, nl);
    }
  }

  lemma PrintNoNul(d: Doc, o: Options, nl: string)
    requires DocOk(d, o, nl) && IsNewLineSpelling(nl)
    ensures NoNul(Print(d, o, nl))
  {
    hide PrintComment, PrintSections, SectOk, CommentOk;
    if d.fileComment.Some? { CommentOkNoNul(d.fileComment.value, false); }
    CommentNoNul(d.fileComment, nl);
    SectionsNoNul(d.sections, d.fileComment.Some?, o, nl);
  }

  // ---------- load after save

  lemma ReceivedIs(text: string, signature: bool)
    requires NoNul(text) && (signature || !(BOM <= text))
    ensures Received((if signature then BOM else "") + text) == text
  {
    var data := (if signature then BOM else "") + text;
    assert signature ==> BOM <= data && data[3..] == text;
    SpanIs(text, NotNul, |text|);
  }

  /** A text that happens to start with the bytes of a byte order mark loses them. */
  lemma MarkTakenOff(text: string)
    requires NoNul(text) && BOM <= text
    ensures Received(text) == text[3..]
  {
    SpanIs(text[3..], NotNul, |text| - 3);
  }

  // ---------- no text gives a nameless section a comment, unless there is an empty header in it

  predicate PlainTable(t: Table) { forall s :: s in t.sections && s.name == "" ==> s.comment.None? }

  lemma AddPlain(t: Table, e: Entry, multiKey: bool)
    requires PlainTable(t) && (e.key.None? ==> e.section != "")
    ensures PlainTable(Add(t, e, false, multiKey))
  {
    hide Same, Assign, PairsOf, HasSection, SectionIndex, InsertSection;
    var c := if e.key.None? then e.comment else None;
    var u := EnsureSection(t, e.section, c);
    EnsureHas(t, e.section, c);
    InsertSectionMembers(t.sections, Section(e.section, c, t.order + 1, []));
    assert PlainTable(u);
    if e.key.Some? {
      var v := if e.value.None? then "" else e.value.value;
      var ps := Assign(PairsOf(u.sections, e.section), e.key.value, v, e.comment, u.order + 1, false, multiKey);
      SetPairsPlain(u, e.section, ps);
    }
  }

  lemma SetPairsPlain(t: Table, name: string, ps: seq<Pair>)
    requires PlainTable(t) && HasSection(t.sections, name)
    ensures PlainTable(Table(SetPairs(t.sections, name, ps), t.order + 1))
  {
    hide Same;
    var rs := SetPairs(t.sections, name, ps);
    forall r | r in rs && r.name == "" ensures r.comment.None? {
      var k :| 0 <= k < |rs| && rs[k] == r;
      assert t.sections[k] in t.sections && t.sections[k].name == r.name;
    }
  }

  lemma {:induction false} AddAllPlain(t: Table, es: seq<Entry>, multiKey: bool)
    requires PlainTable(t) && NoEmptyHeaders(es)
    ensures PlainTable(AddAll(t, es, multiKey))
    decreases |es|
  {
    hide Add, PlainTable;
    if es != [] {
      AddPlain(t, es[0], multiKey);
      assert forall i :: 0 <= i < |es[1..]| ==> es[1..][i] == es[i + 1];
      AddAllPlain(Add(t, es[0], false, multiKey), es[1..], multiKey);
    }
  }

  lemma PlainListing(t: Table, multiKey: bool)
    requires PlainTable(t)
    ensures NamelessPlain(Sects(t, multiKey))
  {
    hide WriteOrder, Keys;
    var ds := Sects(t, multiKey);
    var ns := WriteOrder(t.sections);
    WriteOrderMembers(t.sections);
    HeadsMembers(t.sections);
    forall d | d in ds && d.name == "" ensures d.comment.None? {
      var i :| 0 <= i < |ds| && ds[i] == d;
      assert ns[i] in ns;
      var s :| s in t.sections && ns[i] == HeadOf(s);
    }
  }

  lemma {:induction false} ValReadsHaveKeys(section: string, key: string, vals: seq<Val>, previous: Option<string>,
                                            o: Options)
    ensures forall e :: e in ValReads(section, key, vals, previous, o) ==> e.key.Some?
    decreases |vals|
  {
    hide ValueRead;
    if vals != [] { ValReadsHaveKeys(section, key, vals[1..], ValueRead(vals[0].value, previous, o), o); }
  }

  lemma {:induction false} KeyReadsHaveKeys(section: string, keys: seq<Key>, previous: Option<string>, o: Options)
    ensures forall e :: e in KeyReads(section, keys, previous, o) ==> e.key.Some?
    decreases |keys|
  {
    hide ValReads, ValLast;
    if keys != [] {
      ValReadsHaveKeys(section, keys[0].name, keys[0].vals, previous, o);
      KeyReadsHaveKeys(section, keys[1..], ValLast(keys[0].vals, previous, o), o);
    }
  }

  lemma {:induction false} ReadsNoEmptyHeaders(ds: seq<Sect>, o: Options)
    ensures forall e :: e in SectionReads(ds, o) ==> e.key.Some? || e.section != ""
  {
    hide KeyReads;
    if ds != [] {
      KeyReadsHaveKeys(ds[0].name, ds[0].keys, None, o);
      ReadsNoEmptyHeaders(ds[1..], o);
    }
  }

  /** What is read of a written listing never gives the nameless section a comment. */
  lemma ReadsPlain(ds: seq<Sect>, c: Option<string>, o: Options)
    ensures NamelessPlain(Sects(AddAll(EMPTY, EntriesRead(ds, c, o), o.multiKey), o.multiKey))
  {
    hide SectionReads, AddAll, Sects, NamelessPlain;
    var es := EntriesRead(ds, c, o);
    var fs := SectionReads(ds, o);
    ReadsNoEmptyHeaders(ds, o);
    forall i | 0 <= i < |es| && es[i].key.None? ensures es[i].section != "" {
      assert es[i].key == fs[i].key && es[i].section == fs[i].section && fs[i] in fs;
    }
    AddAllPlain(EMPTY, es, o.multiKey);
    PlainListing(AddAll(EMPTY, es, o.multiKey), o.multiKey);
  }

  /** The table built from the text of a listing lists what ReadAs says. */
  lemma BuildsReadAs(ds: seq<Sect>, o: Options)
    requires Canonical(ds, o.multiKey) && Listed(ds) && NamelessPlain(ds)
    ensures Stands(AddAll(EMPTY, SectionReads(ds, o), o.multiKey), SectsAs(Written(ds), o), o.multiKey)
  {
    hide Canonical, Listed, WellShaped, SectionReads, SectionEntries, AddAll, KeysAs, SectsAs;
    var ws := Written(ds);
    var es := SectsAs(ws, o);
    WrittenReads(ds, o);
    SectionReadsAre(ws, o);
    AddAllFilled(EMPTY, SectionReads(ws, o), o.multiKey);
    ReadAsCanonical(ds, o, o.multiKey);
    SectsAsShape(ws, o);
    forall s | s in es && s.name == "" ensures s.comment.None? {
      var i :| 0 <= i < |es| && es[i] == s;
      assert ws[i] in ds && ws[i].name == "" && s.comment == ws[i].comment;
    }
    BuildDocument(es, o.multiKey);
  }

  /** Whole-document round trip, for every table whose texts can be written and under all settings. If the comment at
      the front of the text is meant for the file and the nameless section has none, what is loaded is the listing of
      the table, but for a nameless section without keys and, with key-only on, for empty values with a value in front
      of them. It is the same listing exactly when there is nothing of the kind. */
  lemma LoadAfterSave(ini: Ini, signature: bool, o: Options, nl: string)
    requires Valid(ini.table) && IsNewLineSpelling(nl) && DocOk(DocOf(ini, o), o, nl)
    requires signature || !(BOM <= Print(DocOf(ini, o), o, nl))
    ensures var d := DocOf(ini, o);
      var back := Load(Save(ini, signature, o, nl), o);
      && (DocOf(back, o) == d <==> Survives(ini, o))
      && (LeadOk(d) ==> EntriesOf(Save(ini, signature, o, nl), o).complete)
      && (LeadOk(d) && NamelessPlain(d.sections) ==>
            Valid(back.table) && DocOf(back, o) == Doc(d.fileComment, SectsAs(Written(d.sections), o)))
  {
    hide Valid, DocOk, Parse, Print, Sects, Canonical, Listed, SectionReads, Received, FileComment, Body, AddAll,
      LeadOk,
      NamelessNotEmpty, SectsAs, NoneTakesOver, Written, NamelessPlain, Recomment;
    var d := DocOf(ini, o);
    PrintNoNul(d, o, nl);
    ReceivedIs(Print(d, o, nl), signature);
    ListingIsCanonical(ini.table, o.multiKey);
    NamelessListed(ini.table, o.multiKey);
    var c := ReadDocument(d, o, nl);
    if NamelessPlain(d.sections) {
      BuildsReadAs(d.sections, o);
      ReadsAsItself(d.sections, o);
    } else {
      ReadsPlain(d.sections, c, o);
    }
  }

  /** What a table must be like to come back as it was: there is a file comment, or no comment on the section written
      first; a nameless section has keys and no comment of its own; and with key-only on no empty value follows one
      that is not empty. */
  predicate Survives(ini: Ini, o: Options) {
    var d := DocOf(ini, o);
    && LeadOk(d) && NamelessNotEmpty(ini.table) && NamelessPlain(d.sections)
    && (o.keyOnly ==> NoneTakesOver(d.sections))
  }

  /** A table that does not: its nameless section has nothing but a comment. */
  lemma NamelessCommentLost(o: Options, nl: string)
    requires IsNewLineSpelling(nl)
    ensures var ini := Ini(Some(";f"), Add(EMPTY, Entry("", None, None, Some(";c")), false, o.multiKey));
      DocOf(Load(Save(ini, true, o, nl), o), o) != DocOf(ini, o)
  {
    hide Valid, Sects, Load, Save, CommentOk, KeyOk, Same, InsertSection;
    var e := Entry("", None, None, Some(";c"));
    var t := Add(EMPTY, e, false, o.multiKey);
    var ini := Ini(Some(";f"), t);
    FreshValid();
    AddKeepsValid(EMPTY, e, false, o.multiKey);
    EmptyHasNone(o.multiKey);
    EnsureDoc(EMPTY, "", Some(";c"), o.multiKey);
    assert Sects(t, o.multiKey) == [Sect("", Some(";c"), [])];
    OneLiners();
    assert !NamelessPlain(Sects(t, o.multiKey));
    LoadAfterSave(ini, true, o, nl);
  }

  lemma FreshValid()
    ensures Valid(EMPTY)
  {
  }

  lemma EmptyHasNone(multiKey: bool)
    ensures Sects(EMPTY, multiKey) == [] && !HasSection(EMPTY.sections, "")
  {
  }

  lemma OneLiners()
    ensures CommentOk(";f", false) && CommentOk(";c", true)
  {
    SpanIs(";f", NotLF, 2);
    SpanIs(";c", NotLF, 2);
  }
}
