/** What the reader accepts can be written again, so a loaded text is stable. */
module IniReload {
  import opened Basics
  import opened IniText
  import opened IniOrder
  import opened IniGrammar
  import opened IniDocument
  import opened IniComments
  import opened IniReadDocument
  import opened IniHeaders
  import opened IniTable
  import opened IniView
  import opened IniBuild
  import opened IniBuildDocument
  import opened IniRoundTrip

  // ---------- entries that were read can be written

  /** The settings under which nothing but single-line values exists. */
  predicate SingleLine(o: Options) { !o.multiLine && !o.quotes && !o.keyOnly }

  predicate SectionOrNone(name: string) { name == "" || SectionNameOk(name) }

  predicate PlainOk(v: string) { NoNul(v) && Plain(v) }

  /** A value that was read: it has no NUL, and in single-line mode it is plain. */
  predicate ValueFine(v: Option<string>,
                      o: Options) { v.Some? ==> NoNul(v.value) && (SingleLine(o) ==> Plain(v.value)) }

  predicate EntryOk(e: Entry, o: Options) {
    && SectionOrNone(e.section) && OptionalCommentOk(e.comment) && ValueFine(e.value, o)
    && (e.key.Some? ==> KeyNameOk(e.key.value))
  }

  lemma TrimmedPart(s: string)
    ensures Trimmed(TrimRight(s)) && TrimRight(s) <= s
    ensures s != "" && !IsSpace(s[0]) ==> TrimRight(s) != "" && TrimRight(s)[0] == s[0]
  {
  }

  lemma PrefixNoNul(a: string, s: string)
    requires a <= s && NoNul(s)
    ensures NoNul(a)
  {
    forall i | 0 <= i < |a| ensures a[i] != NUL { assert a[i] == s[i]; }
  }

  /** A trimmed line that does not start with a blank is plain. */
  lemma TrimmedLineIsPlain(raw: string)
    requires NoNul(raw) && (forall c :: c in raw ==> NotNewLine(c)) && (raw != "" ==> !IsBlank(raw[0]))
    ensures PlainOk(TrimRight(raw))
  {
    hide TrimLen;
    var val := TrimRight(raw);
    TrimmedPart(raw);
    PrefixNoNul(val, raw);
    forall i | 0 <= i < |val| ensures !IsNewLine(val[i]) { assert val[i] == raw[i] && raw[i] in raw; }
    if val != "" { assert val[0] == raw[0] && raw[0] in raw; }
  }

  lemma LineOfStart(v: string)
    requires v != "" ==> !IsBlank(v[0])
    ensures LineOf(v) != "" ==> !IsBlank(LineOf(v)[0])
  {
  }

  lemma SkipStops(s: string, p: char -> bool)
    ensures Skip(s, p) != "" ==> !p(Skip(s, p)[0])
  {
  }

  lemma LineParts(v: string)
    requires NoNul(v)
    ensures var r := v[|LineOf(v)|..]; NoNul(LineOf(v)) && NoNul(r) && (r != "" ==> NoNul(SkipNewLine(r)))
    ensures forall c :: c in LineOf(v) ==> NotNewLine(c)
  {
  }

  /** The text of a value line is plain. */
  lemma ValueText(after: string)
    requires NoNul(after)
    ensures
      var v := Skip(after, IsBlank);
      var r := v[|LineOf(v)|..];
      PlainOk(TrimRight(LineOf(v))) && NoNul(r) && (r != "" ==> NoNul(SkipNewLine(r)))
  {
    hide *;
    var v := Skip(after, IsBlank);
    SkipIsSuffix(after, IsBlank);
    SuffixNoNul(v, after);
    SkipStops(after, IsBlank);
    LineOfStart(v);
    LineParts(v);
    TrimmedLineIsPlain(LineOf(v));
  }

  /** A here-document has no NUL. */
  lemma {:induction false} HereNoNul(t: string, tag: string, moved: bool)
    requires NoNul(t)
    ensures var h := HereText(t, tag, moved); NoNul(h.rest) && (h.text.Some? ==> NoNul(h.text.value))
    decreases |t|
  {
    hide ClosesHere, LineOf, SkipNewLine;
    var line := LineOf(t);
    var r := t[|line|..];
    LineParts(t);
    if !ClosesHere(line, tag, moved) && r != "" {
      ShorterBehindBreak(r);
      HereNoNul(SkipNewLine(r), tag, moved || |r| - |SkipNewLine(r)| == 2);
    }
  }

  lemma ShorterBehindBreak(r: string)
    requires r != ""
    ensures |SkipNewLine(r)| < |r|
  {
  }

  lemma ValueRead(key: string, after: string, section: string, comment: Option<string>, o: Options)
    requires NoNul(after) && SectionOrNone(section) && KeyNameOk(key) && OptionalCommentOk(comment)
    ensures var r := ValueStep(key, after, section, comment, o);
      r.Found? ==> EntryOk(r.entry, o) && NoNul(r.rest)
  {
    hide SectionOrNone, KeyNameOk, OptionalCommentOk, HereText, TrimRight, Skip, LineOf, NoNul, PlainOk, ValueFine,
      ValueOf,
      SkipNewLine;
    ValueText(after);
    var v := Skip(after, IsBlank);
    var r := v[|LineOf(v)|..];
    ValueOfRead(TrimRight(LineOf(v)), if r == "" then r else SkipNewLine(r), key, section, comment, o);
  }

  lemma ValueOfRead(val: string, rest: string, key: string, section: string, comment: Option<string>, o: Options)
    requires PlainOk(val) && NoNul(rest) && SectionOrNone(section) && KeyNameOk(key) && OptionalCommentOk(comment)
    ensures var r := ValueOf(val, rest, key, section, comment, o);
      r.Found? ==> EntryOk(r.entry, o) && NoNul(r.rest)
  {
    hide SectionOrNone, KeyNameOk, OptionalCommentOk, HereText, Plain;
    if o.multiLine && "<<<" <= val { HereNoNul(rest, val[3..], false); }
  }

  /** A name read between the brackets of a header. */
  lemma NameRead(u: string, n: nat)
    requires NoNul(u) && n == Span(u, NameChar) && (u != "" ==> !IsSpace(u[0]))
    ensures SectionOrNone(TrimRight(u[..n]))
  {
    hide TrimLen, Span;
    var name := TrimRight(u[..n]);
    TrimmedPart(u[..n]);
    PrefixNoNul(name, u);
    assert forall i :: 0 <= i < n ==> NameChar(u[i]);
    forall c | c in name ensures NameChar(c) {
      var i :| 0 <= i < |name| && name[i] == c;
      assert u[i] == c;
    }
    if name != "" { assert name[0] == u[0]; }
  }

  lemma HeaderRead(u: string, comment: Option<string>, o: Options)
    requires NoNul(u) && OptionalCommentOk(comment) && (u != "" ==> !IsSpace(u[0]))
    ensures var r := HeaderStep(u, comment);
      r.Found? ==> EntryOk(r.entry, o) && NoNul(r.rest)
  {
    hide OptionalCommentOk, SectionOrNone, TrimRight, Span, Skip, NoNul;
    var n := Span(u, NameChar);
    if n < |u| && u[n] == ']' {
      NameRead(u, n);
      SkipIsSuffix(u[n + 1..], NotNewLine);
      SuffixNoNul(u[n + 1..], u);
      SuffixNoNul(Skip(u[n + 1..], NotNewLine), u[n + 1..]);
    }
  }

  lemma KeyRead(t: string, n: nat)
    requires NoNul(t) && 0 < n == Span(t, KeyChar) && !IsSpace(t[0]) && !IsComment(t[0]) && t[0] != '['
    ensures KeyNameOk(TrimRight(t[..n]))
  {
    var key := TrimRight(t[..n]);
    TrimmedPart(t[..n]);
    PrefixNoNul(key, t);
    forall c | c in key ensures KeyChar(c) {
      var i :| 0 <= i < |key| && key[i] == c;
      assert t[i] == c;
    }
  }

  /** One turn of the reader keeps to texts that can be written. */
  lemma TurnRead(t: string, section: string, previous: Option<string>, comment: Option<string>, o: Options)
    requires NoNul(t) && (t != "" ==> !IsSpace(t[0])) && (!o.keyOnly || ValueFine(previous, o))
    requires SectionOrNone(section) && OptionalCommentOk(comment)
    ensures var r := TurnAt(t, section, previous, comment, o);
      && (r.More? ==> NoNul(r.rest) && OptionalCommentOk(r.comment))
      && (r.Done? && r.step.Found? ==> EntryOk(r.step.entry, o) && NoNul(r.step.rest))
  {
    hide CommentOk, CommentBlock, ValueStep, HeaderStep, SectionOrNone, KeyNameOk, ValueFine, SkipNewLine;
    if t == "" {
    } else if IsComment(t[0]) {
      ReadCommentOk(t, true);
      SuffixNoNul(CommentBlock(t, true).rest, t);
    } else if t[0] == '[' {
      var u := Skip(t[1..], IsSpace);
      SkipIsSuffix(t[1..], IsSpace);
      SuffixNoNul(t[1..], t);
      SuffixNoNul(u, t[1..]);
      HeaderRead(u, comment, o);
    } else {
      var n := Span(t, KeyChar);
      var r := t[n..];
      SuffixNoNul(r, t);
      if r != "" && r[0] == '=' {
        if n == 0 {
          SkipIsSuffix(t, NotNewLine);
          SuffixNoNul(Skip(t, NotNewLine), t);
        } else {
          KeyRead(t, n);
          SuffixNoNul(r[1..], r);
          ValueRead(TrimRight(t[..n]), r[1..], section, comment, o);
        }
      } else if o.keyOnly {
        KeyRead(t, n);
        if r != "" { BehindBreakNoNul(r); }
      }
    }
  }

  lemma BehindBreakNoNul(r: string)
    requires r != "" && NoNul(r)
    ensures NoNul(SkipNewLine(r))
  {
  }

  lemma {:induction false} NextRead(s: string, section: string, previous: Option<string>, comment: Option<string>,
                                    o: Options)
    requires NoNul(s) && SectionOrNone(section) && OptionalCommentOk(comment) && ValueFine(previous, o)
    ensures var r := Next(s, section, previous, comment, o);
      r.Found? ==> EntryOk(r.entry, o) && NoNul(r.rest)
    decreases |s|
  {
    hide TurnAt, EntryOk, SectionOrNone, OptionalCommentOk, ValueFine;
    var t := Skip(s, IsSpace);
    SkipIsSuffix(s, IsSpace);
    SuffixNoNul(t, s);
    TurnRead(t, section, previous, comment, o);
    var turn := TurnAt(t, section, previous, comment, o);
    if turn.More? { NextRead(turn.rest, section, previous, turn.comment, o); }
  }

  lemma EntrySection(e: Entry, o: Options)
    requires EntryOk(e, o)
    ensures SectionOrNone(e.section) && ValueFine(e.value, o)
  {
  }

  lemma {:induction false} ParseRead(s: string, section: string, previous: Option<string>, o: Options)
    requires NoNul(s) && SectionOrNone(section) && ValueFine(previous, o)
    ensures forall e :: e in Parse(s, section, previous, o).entries ==> EntryOk(e, o)
    decreases |s|
  {
    hide Next, EntryOk, SectionOrNone, ValueFine;
    NextRead(s, section, previous, None, o);
    var r := Next(s, section, previous, None, o);
    if r.Found? {
      EntrySection(r.entry, o);
      ParseRead(r.rest, r.entry.section, r.entry.value, o);
    }
  }

  // ---------- tables of such entries

  predicate PairOk(p: Pair,
                   o: Options) { KeyNameOk(p.key) && ValueFine(Some(p.value), o) && OptionalCommentOk(p.comment) }

  predicate PairsOk(ps: seq<Pair>, o: Options) { forall p :: p in ps ==> PairOk(p, o) }

  /** A section that can be written, but perhaps for its values. */
  predicate RowOk(s: Section, o: Options) {
    SectionOrNone(s.name) && OptionalCommentOk(s.comment) && PairsOk(s.pairs, o)
  }

  predicate TableOk(t: Table, o: Options) { forall s :: s in t.sections ==> RowOk(s, o) }

  lemma AssignStaysOk(ps: seq<Pair>, key: string, value: string, comment: Option<string>, order: int, o: Options)
    requires PairsOk(ps, o) && PairOk(Pair(key, comment, order, value), o)
    ensures PairsOk(Assign(ps, key, value, comment, order, false, o.multiKey), o)
    ensures Assign(ps, key, value, comment, order, false, o.multiKey) != []
  {
    hide KeyNameOk, ValueFine, OptionalCommentOk, Same, InsertPair, HasKey;
    if HasKey(ps, key) && !o.multiKey {
      KeyIndexFinds(ps, key);
      var i := KeyIndex(ps, key);
      assert ps[i] in ps;
    } else {
      var p := Pair(key, comment, order, value);
      InsertPairOrders(ps, p);
      assert p in InsertPair(ps, p);
    }
  }

  /** Adding an entry that was read keeps the table writable. */
  lemma AddStaysOk(t: Table, e: Entry, o: Options)
    requires TableOk(t, o) && EntryOk(e, o)
    ensures TableOk(Add(t, e, false, o.multiKey), o)
  {
    hide Same, HasSection, PairsOf, InsertSection, SetPairs, Assign, SectionOrNone, CommentOk, KeyNameOk, ValueFine,
      RowOk;
    var c := if e.key.None? then e.comment else None;
    var u := EnsureSection(t, e.section, c);
    EnsureHas(t, e.section, c);
    NewRowOk(e.section, c, t.order + 1, o);
    InsertSectionMembers(t.sections, Section(e.section, c, t.order + 1, []));
    assert TableOk(u, o);
    if e.key.Some? {
      var ps := PairsOf(u.sections, e.section);
      var v := if e.value.None? then "" else e.value.value;
      EmptyIsFine(o);
      PairsStayOk(u, e.section, o);
      AssignStaysOk(ps, e.key.value, v, e.comment, u.order + 1, o);
      PutStaysOk(u, e.section, Assign(ps, e.key.value, v, e.comment, u.order + 1, false, o.multiKey), o);
    }
  }

  lemma NewRowOk(name: string, comment: Option<string>, order: int, o: Options)
    requires SectionOrNone(name) && OptionalCommentOk(comment)
    ensures RowOk(Section(name, comment, order, []), o)
  {
  }

  lemma EmptyIsFine(o: Options)
    ensures ValueFine(Some(""), o)
  {
  }

  lemma OnlyEmptyIsEmpty(name: string)
    ensures Same(name, "") <==> name == ""
  {
  }

  lemma PairsStayOk(t: Table, name: string, o: Options)
    requires TableOk(t, o)
    ensures PairsOk(PairsOf(t.sections, name), o)
  {
    hide Same, PairOk, SectionOrNone, OptionalCommentOk;
    var i := SectionIndex(t.sections, name);
    if i < |t.sections| { assert t.sections[i] in t.sections; }
  }

  lemma PutStaysOk(t: Table, name: string, ps: seq<Pair>, o: Options)
    requires TableOk(t, o) && HasSection(t.sections, name) && PairsOk(ps, o)
    ensures TableOk(Table(SetPairs(t.sections, name, ps), t.order + 1), o)
  {
    hide Same, PairOk, SectionOrNone, OptionalCommentOk;
    var rs := SetPairs(t.sections, name, ps);
    forall r | r in rs ensures RowOk(r, o) {
      var k :| 0 <= k < |rs| && rs[k] == r;
      assert t.sections[k] in t.sections;
    }
  }

  lemma {:induction false} AddAllStaysOk(t: Table, es: seq<Entry>, o: Options)
    requires Valid(t) && TableOk(t, o) && forall e :: e in es ==> EntryOk(e, o)
    ensures var u := AddAll(t, es, o.multiKey); Valid(u) && TableOk(u, o)
    decreases |es|
  {
    hide Valid, TableOk, EntryOk, Add;
    if es != [] {
      assert es[0] in es;
      AddKeepsValid(t, es[0], false, o.multiKey);
      AddStaysOk(t, es[0], o);
      AddAllStaysOk(Add(t, es[0], false, o.multiKey), es[1..], o);
    }
  }

  lemma EmptyOk(o: Options)
    ensures Valid(EMPTY) && TableOk(EMPTY, o) && NamelessNotEmpty(EMPTY)
  {
  }

  // ---------- a nameless section that headers with names leave filled

  /** Adding an entry that is not a header without a name keeps the nameless section filled. */
  lemma AddKeepsFilled(t: Table, e: Entry, multiKey: bool)
    requires Valid(t) && NamelessNotEmpty(t) && (e.key.None? ==> e.section != "")
    ensures NamelessNotEmpty(Add(t, e, false, multiKey))
  {
    hide Same, Valid, HasSection, PairsOf, InsertSection, SetPairs, Assign;
    var c := if e.key.None? then e.comment else None;
    var u := EnsureSection(t, e.section, c);
    EnsureHas(t, e.section, c);
    EnsureKeepsValid(t, e.section, c);
    OnlyEmptyIsEmpty(e.section);
    if e.section != "" { EnsureKeepsFilled(t, e.section, c); }
    if e.key.Some? {
      var v := if e.value.None? then "" else e.value.value;
      var ps := Assign(PairsOf(u.sections, e.section), e.key.value, v, e.comment, u.order + 1, false, multiKey);
      AssignedSome(PairsOf(u.sections, e.section), e.key.value, v, e.comment, u.order + 1, multiKey);
      PutKeepsFilled(u, e.section, ps);
    }
  }

  lemma AssignedSome(ps: seq<Pair>, key: string, value: string, comment: Option<string>, order: int, multiKey: bool)
    ensures Assign(ps, key, value, comment, order, false, multiKey) != []
  {
    hide Same, HasKey;
    KeyIndexFinds(ps, key);
  }

  lemma EnsureKeepsFilled(t: Table, name: string, comment: Option<string>)
    requires Valid(t) && NamelessNotEmpty(t) && name != ""
    ensures NamelessNotEmpty(EnsureSection(t, name, comment))
  {
    hide Less, Same, SectionOk, AllApart, SortedSections, HasSection, PairsOf, InsertSection;
    if !HasSection(t.sections, name) {
      var s := Section(name, comment, t.order + 1, []);
      InsertSectionMembers(t.sections, s);
      PairsOfInsert(t.sections, s, "");
      SectionThere(t.sections, "");
      SectionThere(InsertSection(t.sections, s), "");
      OnlyEmptyIsEmpty(name);
    }
  }

  lemma PutKeepsFilled(t: Table, name: string, ps: seq<Pair>)
    requires Valid(t) && HasSection(t.sections, name) && ps != []
    requires HasSection(t.sections, "") && !Same(name, "") ==> PairsOf(t.sections, "") != []
    ensures NamelessNotEmpty(Table(SetPairs(t.sections, name, ps), t.order + 1))
  {
    hide Less, Same, SectionOk, AllApart, SortedSections, PairsOf;
    var rs := SetPairs(t.sections, name, ps);
    PairsOfSet(t.sections, name, ps, "");
    SectionThere(t.sections, "");
    SectionThere(rs, "");
    if HasSection(rs, "") {
      var r :| r in rs && Same(r.name, "");
      var k :| 0 <= k < |rs| && rs[k] == r;
      assert t.sections[k] in t.sections && t.sections[k].name == r.name;
    }
  }

  lemma {:induction false} AddAllKeepsFilled(t: Table, es: seq<Entry>, multiKey: bool)
    requires Valid(t) && NamelessNotEmpty(t) && NoEmptyHeaders(es)
    ensures NamelessNotEmpty(AddAll(t, es, multiKey))
    decreases |es|
  {
    hide Valid, NamelessNotEmpty, Add;
    if es != [] {
      AddKeepsValid(t, es[0], false, multiKey);
      AddKeepsFilled(t, es[0], multiKey);
      assert forall i :: 0 <= i < |es[1..]| ==> es[1..][i] == es[i + 1];
      AddAllKeepsFilled(Add(t, es[0], false, multiKey), es[1..], multiKey);
    }
  }

  // ---------- a loaded text is stable

  /** All values listed can be written. */
  predicate ValuesOk(sections: seq<Sect>, o: Options, nl: string) {
    forall s, k, v :: s in sections && k in s.keys && v in k.vals ==> ValueOk(v.value, o, nl)
  }

  /** Every section, key, value and comment listed comes from the table, so only values may be impossible to write. */
  lemma ListingOk(t: Table, o: Options, nl: string)
    requires TableOk(t, o)
    ensures ValuesOk(Sects(t, o.multiKey), o, nl) <==> forall s :: s in Sects(t, o.multiKey) ==> SectOk(s, o, nl)
    ensures SingleLine(o) ==> ValuesOk(Sects(t, o.multiKey), o, nl)
  {
    hide Same, SectionOrNone, OptionalCommentOk, KeyNameOk, ValueOk, ValueFine, WriteOrder, Keys, PairOk;
    var ns := WriteOrder(t.sections);
    var ds := Sects(t, o.multiKey);
    forall s, k | s in ds && k in s.keys
      ensures SectHeadOk(s) && KeyNameOk(k.name)
      ensures forall v :: v in k.vals ==> ValueFine(Some(v.value), o) && OptionalCommentOk(v.comment)
    {
      ListedFrom(t, s, o);
      KeysListedOk(PairsOf(t.sections, s.name), k, o);
    }
    forall s | s in ds ensures SectHeadOk(s) { ListedFrom(t, s, o); }
    if ValuesOk(ds, o, nl) {
      forall s | s in ds ensures SectOk(s, o, nl) {
        forall k | k in s.keys ensures KeyOk(k, o, nl) {
          forall v | v in k.vals ensures ValueOk(v.value, o, nl) && OptionalCommentOk(v.comment) { }
        }
        SectOkIs(s, o, nl);
      }
    } else {
      var s, k, v :| s in ds && k in s.keys && v in k.vals && !ValueOk(v.value, o, nl);
      assert !KeyOk(k, o, nl) && !SectOk(s, o, nl);
    }
    if SingleLine(o) {
      forall s, k, v | s in ds && k in s.keys && v in k.vals ensures ValueOk(v.value, o, nl) {
        assert ValueFine(Some(v.value), o);
        PlainIsValueOk(v.value, o, nl);
      }
    }
  }

  lemma SectOkIs(s: Sect, o: Options, nl: string)
    requires SectHeadOk(s) && forall k :: k in s.keys ==> KeyOk(k, o, nl)
    ensures SectOk(s, o, nl)
  {
    hide KeyOk, SectionNameOk, OptionalCommentOk;
  }

  predicate SectHeadOk(s: Sect) { SectionOrNone(s.name) && OptionalCommentOk(s.comment) }

  lemma ListedFrom(t: Table, d: Sect, o: Options)
    requires TableOk(t, o) && d in Sects(t, o.multiKey)
    ensures SectHeadOk(d) && PairsOk(PairsOf(t.sections, d.name), o)
    ensures d.keys == Keys(PairsOf(t.sections, d.name), o.multiKey)
  {
    hide Same, SectionOrNone, OptionalCommentOk, PairOk, WriteOrder, Keys;
    var ns := WriteOrder(t.sections);
    var ds := Sects(t, o.multiKey);
    var i :| 0 <= i < |ds| && ds[i] == d;
    WriteOrderMembers(t.sections);
    HeadsMembers(t.sections);
    assert ns[i] in ns;
    var s :| s in t.sections && ns[i] == HeadOf(s);
    assert RowOk(s, o);
    PairsStayOk(t, s.name, o);
  }

  lemma KeysListedOk(ps: seq<Pair>, k: Key, o: Options)
    requires PairsOk(ps, o) && k in Keys(ps, o.multiKey)
    ensures KeyNameOk(k.name) && forall v :: v in k.vals ==> ValueFine(Some(v.value), o) && OptionalCommentOk(v.comment)
  {
    hide Same, KeyNameOk, OptionalCommentOk, ValueFine, Matches, ByOrder;
    var ns := ByOrder(Firsts(ps));
    ByOrderIs(Firsts(ps));
    FirstsMembers(ps);
    var i :| 0 <= i < |ns| && KeyDoc(ps, ns[i], o.multiKey) == k;
    assert ns[i] in Firsts(ps);
    var p :| p in ps && ns[i] == KeyHead(p);
    assert PairOk(p, o);
    MatchesAre(ps, ns[i].item);
    var vs := ValuesOf(ps, ns[i].item, o.multiKey);
    forall v | v in k.vals ensures ValueFine(Some(v.value), o) && OptionalCommentOk(v.comment) {
      var j :| 0 <= j < |vs| && v == Val(vs[j].value, vs[j].comment);
      assert vs[j] in Matches(ps, ns[i].item) && PairOk(vs[j], o);
    }
  }

  lemma PlainIsValueOk(v: string, o: Options, nl: string)
    requires ValueFine(Some(v), o) && SingleLine(o)
    ensures ValueOk(v, o, nl)
  {
    PlainIsSingleLine(v);
  }

  lemma ReceivedNoNul(data: string)
    ensures NoNul(Received(data))
  {
  }

  lemma BodyRead(s: string)
    requires NoNul(s)
    ensures NoNul(Body(s)) && (FileComment(s).Some? ==> CommentOk(FileComment(s).value, false))
  {
    hide CommentOk, CommentBlock;
    if s != "" && IsComment(s[0]) {
      ReadCommentOk(s, false);
      SuffixNoNul(CommentBlock(s, false).rest, s);
    }
  }

  /** What was loaded from any text, under any settings, is a well-formed table in which nothing but a value may be
      impossible to write; in single-line mode every value can be written. */
  lemma LoadedIsWritable(data: string, o: Options, nl: string)
    ensures var ini := Load(data, o);
      && Valid(ini.table)
      && (DocOk(DocOf(ini, o), o, nl) <==> ValuesOk(DocOf(ini, o).sections, o, nl))
      && (SingleLine(o) ==> ValuesOk(DocOf(ini, o).sections, o, nl))
  {
    hide Valid, TableOk, EntryOk, Parse, Sects, Received, FileComment, Body, AddAll, CommentOk, SectOk, ValuesOk,
      ValueFine;
    var text := Received(data);
    ReceivedNoNul(data);
    BodyRead(text);
    assert SectionOrNone("");
    NothingIsFine(o);
    ParseRead(Body(text), "", None, o);
    EmptyOk(o);
    AddAllStaysOk(EMPTY, EntriesOf(data, o).entries, o);
    ListingOk(Load(data, o).table, o, nl);
  }

  lemma NothingIsFine(o: Options)
    ensures ValueFine(None, o)
  {
  }

  /** A text that is read through to its end, under any settings: if its values can be written, saving and loading
      what was loaded changes nothing exactly when the table is one that survives. */
  lemma ReloadIsStable(data: string, signature: bool, o: Options, nl: string)
    requires IsNewLineSpelling(nl) && EntriesOf(data, o).complete && ValuesOk(DocOf(Load(data, o), o).sections, o, nl)
    requires signature || !(BOM <= Print(DocOf(Load(data, o), o), o, nl))
    ensures var ini := Load(data, o);
      DocOf(Load(Save(ini, signature, o, nl), o), o) == DocOf(ini, o) <==> Survives(ini, o)
  {
    hide *;
    LoadedIsWritable(data, o, nl);
    LoadAfterSave(Load(data, o), signature, o, nl);
  }

  /** In single-line mode this holds for every text whose headers are closed. If all of them are named, the table
      survives exactly when no section comment would become the file comment. */
  lemma SingleLineReload(data: string, signature: bool, o: Options, nl: string)
    requires SingleLine(o) && IsNewLineSpelling(nl) && HeadersOk(Received(data), false)
    requires signature || !(BOM <= Print(DocOf(Load(data, o), o), o, nl))
    ensures var ini := Load(data, o);
      && (DocOf(Load(Save(ini, signature, o, nl), o), o) == DocOf(ini, o) <==> Survives(ini, o))
      && (HeadersOk(Received(data), true) ==> (Survives(ini, o) <==> LeadOk(DocOf(ini, o))))
  {
    hide Valid, NamelessNotEmpty, Parse, Sects, Received, FileComment, Body, AddAll, LeadOk, Print, Save, ValuesOk,
      NoEmptyHeaders, HeadersOk, NamelessPlain, PlainTable;
    var text := Received(data);
    BodyHeaders(text, false);
    ParseHeaders(Body(text), "", None, o, false);
    LoadedIsWritable(data, o, nl);
    ReloadIsStable(data, signature, o, nl);
    if HeadersOk(text, true) {
      BodyHeaders(text, true);
      ParseHeaders(Body(text), "", None, o, true);
      EmptyOk(o);
      EmptyPlain();
      AddAllKeepsFilled(EMPTY, EntriesOf(data, o).entries, o.multiKey);
      AddAllPlain(EMPTY, EntriesOf(data, o).entries, o.multiKey);
      PlainListing(Load(data, o).table, o.multiKey);
    }
  }

  lemma EmptyPlain()
    ensures PlainTable(EMPTY)
  {
  }
}
