/** Reading back key lines, section headers and whole documents. */
module IniReadDocument {
  import opened Basics
  import opened IniText
  import opened IniGrammar
  import opened IniDocument
  import opened IniReadBack

  // ---------- one value

  predicate Plain(v: string) { !HasNewLine(v) && (v != "" ==> !IsSpace(v[0])) && Trimmed(v) }

  lemma PlainIsSingleLine(v: string)
    ensures Plain(v) <==> !IsMultiLineData(v)
  {
  }

  lemma ValueStepIs(after: string, rest: string, line: string, r: string, key: string, section: string,
                    comment: Option<string>, o: Options)
    requires Skip(after, IsBlank) == rest && LineOf(rest) == line && rest[|line|..] == r && r != ""
    ensures ValueStep(key, after, section, comment, o)
      == ValueOf(TrimRight(line), SkipNewLine(r), key, section, comment, o)
  {
    hide ValueOf, Skip, LineOf, TrimRight, SkipNewLine;
  }

  /** A plain value in its line is found exactly, and reading goes on behind the line. */
  lemma PlainValue(sp: string, v: string, nl: string, tail: string, key: string, section: string,
                   comment: Option<string>, o: Options)
    requires Plain(v) && IsNewLineSpelling(nl) && (sp == "" || sp == " ")
    ensures ValueStep(key, sp + (v + nl + tail), section, comment, o) == ValueOf(v, tail, key, section, comment, o)
  {
    hide *;
    NoBlankInFront(v, nl, tail);
    BlanksBefore(sp);
    ScanBlock(sp, v + nl + tail, IsBlank);
    PlainLine(v);
    LineThen(v, nl, tail);
    TrimRightIs(v, |v|);
    assert v[..|v|] == v;
    ValueStepIs(sp + (v + nl + tail), v + nl + tail, v, nl + tail, key, section, comment, o);
  }

  lemma BlanksBefore(sp: string)
    requires sp == "" || sp == " "
    ensures forall c :: c in sp ==> IsBlank(c)
  {
  }

  lemma NoBlankInFront(v: string, nl: string, tail: string)
    requires Plain(v) && IsNewLineSpelling(nl)
    ensures v + nl + tail != "" && !IsBlank((v + nl + tail)[0]) && nl + tail != ""
  {
    var line := v + nl + tail;
    assert line[0] == if v != "" then v[0] else nl[0];
  }

  lemma PlainLine(v: string)
    requires Plain(v)
    ensures (forall c :: c in v ==> NotNewLine(c)) && (v != "" ==> !IsSpace(v[|v| - 1]))
  {
  }

  lemma QuotedIsPlain(v: string)
    requires !HasNewLine(v)
    ensures Plain("\"" + v + "\"")
  {
    var w := "\"" + v + "\"";
    forall i | 0 <= i < |w| ensures !IsNewLine(w[i]) {
      if 0 < i < |w| - 1 { assert w[i] == v[i - 1]; }
    }
  }

  lemma ReadQuoted(sp: string, v: string, nl: string, tail: string, key: string, section: string,
                   comment: Option<string>, o: Options)
    requires o.quotes && !HasNewLine(v) && IsNewLineSpelling(nl) && (sp == "" || sp == " ")
    ensures ValueStep(key, sp + ("\"" + v + "\"" + nl + tail), section, comment, o)
      == Found(Entry(section, Some(key), Some(v), comment), tail)
  {
    hide ValueStep, HereText, Plain, HasNewLine, IsNewLineSpelling;
    var w := "\"" + v + "\"";
    QuotedIsPlain(v);
    PlainValue(sp, w, nl, tail, key, section, comment, o);
    assert w[0] == '"' && w[|w| - 1] == '"' && w[1..|w| - 1] == v;
  }

  lemma TagIsPlain()
    ensures Plain("<<<" + TAG) && ("<<<" + TAG)[3..] == TAG
  {
  }

  lemma ReadMultiLine(sp: string, v: string, nl: string, tail: string, key: string, section: string,
                      comment: Option<string>, o: Options)
    requires o.multiLine && '\r' !in v && NoTagLine(v, false, nl) && IsNewLineSpelling(nl) && (sp == "" || sp == " ")
    ensures ValueStep(key, sp + ("<<<" + TAG + nl + Lines(v, nl) + TAG + nl + tail), section, comment, o)
      == Found(Entry(section, Some(key), Some(v), comment), tail)
  {
    hide ValueStep, HereText, Plain, NoTagLine, Lines, IsNewLineSpelling;
    var w := "<<<" + TAG;
    var lines := Lines(v, nl) + (TAG + nl + tail);
    TagIsPlain();
    PlainValue(sp, w, nl, lines, key, section, comment, o);
    ReadHere(v, false, nl, tail);
    assert w + nl + Lines(v, nl) + TAG + nl + tail == w + nl + lines;
  }

  lemma ReadPlain(sp: string, v: string, nl: string, tail: string, key: string, section: string,
                  comment: Option<string>, o: Options)
    requires Plain(v) && !(o.multiLine && "<<<" <= v) && !(o.quotes && IsQuoted(v)) && IsNewLineSpelling(nl)
    requires (sp == "" || sp == " ")
    ensures ValueStep(key, sp + (v + nl + tail), section, comment, o)
      == Found(Entry(section, Some(key), Some(v), comment), tail)
  {
    hide ValueStep, HereText, Plain, IsNewLineSpelling;
    PlainValue(sp, v, nl, tail, key, section, comment, o);
  }

  /** What stands after the '=' sign of a written value reads back as that value. */
  lemma ReadValue(v: string, nl: string, tail: string, key: string, section: string, comment: Option<string>,
                  o: Options)
    requires ValueOk(v, o, nl) && IsNewLineSpelling(nl)
    ensures var sp := if o.spaces then " " else "";
      ValueStep(key, sp + (PrintValue(v, o, nl) + nl + tail), section, comment, o)
        == Found(Entry(section, Some(key), Some(v), comment), tail)
  {
    hide ValueStep, HereText, NoTagLine, Lines, HasNewLine, IsQuoted, Plain, IsNewLineSpelling;
    var sp := if o.spaces then " " else "";
    if o.quotes && IsSingleLineQuotedValue(v) {
      ReadQuoted(sp, v, nl, tail, key, section, comment, o);
    } else if o.multiLine && IsMultiLineData(v) {
      ReadMultiLine(sp, v, nl, tail, key, section, comment, o);
    } else {
      PlainIsSingleLine(v);
      ReadPlain(sp, v, nl, tail, key, section, comment, o);
    }
  }

  // ---------- one key line

  /** The key of a written line is found exactly, whatever follows its '=' sign. */
  lemma ReadKey(key: string, x: string, section: string, previous: Option<string>, comment: Option<string>, o: Options)
    requires KeyNameOk(key)
    ensures Next(key + Equals(o) + x, section, previous, comment, o)
      == ValueStep(key, (if o.spaces then " " else "") + x, section, comment, o)
  {
    hide ValueStep, CommentBlock, HeaderStep, Span, Skip, TrimRight, TrimLen;
    var sp := if o.spaces then " " else "";
    var t := key + Equals(o) + x;
    assert t[0] == key[0];
    NotSpaceStays(t);
    assert t == (key + sp) + ("=" + (sp + x));
    ScanBlock(key + sp, "=" + (sp + x), KeyChar);
    var n := |key + sp|;
    assert t[..n] == key + sp;
    TrimRightIs(key + sp, |key|);
    assert (key + sp)[..|key|] == key;
    assert t[n + 1..] == sp + x;
  }

  lemma ReadKeyLine(key: string, v: string, section: string, previous: Option<string>, comment: Option<string>,
                    tail: string, o: Options, nl: string)
    requires KeyNameOk(key) && ValueOk(v, o, nl) && IsNewLineSpelling(nl)
    ensures Next(key + Equals(o) + (PrintValue(v, o, nl) + nl + tail), section, previous, comment, o)
      == Found(Entry(section, Some(key), Some(v), comment), tail)
  {
    hide *;
    ReadKey(key, PrintValue(v, o, nl) + nl + tail, section, previous, comment, o);
    ReadValue(v, nl, tail, key, section, comment, o);
  }

  /** A key alone in its line takes over the value of the entry before. */
  lemma ReadKeyAlone(key: string, section: string, previous: Option<string>, comment: Option<string>, tail: string,
                     o: Options, nl: string)
    requires o.keyOnly && KeyNameOk(key) && IsNewLineSpelling(nl)
    ensures Next(key + (nl + tail), section, previous, comment, o)
      == Found(Entry(section, Some(key), previous, comment), tail)
  {
    hide ValueStep, CommentBlock;
    var t := key + (nl + tail);
    SkipNewLineSpelling(nl, tail);
    assert t[0] == key[0];
    SpanIs(t, IsSpace, 0);
    assert Skip(t, IsSpace) == t;
    ScanBlock(key, nl + tail, KeyChar);
    assert t[..|key|] == key;
    TrimRightIs(key, |key|);
    assert key[..|key|] == key;
  }

  /** A comment in front of something that is neither space nor comment is carried to it. */
  lemma ReadLeadingComment(c: string, tail: string, section: string, previous: Option<string>, o: Options, nl: string)
    requires CommentOk(c, true) && IsNewLineSpelling(nl)
    requires tail != "" && !IsSpace(tail[0]) && !IsComment(tail[0])
    ensures Next(Lines(c, nl) + tail, section, previous, None, o) == Next(tail, section, previous, Some(c), o)
  {
    hide CommentBlock, Lines, CommentOk;
    var s := Lines(c, nl) + tail;
    StopsAtText(tail);
    SpanIs(tail, IsSpace, 0);
    ReadComment(c, tail, true, nl);
    SpanIs(s, IsSpace, 0);
    assert Skip(s, IsSpace) == s;
  }

  /** A comment stops at anything that is neither space nor comment. */
  lemma StopsAtText(tail: string)
    requires tail != "" && !IsSpace(tail[0]) && !IsComment(tail[0])
    ensures Stops(tail, true)
  {
    SpanIs(tail, IsSpace, 0);
  }

  lemma KeyStart(key: string, x: string)
    requires KeyNameOk(key)
    ensures key + x != "" && !IsSpace((key + x)[0]) && !IsComment((key + x)[0])
  {
    assert (key + x)[0] == key[0];
  }

  lemma CommentNotEmpty(c: string)
    requires CommentOk(c, true)
    ensures c != ""
  {
  }

  lemma PrintValShape(key: string, v: Val, tail: string, o: Options, nl: string)
    ensures var line := key + (if o.keyOnly && v.value == "" then nl + tail
        else Equals(o) + (PrintValue(v.value, o, nl) + nl + tail));
      PrintVal(key, v, o, nl) + tail
        == (if v.comment.None? then line else nl + (Output(v.comment.value, nl) + line))
  {
    hide PrintValue, Output;
  }

  lemma NewLineIsSpace(nl: string)
    requires IsNewLineSpelling(nl)
    ensures forall c :: c in nl ==> IsSpace(c)
  {
  }

  /** One written value of a key, with its comment, is the next entry. */
  lemma ReadVal(key: string, v: Val, section: string, previous: Option<string>, tail: string, o: Options, nl: string)
    requires KeyNameOk(key) && ValueOk(v.value, o, nl) && OptionalCommentOk(v.comment) && IsNewLineSpelling(nl)
    ensures Next(PrintVal(key, v, o, nl) + tail, section, previous, None, o)
      == Found(Entry(section, Some(key), ValueRead(v.value, previous, o), v.comment), tail)
  {
    hide Next, CommentOk, PrintValue, ValueOk, PrintVal, KeyNameOk, IsNewLineSpelling, IsSpace, Lines;
    var alone := o.keyOnly && v.value == "";
    var x := if alone then nl + tail else Equals(o) + (PrintValue(v.value, o, nl) + nl + tail);
    var line := key + x;
    PrintValShape(key, v, tail, o, nl);
    if alone {
      ReadKeyAlone(key, section, previous, v.comment, tail, o, nl);
    } else {
      assert line == key + Equals(o) + (PrintValue(v.value, o, nl) + nl + tail);
      ReadKeyLine(key, v.value, section, previous, v.comment, tail, o, nl);
    }
    if v.comment.Some? {
      var c := v.comment.value;
      CommentNotEmpty(c);
      KeyStart(key, x);
      NewLineIsSpace(nl);
      NextSkipsSpace(nl, Lines(c, nl) + line, section, previous, None, o);
      ReadLeadingComment(c, line, section, previous, o, nl);
    }
  }

  // ---------- one section header

  lemma NotSpaceStays(t: string)
    requires t != "" && !IsSpace(t[0])
    ensures Skip(t, IsSpace) == t
  {
  }

  lemma ReadBrackets(name: string, section: string, previous: Option<string>, comment: Option<string>, tail: string,
                     o: Options, nl: string)
    requires SectionNameOk(name) && IsNewLineSpelling(nl)
    ensures Next("[" + name + "]" + nl + tail, section, previous, comment, o)
      == Found(Entry(name, None, None, comment), nl + tail)
  {
    hide CommentBlock, ValueStep;
    var t := "[" + name + "]" + nl + tail;
    var rest := "]" + (nl + tail);
    var u := name + rest;
    assert t[1..] == u && u[0] == name[0];
    NotSpaceStays(t);
    NotSpaceStays(u);
    ScanBlock(name, rest, NameChar);
    TrimRightIs(name, |name|);
    assert u[..|name|] == name && name[..|name|] == name && u[|name| + 1..] == nl + tail;
    SpanIs(nl + tail, NotNewLine, 0);
  }

  lemma ReadHeader(s: Sect, section: string, previous: Option<string>, tail: string, o: Options, nl: string)
    requires s.name != "" && SectionNameOk(s.name) && OptionalCommentOk(s.comment) && IsNewLineSpelling(nl)
    ensures Next(PrintHeader(s, nl) + tail, section, previous, None, o)
      == Found(Entry(s.name, None, None, s.comment), nl + tail)
  {
    hide Next, Lines, CommentOk, SectionNameOk;
    var line := "[" + s.name + "]" + nl + tail;
    if s.comment.None? {
      assert PrintHeader(s, nl) + tail == line;
    } else {
      var c := s.comment.value;
      CommentNotEmpty(c);
      assert PrintHeader(s, nl) + tail == Lines(c, nl) + line;
      ReadLeadingComment(c, line, section, previous, o, nl);
    }
    ReadBrackets(s.name, section, previous, s.comment, tail, o, nl);
  }

  // ---------- whole documents

  function Before(es: seq<Entry>, p: Parsed): Parsed { Parsed(es + p.entries, p.complete) }

  lemma {:induction false} ReadVals(key: string, vals: seq<Val>, section: string, previous: Option<string>,
                                    tail: string, o: Options, nl: string)
    requires IsNewLineSpelling(nl) && KeyOk(Key(key, vals), o, nl)
    ensures Parse(PrintVals(key, vals, o, nl) + tail, section, previous, o)
      == Before(ValReads(section, key, vals, previous, o), Parse(tail, section, ValLast(vals, previous, o), o))
    decreases |vals|
  {
    hide Next, PrintVal, KeyNameOk, ValueOk, OptionalCommentOk, IsNewLineSpelling, ValueRead;
    var end := Parse(tail, section, ValLast(vals, previous, o), o);
    if vals == [] {
      assert PrintVals(key, vals, o, nl) + tail == tail;
      assert [] + end.entries == end.entries;
    } else {
      var v := vals[0];
      var more := PrintVals(key, vals[1..], o, nl) + tail;
      var value := ValueRead(v.value, previous, o);
      assert v in vals && forall w :: w in vals[1..] ==> w in vals;
      assert PrintVals(key, vals, o, nl) + tail == PrintVal(key, v, o, nl) + more;
      ReadVal(key, v, section, previous, more, o, nl);
      ReadVals(key, vals[1..], section, value, tail, o, nl);
      var e := Entry(section, Some(key), value, v.comment);
      var es := ValReads(section, key, vals[1..], value, o);
      assert [e] + (es + end.entries) == [e] + es + end.entries;
    }
  }

  lemma {:induction false} ReadKeys(keys: seq<Key>, section: string, previous: Option<string>, tail: string, o: Options,
                                    nl: string)
    requires IsNewLineSpelling(nl) && (forall k :: k in keys ==> KeyOk(k, o, nl))
    ensures Parse(PrintKeys(keys, o, nl) + tail, section, previous, o)
      == Before(KeyReads(section, keys, previous, o), Parse(tail, section, KeyLast(keys, previous, o), o))
    decreases |keys|
  {
    hide Parse, PrintVals, KeyOk, IsNewLineSpelling, ValReads, ValLast;
    var end := Parse(tail, section, KeyLast(keys, previous, o), o);
    if keys == [] {
      assert PrintKeys(keys, o, nl) + tail == tail;
      assert [] + end.entries == end.entries;
    } else {
      var k := keys[0];
      var more := PrintKeys(keys[1..], o, nl) + tail;
      var last := ValLast(k.vals, previous, o);
      assert k in keys && k == Key(k.name, k.vals);
      assert PrintKeys(keys, o, nl) + tail == PrintVals(k.name, k.vals, o, nl) + more;
      ReadVals(k.name, k.vals, section, previous, more, o, nl);
      ReadKeys(keys[1..], section, last, tail, o, nl);
      var es, fs := ValReads(section, k.name, k.vals, previous, o), KeyReads(section, keys[1..], last, o);
      assert es + (fs + end.entries) == es + fs + end.entries;
    }
  }

  /** A written section: its header entry, then its key entries, then the rest. */
  lemma ReadSection(s: Sect, section: string, previous: Option<string>, tail: string, o: Options, nl: string)
    requires IsNewLineSpelling(nl) && SectOk(s, o, nl)
    requires s.name == "" ==> section == "" && previous.None? && s.comment.None?
    ensures Parse(PrintHeader(s, nl) + PrintKeys(s.keys, o, nl) + tail, section, previous, o)
      == Before(HeaderEntries(s) + KeyReads(s.name, s.keys, None, o), Parse(tail, s.name, KeyLast(s.keys, None, o), o))
  {
    hide Next, PrintKeys, KeyReads, KeyLast, KeyOk, SectionNameOk, OptionalCommentOk, Lines, IsNewLineSpelling;
    var body := PrintKeys(s.keys, o, nl) + tail;
    var all := PrintHeader(s, nl) + PrintKeys(s.keys, o, nl) + tail;
    var end := Parse(tail, s.name, KeyLast(s.keys, None, o), o);
    var es := KeyReads(s.name, s.keys, None, o);
    if s.name == "" {
      assert all == body;
      ReadKeys(s.keys, "", None, tail, o, nl);
      assert HeaderEntries(s) + es == es;
    } else {
      assert all == PrintHeader(s, nl) + body;
      ReadHeader(s, section, previous, body, o, nl);
      NewLineIsSpace(nl);
      ParseSkipsSpace(nl, body, s.name, None, o);
      ReadKeys(s.keys, s.name, None, tail, o, nl);
      var e := Entry(s.name, None, None, s.comment);
      assert [e] + (es + end.entries) == HeaderEntries(s) + es + end.entries;
    }
  }

  lemma {:induction false} ReadPlainSections(sections: seq<Sect>, gap: bool, section: string, previous: Option<string>,
                                             o: Options, nl: string)
    requires IsNewLineSpelling(nl) && (forall s :: s in sections ==> SectOk(s, o, nl))
    requires NamelessPlain(sections)
    requires forall i :: 0 <= i < |sections| && sections[i].name == "" ==> i == 0 && section == "" && previous.None?
    ensures Parse(PrintSections(sections, gap, o, nl), section, previous, o) == Parsed(SectionReads(sections, o), true)
    decreases |sections|
  {
    hide Parse, PrintHeader, PrintKeys, SectOk, IsNewLineSpelling, HeaderEntries, KeyReads, KeyLast;
    if sections == [] {
      EmptyParses(section, previous, o);
    } else {
      var s := sections[0];
      var space := if gap then nl + nl else "";
      var tail := PrintSections(sections[1..], true, o, nl);
      var body := PrintHeader(s, nl) + PrintKeys(s.keys, o, nl) + tail;
      assert s in sections && forall r :: r in sections[1..] ==> r in sections;
      NewLineIsSpace(nl);
      ParseSkipsSpace(space, body, section, previous, o);
      assert PrintSections(sections, gap, o, nl) == space + body;
      ReadSection(s, section, previous, tail, o, nl);
      assert forall i :: 0 <= i < |sections[1..]| ==> sections[1..][i] == sections[i + 1];
      ReadPlainSections(sections[1..], true, s.name, KeyLast(s.keys, None, o), o, nl);
    }
  }

  /** A comment in front of any text only changes the comment of the first entry found in it. */
  lemma ReadBehindComment(c: string, r: string, section: string, previous: Option<string>, o: Options, nl: string)
    returns (d: Option<string>)
    requires CommentOk(c, true) && IsNewLineSpelling(nl)
    ensures var p := Parse(r, section, previous, o);
      Parse(Lines(c, nl) + r, section, previous, o) == Parsed(Recomment(p.entries, d), p.complete)
  {
    hide *;
    var s := Lines(c, nl) + r;
    PassComment(c, r, nl);
    CommentBare(s, section, previous, o);
    TailBare(r, section, previous, o);
    d := ParseBare(s, r, section, previous, o);
  }

  lemma UncommentedReads(sections: seq<Sect>, o: Options)
    ensures SectionReads(Uncommented(sections), o) == SectionReads(sections, o)
  {
    hide KeyReads;
    if sections != [] && sections[0].name == "" {
      assert Uncommented(sections)[1..] == sections[1..];
    }
  }

  /** The entries read: if the nameless section has a comment, the first one has another comment than its own. */
  function EntriesRead(sections: seq<Sect>, c: Option<string>, o: Options): seq<Entry> {
    if NamelessPlain(sections) then SectionReads(sections, o) else Recomment(SectionReads(sections, o), c)
  }

  /** All written sections are read back as their entries. The comment of a nameless section goes to the first of
      them. */
  lemma ReadSections(sections: seq<Sect>, gap: bool, o: Options, nl: string) returns (c: Option<string>)
    requires IsNewLineSpelling(nl) && Listed(sections) && (forall s :: s in sections ==> SectOk(s, o, nl))
    ensures Parse(PrintSections(sections, gap, o, nl), "", None, o)
      == Parsed(EntriesRead(sections, c, o), true)
  {
    hide Parse, PrintHeader, PrintKeys, SectOk, IsNewLineSpelling, SectionReads, Recomment;
    c := None;
    if NamelessPlain(sections) {
      ReadPlainSections(sections, gap, "", None, o, nl);
    } else {
      var s := sections[0];
      var ds := Uncommented(sections);
      OnlyFirstNameless(sections);
      UncommentedOk(sections, o, nl);
      ReadPlainSections(ds, gap, "", None, o, nl);
      UncommentedReads(sections, o);
      var space := if gap then nl + nl else "";
      var rest := PrintKeys(s.keys, o, nl) + PrintSections(sections[1..], true, o, nl);
      UncommentedPrint(sections, gap, o, nl);
      NewLineIsSpace(nl);
      ParseSkipsSpace(space, rest, "", None, o);
      ParseSkipsSpace(space, Lines(s.comment.value, nl) + rest, "", None, o);
      c := ReadBehindComment(s.comment.value, rest, "", None, o, nl);
    }
  }

  lemma OnlyFirstNameless(sections: seq<Sect>)
    requires Listed(sections) && !NamelessPlain(sections)
    ensures sections != [] && sections[0].name == "" && sections[0].comment.Some?
    ensures NamelessPlain(Uncommented(sections)) && Listed(Uncommented(sections))
  {
    var s :| s in sections && s.name == "" && s.comment.Some?;
    var i :| 0 <= i < |sections| && sections[i] == s;
    assert i == 0;
    var ds := Uncommented(sections);
    assert forall j :: 0 < j < |ds| ==> ds[j] == sections[j];
  }

  lemma UncommentedOk(sections: seq<Sect>, o: Options, nl: string)
    requires sections != [] && sections[0].name == "" && sections[0].comment.Some?
    requires forall s :: s in sections ==> SectOk(s, o, nl)
    ensures forall s :: s in Uncommented(sections) ==> SectOk(s, o, nl)
    ensures CommentOk(sections[0].comment.value, true)
  {
    hide KeyOk, CommentOk, SectionNameOk;
    assert sections[0] in sections;
  }

  lemma UncommentedPrint(sections: seq<Sect>, gap: bool, o: Options, nl: string)
    requires sections != [] && sections[0].name == "" && sections[0].comment.Some? && sections[0].comment.value != ""
    ensures var space := if gap then nl + nl else "";
      var rest := PrintKeys(sections[0].keys, o, nl) + PrintSections(sections[1..], true, o, nl);
      && PrintSections(Uncommented(sections), gap, o, nl) == space + rest
      && PrintSections(sections, gap, o, nl) == space + (Lines(sections[0].comment.value, nl) + rest)
  {
    hide PrintKeys, Lines;
    assert Uncommented(sections)[1..] == sections[1..];
  }

  lemma EmptyParses(section: string, previous: Option<string>, o: Options)
    ensures Parse("", section, previous, o) == Parsed([], true)
  {
  }

  predicate StartsWithComment(s: string) { s != "" && IsComment(s[0]) }

  lemma CommentStarts(c: string, blanks: bool, tail: string, nl: string)
    requires CommentOk(c, blanks) && IsNewLineSpelling(nl)
    ensures c != "" && StartsWithComment(Lines(c, nl) + tail)
  {
    hide CommentOk, Lines;
    CommentEnds(c, blanks);
    assert Lines(c, nl) + tail == Lines(c, nl) + "" + tail;
    ReadComment(c, "", blanks, nl);
  }

  lemma CommentEnds(c: string, blanks: bool)
    ensures Stops("", blanks)
  {
  }

  lemma ValStart(key: string, v: Val, o: Options, nl: string, tail: string)
    requires KeyNameOk(key) && IsNewLineSpelling(nl)
    ensures !StartsWithComment(PrintVal(key, v, o, nl) + tail)
  {
    hide Output, PrintValue;
    var s := PrintVal(key, v, o, nl) + tail;
    assert s[0] == if v.comment.None? then key[0] else nl[0];
  }

  lemma KeysStart(keys: seq<Key>, o: Options, nl: string, tail: string)
    requires keys != [] && keys[0].vals != [] && KeyNameOk(keys[0].name) && IsNewLineSpelling(nl)
    ensures !StartsWithComment(PrintKeys(keys, o, nl) + tail)
  {
    hide PrintVal, KeyNameOk, IsNewLineSpelling, StartsWithComment;
    var k := keys[0];
    var more := PrintVals(k.name, k.vals[1..], o, nl) + (PrintKeys(keys[1..], o, nl) + tail);
    assert PrintKeys(keys, o, nl) + tail == PrintVal(k.name, k.vals[0], o, nl) + more;
    ValStart(k.name, k.vals[0], o, nl, more);
  }

  lemma NoKeysPrinted(o: Options, nl: string)
    ensures PrintKeys([], o, nl) == ""
  {
  }

  /** The written sections start with a comment exactly when the first section has one. */
  lemma SectionsStart(sections: seq<Sect>, gap: bool, o: Options, nl: string)
    requires IsNewLineSpelling(nl) && Listed(sections) && (forall s :: s in sections ==> SectOk(s, o, nl))
    ensures StartsWithComment(PrintSections(sections, gap, o, nl))
      <==> !gap && sections != [] && sections[0].comment.Some?
  {
    hide Lines, PrintKeys, CommentOk, KeyNameOk, ValueOk, SectionNameOk;
    if sections != [] {
      var s := sections[0];
      var tail := PrintSections(sections[1..], true, o, nl);
      var keys := PrintKeys(s.keys, o, nl);
      var all := (if gap then nl + nl else "") + PrintHeader(s, nl) + keys + tail;
      assert s in sections;
      assert PrintSections(sections, gap, o, nl) == all;
      if gap {
        assert all[0] == nl[0];
      } else if s.comment.Some? {
        var name := if s.name == "" then "" else "[" + s.name + "]" + nl;
        CommentStarts(s.comment.value, true, name + keys + tail, nl);
        assert all == Lines(s.comment.value, nl) + (name + keys + tail);
      } else if s.name != "" {
        assert all[0] == '[';
      } else if s.keys != [] {
        assert s.keys[0] in s.keys;
        KeysStart(s.keys, o, nl, tail);
        assert all == keys + tail;
      } else {
        NoKeysPrinted(o, nl);
        assert all == tail;
        assert tail != "" ==> tail[0] == nl[0];
      }
    }
  }

  /** A written document reads back as the same file comment and the same entries, exactly when
      the comment at the front of the text, if any, is meant for the file. */
  lemma ReadDocument(d: Doc, o: Options, nl: string) returns (c: Option<string>)
    requires IsNewLineSpelling(nl) && DocOk(d, o, nl) && Listed(d.sections)
    ensures LeadOk(d) <==> FileComment(Print(d, o, nl)) == d.fileComment
    ensures LeadOk(d) ==> Parse(Body(Print(d, o, nl)), "", None, o) == Parsed(EntriesRead(d.sections, c, o), true)
  {
    hide Parse, Lines, CommentBlock, CommentOk, SectOk, IsNewLineSpelling, SectionReads, PrintSections, Listed,
      NamelessPlain, Recomment;
    var text := Print(d, o, nl);
    var body := PrintSections(d.sections, d.fileComment.Some?, o, nl);
    SectionsStart(d.sections, d.fileComment.Some?, o, nl);
    c := ReadSections(d.sections, d.fileComment.Some?, o, nl);
    if d.fileComment.Some? {
      var f := d.fileComment.value;
      assert Stops(body, false);
      CommentStarts(f, false, body, nl);
      ReadComment(f, body, false, nl);
      assert text == Lines(f, nl) + body;
    } else {
      assert text == body;
    }
  }
}
