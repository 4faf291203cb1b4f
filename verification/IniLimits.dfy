/** Exactly which values survive being written and read, and where closing tags are recognised. */
module IniLimits {
  import opened Basics
  import opened IniText
  import opened IniOrder
  import opened IniGrammar
  import opened IniDocument
  import opened IniReadBack
  import opened IniReadDocument

  /** White space behind a closing tag is ignored exactly as long as no "\r\n" of the here-document
      has been shortened; the source's comment says it is always ignored. */
  lemma TagWithTrailingSpace(tag: string, spaces: string, moved: bool)
    requires tag != "" && Trimmed(tag) && (forall c :: c in spaces ==> IsSpace(c))
    ensures ClosesHere(tag + spaces, tag, moved) <==> (!moved || spaces == "")
  {
    hide Less;
    var line := tag + spaces;
    TrimRightIs(line, |tag|);
    assert line[..|tag|] == tag;
    LessIrreflexive(tag);
    EquivIsFoldEquality(line, tag);
    assert |Fold(line)| == |line| && |Fold(tag)| == |tag|;
    if spaces == "" { assert line == tag; }
  }

  // ---------- here-documents

  lemma {:induction false} HereHasNoCR(s: string, tag: string, moved: bool)
    ensures var h := HereText(s, tag, moved); h.text.Some? ==> '\r' !in h.text.value
    decreases |s|
  {
    hide ClosesHere;
    var line := LineOf(s);
    var r := s[|line|..];
    LineHasNoNewLine(s);
    if !ClosesHere(line, tag, moved) && r != "" {
      var after := SkipNewLine(r);
      HereHasNoCR(after, tag, moved || |r| - |after| == 2);
    }
  }

  lemma LineHasNoNewLine(s: string)
    ensures forall c :: c in LineOf(s) ==> NotNewLine(c)
  {
  }

  /** A text with a tag line in it is cut short. */
  lemma {:induction false} HereCutShort(v: string, moved: bool, nl: string, tail: string)
    requires '\r' !in v && !NoTagLine(v, moved, nl) && IsNewLineSpelling(nl)
    ensures HereText(Lines(v, nl) + (TAG + nl + tail), TAG, moved).text != Some(v)
    decreases |v|
  {
    hide *;
    var end := TAG + nl + tail;
    var n := Span(v, NotLF);
    FirstLine(v, nl, end);
    LaterIs(v, nl);
    if ClosesHere(v[..n], TAG, moved) {
      TagIsNone(Lines(v, nl) + end, v[..n], moved);
    } else {
      var moved' := moved || |nl| == 2;
      NoTagStep(v, moved, nl);
      var v' := v[n + 1..];
      HereCutShort(v', moved', nl, tail);
      HereLine(Lines(v, nl) + end, v[..n], nl, Later(v, nl) + end, TAG, moved);
      var h := HereText(Lines(v', nl) + end, TAG, moved');
      if h.text.Some? {
        var longer := v[..n] + "\n" + h.text.value;
        assert longer[n + 1..] == h.text.value;
      }
      assert |v[..n]| < |v|;
    }
  }

  lemma TagIsNone(s: string, line: string, moved: bool)
    requires LineOf(s) == line && ClosesHere(line, TAG, moved)
    ensures HereText(s, TAG, moved).text == None
  {
    hide ClosesHere;
  }

  lemma NoTagStep(v: string, moved: bool, nl: string)
    requires !NoTagLine(v, moved, nl) && !ClosesHere(v[..Span(v, NotLF)], TAG, moved)
    ensures Span(v, NotLF) < |v| && !NoTagLine(v[Span(v, NotLF) + 1..], moved || |nl| == 2, nl)
  {
    hide ClosesHere;
  }

  /** A here-document gives back the text written into it exactly when that text has no "\r"
      and no line that closes it. */
  lemma HereRoundTrip(v: string, nl: string, tail: string)
    requires IsNewLineSpelling(nl)
    ensures HereText(Lines(v, nl) + (TAG + nl + tail), TAG, false) == Here(Some(v), tail)
      <==> '\r' !in v && NoTagLine(v, false, nl)
  {
    hide HereText, Lines, NoTagLine;
    HereHasNoCR(Lines(v, nl) + (TAG + nl + tail), TAG, false);
    if '\r' !in v {
      if NoTagLine(v, false, nl) { ReadHere(v, false, nl, tail); } else { HereCutShort(v, false, nl, tail); }
    }
  }

  /** The closing line of a here-document with white space behind its tag. */
  lemma {:induction false} ClosingLine(spaces: string, nl: string, tail: string, moved: bool)
    requires spaces != "" && (forall c :: c in spaces ==> IsBlank(c)) && IsNewLineSpelling(nl)
    ensures var h := HereText(TAG + spaces + nl + tail, TAG, moved);
      if moved then h.text.Some? else h == Here(None, tail)
  {
    hide ClosesHere, LineOf, TagText;
    var line := TAG + spaces;
    forall c | c in line ensures NotNewLine(c) { if c in spaces { assert IsBlank(c); } }
    LineThen(line, nl, tail);
    TagWithTrailingSpace(TAG, spaces, moved);
    SkipNewLineSpelling(nl, tail);
  }

  /** A text is read back from a here-document whose closing tag has white space behind it exactly when the lines
      end in a single line feed: with "\r\n" the tag line has been moved by the time it is compared, and is taken
      for text. The comment in the source says that white space after the tag is ignored. */
  lemma HereWithTrailingSpace(v: string, spaces: string, nl: string, tail: string)
    requires '\r' !in v && NoTagLine(v, false, nl) && IsNewLineSpelling(nl)
    requires spaces != "" && (forall c :: c in spaces ==> IsBlank(c))
    ensures HereText(Lines(v, nl) + (TAG + spaces + nl + tail), TAG, false) == Here(Some(v), tail) <==> nl == "\n"
  {
    hide HereText, Lines, NoTagLine;
    HereSpacedTag(v, spaces, nl, tail, false);
  }

  lemma {:induction false} HereSpacedTag(v: string, spaces: string, nl: string, tail: string, moved: bool)
    requires '\r' !in v && NoTagLine(v, moved, nl) && IsNewLineSpelling(nl)
    requires spaces != "" && (forall c :: c in spaces ==> IsBlank(c))
    requires nl == "\n" ==> !moved
    ensures var h := HereText(Lines(v, nl) + (TAG + spaces + nl + tail), TAG, moved);
      if nl == "\n" then h == Here(Some(v), tail) else h.text.Some? && |h.text.value| > |v|
    decreases |v|
  {
    hide *;
    var end := TAG + spaces + nl + tail;
    var n := Span(v, NotLF);
    var moved' := moved || |nl| == 2;
    NewLineLength(nl);
    FirstLine(v, nl, end);
    LaterIs(v, nl);
    NoTagParts(v, moved, nl);
    HereLine(Lines(v, nl) + end, v[..n], nl, Later(v, nl) + end, TAG, moved);
    if n == |v| {
      assert v[..n] == v && Later(v, nl) + end == end;
      ClosingLine(spaces, nl, tail, moved');
    } else {
      HereSpacedTag(v[n + 1..], spaces, nl, tail, moved');
      assert v[n] == '\n';
      assert v == v[..n] + "\n" + v[n + 1..];
    }
  }

  lemma NewLineLength(nl: string)
    requires IsNewLineSpelling(nl)
    ensures |nl| == 2 <==> nl != "\n"
  {
  }

  // ---------- all values

  /** What a value line yields in single-line mode. */
  lemma SingleLineYield(key: string, after: string, section: string, comment: Option<string>, o: Options)
    requires !o.multiLine
    ensures var r := ValueStep(key, after, section, comment, o);
      r.Found? && r.entry.value.Some? && !HasNewLine(r.entry.value.value)
  {
    hide Skip, LineOf, TrimRight, HasNewLine;
    var v := Skip(after, IsBlank);
    LineVal(v);
    InnerHasNoNewLine(TrimRight(LineOf(v)));
  }

  lemma InnerHasNoNewLine(val: string)
    requires !HasNewLine(val)
    ensures |val| > 1 ==> !HasNewLine(val[1..|val| - 1])
  {
    if |val| > 1 {
      var w := val[1..|val| - 1];
      assert forall j :: 0 <= j < |w| ==> w[j] == val[j + 1];
    }
  }

  lemma UnquotedYield(key: string, after: string, section: string, comment: Option<string>, o: Options)
    requires !o.multiLine && !o.quotes
    ensures var r := ValueStep(key, after, section, comment, o);
      r.Found? && r.entry.value.Some? && Plain(r.entry.value.value)
  {
    hide LineOf;
    SingleLineYield(key, after, section, comment, o);
    var v := Skip(after, IsBlank);
    LineHasNoNewLine(v);
    var raw := LineOf(v);
    var val := TrimRight(raw);
    if val != "" { assert val[0] == raw[0] == v[0] && NotNewLine(raw[0]); }
  }

  /** Quotes around a value that was not quoted by the writer are taken off by the reader. */
  lemma QuotesAreLost(sp: string, v: string, nl: string, tail: string, key: string, section: string,
                      comment: Option<string>, o: Options)
    requires Plain(v) && IsQuoted(v) && o.quotes && IsNewLineSpelling(nl) && (sp == "" || sp == " ")
    ensures ValueStep(key, sp + (v + nl + tail), section, comment, o)
      != Found(Entry(section, Some(key), Some(v), comment), tail)
  {
    hide ValueStep, HereText;
    PlainValue(sp, v, nl, tail, key, section, comment, o);
    assert |v[1..|v| - 1]| < |v|;
    assert v[0] == '"';
  }

  lemma HereValue(sp: string, v: string, nl: string, tail: string, key: string, section: string,
                  comment: Option<string>, o: Options)
    requires o.multiLine && v != "" && IsNewLineSpelling(nl) && (sp == "" || sp == " ")
    ensures ValueStep(key, sp + ("<<<" + TAG + nl + Output(v, nl) + TAG + nl + tail), section, comment, o)
      == Found(Entry(section, Some(key), Some(v), comment), tail)
      <==> HereText(Lines(v, nl) + (TAG + nl + tail), TAG, false) == Here(Some(v), tail)
  {
    hide ValueStep, HereText, Lines;
    var w := "<<<" + TAG;
    var lines := Lines(v, nl) + (TAG + nl + tail);
    assert "<<<" + TAG + nl + Output(v, nl) + TAG + nl + tail == w + nl + lines;
    assert Plain(w);
    PlainValue(sp, w, nl, lines, key, section, comment, o);
    assert w[3..] == TAG;
  }

  /** A here-document takes at least one line. */
  lemma HereTakes(s: string, tag: string, moved: bool)
    requires s != ""
    ensures |HereText(s, tag, moved).rest| < |s|
  {
    hide ClosesHere;
  }

  lemma HereOfNothing(tag: string)
    ensures var h := HereText("", tag, false); h.text.None? || h.text == Some("")
  {
    hide ClosesHere;
  }

  /** With multi-line on, a plain value that starts with "<<<" opens a here-document when it is read, and is lost. */
  lemma HereMarkLost(sp: string, v: string, nl: string, tail: string, key: string, section: string,
                     comment: Option<string>,
                     o: Options)
    requires Plain(v) && "<<<" <= v && o.multiLine && IsNewLineSpelling(nl) && (sp == "" || sp == " ")
    ensures ValueStep(key, sp + (v + nl + tail), section, comment, o)
      != Found(Entry(section, Some(key), Some(v), comment), tail)
  {
    hide ValueStep, HereText, Plain;
    PlainValue(sp, v, nl, tail, key, section, comment, o);
    if tail == "" { HereOfNothing(v[3..]); } else { HereTakes(tail, v[3..], false); }
  }

  /** The value of a written key line is read back, and reading goes on behind it, exactly when the
      value is one that ValueOk admits. */
  lemma ValueRoundTrip(v: string, nl: string, tail: string, key: string, section: string, comment: Option<string>,
                       o: Options)
    requires NoNul(v) && IsNewLineSpelling(nl)
    ensures var sp := if o.spaces then " " else "";
      ValueStep(key, sp + (PrintValue(v, o, nl) + nl + tail), section, comment, o)
        == Found(Entry(section, Some(key), Some(v), comment), tail)
      <==> ValueOk(v, o, nl)
  {
    hide ValueStep, HereText, NoTagLine, Lines;
    var sp := if o.spaces then " " else "";
    var after := sp + (PrintValue(v, o, nl) + nl + tail);
    PlainIsSingleLine(v);
    if ValueOk(v, o, nl) {
      ReadValue(v, nl, tail, key, section, comment, o);
    } else if o.quotes && IsSingleLineQuotedValue(v) {
      if !o.multiLine { SingleLineYield(key, after, section, comment, o); }
      else { QuotedNewLineLost(v, sp, nl, tail, key, section, comment, o); }
    } else if o.multiLine && IsMultiLineData(v) {
      HereRoundTrip(v, nl, tail);
      HereValue(sp, v, nl, tail, key, section, comment, o);
      assert after == sp + ("<<<" + TAG + nl + Output(v, nl) + TAG + nl + tail);
    } else if Plain(v) && o.multiLine && "<<<" <= v {
      HereMarkLost(sp, v, nl, tail, key, section, comment, o);
    } else if Plain(v) {
      QuotesAreLost(sp, v, nl, tail, key, section, comment, o);
    } else if o.quotes {
      SingleLineYield(key, after, section, comment, o);
    } else {
      UnquotedYield(key, after, section, comment, o);
    }
  }

  /** A value with white space in front and a newline inside is written in quotes, and lost:
      the reader sees only its first line. */
  lemma QuotedNewLineLost(v: string, sp: string, nl: string, tail: string, key: string, section: string,
                          comment: Option<string>, o: Options)
    requires v != "" && IsSpace(v[0]) && HasNewLine(v) && IsNewLineSpelling(nl) && (sp == "" || sp == " ")
    ensures ValueStep(key, sp + ("\"" + v + "\"" + nl + tail), section, comment, o)
      != Found(Entry(section, Some(key), Some(v), comment), tail)
  {
    hide HereText, LineOf, TrimRight, Skip;
    var after := sp + ("\"" + v + "\"" + nl + tail);
    var t := "\"" + v + "\"" + nl + tail;
    ScanBlock(sp, t, IsBlank);
    assert Skip(after, IsBlank) == t;
    LineVal(t);
    var val := TrimRight(LineOf(t));
    assert val != v;
    if |val| > 1 {
      var w := val[1..|val| - 1];
      assert forall j :: 0 <= j < |w| ==> w[j] == val[j + 1];
      assert !HasNewLine(w);
    }
  }

  lemma LineVal(t: string)
    ensures var val := TrimRight(LineOf(t)); !HasNewLine(val) && (val != "" ==> t != "" && val[0] == t[0])
  {
    LineHasNoNewLine(t);
    var val := TrimRight(LineOf(t));
    assert forall i :: 0 <= i < |val| ==> val[i] == LineOf(t)[i] && NotNewLine(val[i]);
  }
}
