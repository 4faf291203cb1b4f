/** Whether all section headers of a text are closed, and whether they are named, can be read off its lines. */
module IniHeaders {
  import opened Basics
  import opened IniText
  import opened IniGrammar

  /** What follows the line of a header that is closed: behind '[', white space and line breaks there is a name in one
      line that ends in ']'. With named, it has at least one character. */
  function HeaderEnd(t: string, named: bool): (r: Option<string>)
    requires t != ""
    ensures r.Some? ==> |r.value| < |t|
  {
    var name := Skip(t[1..], IsSpace);
    var n := Span(name, NameChar);
    if (named ==> 0 < n) && n < |name| && name[n] == ']' then Some(Skip(name[n + 1..], NotNewLine)) else None
  }

  /** All headers of a text are closed, and with named all have a name. */
  predicate HeadersOk(s: string, named: bool)
    decreases |s|
  {
    var t := Skip(s, IsSpace);
    if t == "" then true
    else if t[0] == '[' then
      var r := HeaderEnd(t, named);
      r.Some? && HeadersOk(r.value, named)
    else
      HeadersOk(Skip(t, NotNewLine), named)
  }

  /** Every header found has a name. */
  predicate NoEmptyHeaders(es: seq<Entry>) {
    forall i :: 0 <= i < |es| && es[i].key.None? ==> es[i].section != ""
  }

  // ---------- white space and other lines do not matter

  lemma {:induction false} HeadersSkipSpace(a: string, s: string, named: bool)
    requires forall c :: c in a ==> IsSpace(c)
    ensures HeadersOk(a + s, named) == HeadersOk(s, named)
  {
    SkipBlock(a, s, IsSpace);
  }

  /** Of a line that is not a header, nothing matters. */
  lemma {:induction false} HeadersSkipLine(t: string, line: string, r: string, named: bool)
    requires t == line + r && line != "" && (forall c :: c in line ==> NotNewLine(c)) && (r != "" ==> IsNewLine(r[0]))
    requires !IsSpace(line[0]) && line[0] != '['
    ensures HeadersOk(t, named) == HeadersOk(r, named)
  {
    assert t[0] == line[0];
    SpanIs(t, IsSpace, 0);
    ScanBlock(line, r, NotNewLine);
    assert Skip(t, IsSpace) == t;
  }

  lemma HeadersSkipBreak(r: string, named: bool)
    requires r != "" && IsNewLine(r[0])
    ensures HeadersOk(SkipNewLine(r), named) == HeadersOk(r, named)
  {
    hide HeadersOk;
    var rest := SkipNewLine(r);
    var gap := r[..|r| - |rest|];
    assert r == gap + rest;
    HeadersSkipSpace(gap, rest, named);
  }

  // ---------- the reader's steps

  lemma LineThere(s: string)
    ensures var line := LineOf(s); var r := s[|line|..];
      s == line + r && (forall c :: c in line ==> NotNewLine(c)) && (r != "" ==> IsNewLine(r[0]))
      && (s != "" && !IsNewLine(s[0]) ==> line != "" && line[0] == s[0]) && r == Skip(s, NotNewLine)
  {
  }

  lemma {:induction false} BlockHeaders(s: string, blanks: bool, named: bool)
    requires s != "" && IsComment(s[0])
    ensures HeadersOk(CommentBlock(s, blanks).rest, named) == HeadersOk(s, named)
    decreases |s|, 0
  {
    hide HeadersOk, LineOf, CommentTail;
    var line := LineOf(s);
    var r := s[|line|..];
    LineThere(s);
    HeadersSkipLine(s, line, r, named);
    if r != "" {
      HeadersSkipBreak(r, named);
      TailHeaders(SkipNewLine(r), blanks, named);
    }
  }

  lemma {:induction false} TailHeaders(s: string, blanks: bool, named: bool)
    ensures HeadersOk(CommentTail(s, blanks).rest, named) == HeadersOk(s, named)
    decreases |s|, 1
  {
    hide HeadersOk, CommentBlock, NewLineCount, Feeds, Span;
    var u := if blanks then Skip(s, IsSpace) else s;
    if u != "" && IsComment(u[0]) {
      BlockHeaders(u, blanks, named);
      SkippedSpace(s, named);
    }
  }

  lemma SkippedSpace(s: string, named: bool)
    ensures HeadersOk(Skip(s, IsSpace), named) == HeadersOk(s, named)
  {
    hide HeadersOk;
    var n := Span(s, IsSpace);
    assert s == s[..n] + s[n..];
    HeadersSkipSpace(s[..n], s[n..], named);
  }

  lemma HeaderUnfolds(t: string, named: bool)
    requires t != "" && t[0] == '['
    ensures HeadersOk(t, named) <==> HeaderEnd(t, named).Some? && HeadersOk(HeaderEnd(t, named).value, named)
  {
    hide HeaderEnd;
    NoSpaceInFront(t);
  }

  lemma NoSpaceInFront(t: string)
    requires t != "" && !IsSpace(t[0])
    ensures Skip(t, IsSpace) == t
  {
    SpanIs(t, IsSpace, 0);
  }

  lemma TrimmedName(name: string, n: nat)
    requires n <= |name| && (name != "" ==> !IsSpace(name[0]))
    ensures TrimRight(name[..n]) != "" <==> n > 0
  {
    if 0 < n { assert name[..n][0] == name[0]; }
  }

  /** A header line. */
  lemma HeaderHeaders(t: string, comment: Option<string>, named: bool)
    requires t != "" && t[0] == '['
    ensures var step := HeaderStep(Skip(t[1..], IsSpace), comment);
      if step.Malformed? then !HeadersOk(t, named)
      else
        && step.Found? && step.entry.key.None?
        && (HeadersOk(t, named) <==> (named ==> step.entry.section != "") && HeadersOk(step.rest, named))
  {
    hide HeadersOk, TrimRight, Span;
    var name := Skip(t[1..], IsSpace);
    HeaderUnfolds(t, named);
    TrimmedName(name, Span(name, NameChar));
  }

  lemma ValueStepRest(after: string, key: string, section: string, comment: Option<string>, o: Options)
    requires !o.multiLine
    ensures var v := Skip(after, IsBlank); var r := v[|LineOf(v)|..];
      var step := ValueStep(key, after, section, comment, o);
      step.Found? && step.entry.key.Some? && step.rest == if r == "" then r else SkipNewLine(r)
  {
    hide LineOf, Skip, TrimRight, SkipNewLine;
  }

  lemma BlanksInFront(after: string)
    ensures var n := Span(after, IsBlank);
      after == after[..n] + Skip(after, IsBlank) && forall c :: c in after[..n] ==> NotNewLine(c)
  {
    hide Span;
    var n := Span(after, IsBlank);
    assert forall i :: 0 <= i < n ==> IsBlank(after[i]);
    forall c | c in after[..n] ensures NotNewLine(c) {
      var i :| 0 <= i < n && after[i] == c;
    }
  }

  /** Where a value ends: at the end of its line. */
  lemma ValueEnds(after: string, key: string, section: string, comment: Option<string>, o: Options)
    returns (line: string, r: string)
    requires !o.multiLine
    ensures after == line + r && (forall c :: c in line ==> NotNewLine(c)) && (r != "" ==> IsNewLine(r[0]))
    ensures var step := ValueStep(key, after, section, comment, o);
      step.Found? && step.entry.key.Some? && step.rest == if r == "" then r else SkipNewLine(r)
  {
    hide LineOf, Span, Skip, ValueStep, SkipNewLine;
    var v := Skip(after, IsBlank);
    var blanks := after[..Span(after, IsBlank)];
    LineThere(v);
    BlanksInFront(after);
    ValueStepRest(after, key, section, comment, o);
    line, r := blanks + LineOf(v), v[|LineOf(v)|..];
    assert blanks + (LineOf(v) + r) == line + r;
  }

  /** A key line is left behind its value's line. */
  lemma ValueHeaders(t: string, n: nat, key: string, section: string, comment: Option<string>, o: Options, named: bool)
    requires n < |t| && t[n] == '=' && (forall i :: 0 <= i < n ==> NotNewLine(t[i])) && !o.multiLine
    requires !IsSpace(t[0]) && t[0] != '['
    ensures var step := ValueStep(key, t[n + 1..], section, comment, o);
      step.Found? && step.entry.key.Some? && HeadersOk(step.rest, named) == HeadersOk(t, named)
  {
    hide HeadersOk, ValueStep;
    var rest, r := ValueEnds(t[n + 1..], key, section, comment, o);
    var line := t[..n + 1] + rest;
    assert t == line + r;
    assert line[0] == t[0];
    HeadersSkipLine(t, line, r, named);
    if r != "" { HeadersSkipBreak(r, named); }
  }

  /** What a step of the reader says about the headers of the text s in front of it. */
  predicate StepTells(step: Step, s: string, named: bool) {
    if step.Malformed? then !HeadersOk(s, named)
    else if step.Finish? then HeadersOk(s, named)
    else
      var e := step.entry;
      HeadersOk(s, named) == ((named && e.key.None? ==> e.section != "") && HeadersOk(step.rest, named))
  }

  lemma TurnHeaders(t: string, section: string, previous: Option<string>, comment: Option<string>, o: Options,
                    named: bool)
    requires !o.multiLine && !o.keyOnly && (t != "" ==> !IsSpace(t[0]))
    ensures var turn := TurnAt(t, section, previous, comment, o);
      if turn.More? then HeadersOk(turn.rest, named) == HeadersOk(t, named) else StepTells(turn.step, t, named)
  {
    hide HeadersOk, CommentBlock, HeaderStep, ValueStep, Span, TrimRight;
    if t == "" {
      EmptyHeaders(named);
    } else if IsComment(t[0]) {
      BlockHeaders(t, true, named);
    } else if t[0] == '[' {
      HeaderHeaders(t, comment, named);
    } else {
      var n := Span(t, KeyChar);
      var r := t[n..];
      if r != "" && r[0] == '=' {
        if n == 0 {
          LineThere(t);
          HeadersSkipLine(t, LineOf(t), Skip(t, NotNewLine), named);
        } else {
          ValueHeaders(t, n, TrimRight(t[..n]), section, comment, o, named);
          assert t[n + 1..] == r[1..];
        }
      } else {
        assert t == t[..n] + r;
        HeadersSkipLine(t, t[..n], r, named);
      }
    }
  }

  lemma EmptyHeaders(named: bool)
    ensures HeadersOk("", named)
  {
  }

  lemma {:induction false} NextHeaders(s: string, section: string, previous: Option<string>, comment: Option<string>,
                                       o: Options, named: bool)
    requires !o.multiLine && !o.keyOnly
    ensures StepTells(Next(s, section, previous, comment, o), s, named)
    decreases |s|
  {
    hide HeadersOk, TurnAt;
    var t := Skip(s, IsSpace);
    SkippedSpace(s, named);
    TurnHeaders(t, section, previous, comment, o, named);
    match TurnAt(t, section, previous, comment, o)
    case Done(_) =>
    case More(rest, c) => NextHeaders(rest, section, previous, c, o, named);
  }

  lemma NoEmptyStep(e: Entry, es: seq<Entry>)
    ensures NoEmptyHeaders([e] + es) <==> (e.key.None? ==> e.section != "") && NoEmptyHeaders(es)
  {
    var fs := [e] + es;
    assert fs[0] == e && forall i :: 0 <= i < |es| ==> fs[i + 1] == es[i];
    if !NoEmptyHeaders(fs) {
      var i :| 0 <= i < |fs| && fs[i].key.None? && fs[i].section == "";
      if i > 0 { assert es[i - 1] == fs[i]; }
    }
  }

  /** In single-line mode the reader gets to the end of a text exactly when all headers in its lines are closed,
      and finds no header without a name exactly when moreover all are named. */
  lemma {:induction false} ParseHeaders(s: string, section: string, previous: Option<string>, o: Options, named: bool)
    requires !o.multiLine && !o.keyOnly
    ensures var p := Parse(s, section, previous, o);
      p.complete && (named ==> NoEmptyHeaders(p.entries)) <==> HeadersOk(s, named)
    decreases |s|
  {
    hide HeadersOk, Next, NoEmptyHeaders;
    NextHeaders(s, section, previous, None, o, named);
    match Next(s, section, previous, None, o)
    case Finish => NoneEmpty();
    case Malformed =>
    case Found(e, rest) =>
      ParseHeaders(rest, e.section, e.value, o, named);
      NoEmptyStep(e, Parse(rest, e.section, e.value, o).entries);
  }

  lemma NoneEmpty()
    ensures NoEmptyHeaders([])
  {
  }

  /** Taking the file comment off makes no difference. */
  lemma BodyHeaders(s: string, named: bool)
    ensures HeadersOk(Body(s), named) == HeadersOk(s, named)
  {
    hide HeadersOk, CommentBlock;
    if s != "" && IsComment(s[0]) { BlockHeaders(s, false, named); }
  }
}
