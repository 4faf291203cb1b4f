/**
 * The INI grammar as pure functions on the text that is still to be read.
 * Every function returns the unread rest as a suffix of its argument.
 */
module IniGrammar {
  import opened Basics
  import opened IniText
  import opened IniOrder

  /** The settings of the reader and the writer. */
  datatype Options = Options(multiKey: bool, multiLine: bool, spaces: bool, quotes: bool, keyOnly: bool)

  /** One thing found in the text: a section header (key is None) or a key with its value. */
  datatype Entry = Entry(section: string, key: Option<string>, value: Option<string>, comment: Option<string>)

  /** A piece of text taken off the front, and what is left. */
  datatype Block = Block(text: string, rest: string)

  /** A here-document: None when the first line already is the closing tag. */
  datatype Here = Here(text: Option<string>, rest: string)

  /** What comes next. Malformed stands for the two inputs on which the reader loses its place:
      a '[' line without ']', and a here-document whose first line is its closing tag. */
  datatype Step = Found(entry: Entry, rest: string) | Finish | Malformed

  /** A whole comment: lines that start with ';' or '#', each ending in a single line feed. */
  function CommentBlock(s: string, blanks: bool): (b: Block)
    requires s != "" && IsComment(s[0])
    ensures |b.rest| < |s|
    decreases |s|, 0
  {
    var line := LineOf(s);
    var r := s[|line|..];
    if r == "" then Block(line, "")
    else
      var b := CommentTail(SkipNewLine(r), blanks);
      Block(line + b.text, b.rest)
  }

  /** The comment lines that follow a comment line already read. With blanks, white space in front
      of the next comment character is passed over, and its line breaks are kept as line feeds. */
  function CommentTail(s: string, blanks: bool): (b: Block)
    ensures |b.rest| <= |s|
    decreases |s|, 1
  {
    var u := if blanks then Skip(s, IsSpace) else s;
    if u == "" || !IsComment(u[0]) then Block("", s)
    else
      var gap := Feeds(NewLineCount(s[..|s| - |u|]));
      var b := CommentBlock(u, blanks);
      Block("\n" + gap + b.text, b.rest)
  }

  /** The line as it is compared with a closing tag: trailing space goes, but never the first character. */
  function TagText(line: string): string {
    if line == "" then "" else line[..if TrimLen(line) == 0 then 1 else TrimLen(line)]
  }

  /** Does this line close the here-document? Once a "\r\n" has been shortened to "\n" the lines
      after it are moved, and trailing white space of a moved line is no longer ignored. */
  predicate ClosesHere(line: string, tag: string, moved: bool) {
    Equiv(if moved then line else TagText(line), tag)
  }

  /** Lines up to the closing tag or the end of the data, joined by single line feeds. */
  function HereText(s: string, tag: string, moved: bool): (h: Here)
    ensures |h.rest| <= |s|
    decreases |s|
  {
    var line := LineOf(s);
    var r := s[|line|..];
    if ClosesHere(line, tag, moved) then Here(None, if r == "" then "" else SkipNewLine(r))
    else if r == "" then Here(Some(line), "")
    else
      var after := SkipNewLine(r);
      var h := HereText(after, tag, moved || |r| - |after| == 2);
      Here(Some(if h.text.None? then line else line + "\n" + h.text.value), h.rest)
  }

  predicate IsQuoted(v: string) { |v| > 1 && v[0] == '"' && v[|v| - 1] == '"' }

  /** The entry of a key line, given the text after its '=' sign. */
  function ValueStep(key: string, after: string, section: string, comment: Option<string>, o: Options): (r: Step)
    ensures r.Found? ==> |r.rest| <= |after|
  {
    var v := Skip(after, IsBlank);
    var raw := LineOf(v);
    var r := v[|raw|..];
    ValueOf(TrimRight(raw), if r == "" then r else SkipNewLine(r), key, section, comment, o)
  }

  /** The same once the value's own line has been read: val is its text, rest the lines after it. */
  function ValueOf(val: string, rest: string, key: string, section: string, comment: Option<string>,
                   o: Options): (r: Step)
    ensures r.Found? ==> |r.rest| <= |rest|
  {
    if o.multiLine && "<<<" <= val then
      var h := HereText(rest, val[3..], false);
      if h.text.None? then Malformed else Found(Entry(section, Some(key), h.text, comment), h.rest)
    else if o.quotes && IsQuoted(val) then
      Found(Entry(section, Some(key), Some(val[1..|val| - 1]), comment), rest)
    else
      Found(Entry(section, Some(key), Some(val), comment), rest)
  }

  /** What one turn of the reader's loop does: it is done, or it goes on with less text. */
  datatype Turn = Done(step: Step) | More(rest: string, comment: Option<string>)

  /** One turn, at a character that is not white space. */
  function TurnAt(t: string, section: string, previous: Option<string>, comment: Option<string>, o: Options): (r: Turn)
    requires t != "" ==> !IsSpace(t[0])
    ensures r.More? ==> |r.rest| < |t|
    ensures r.Done? && r.step.Found? ==> |r.step.rest| < |t|
  {
    if t == "" then Done(Finish)
    else if IsComment(t[0]) then
      var b := CommentBlock(t, true);
      More(b.rest, Some(b.text))
    else if t[0] == '[' then Done(HeaderStep(Skip(t[1..], IsSpace), comment))
    else
      var n := Span(t, KeyChar);
      var r := t[n..];
      if r != "" && r[0] == '=' then
        if n == 0 then More(Skip(t, NotNewLine), comment)
        else Done(ValueStep(TrimRight(t[..n]), r[1..], section, comment, o))
      else if !o.keyOnly then More(r, comment)
      else Done(Found(Entry(section, Some(TrimRight(t[..n])), previous, comment),
                      if r == "" then r else SkipNewLine(r)))
  }

  /** A section header, given the text after its '[' and the white space behind that. */
  function HeaderStep(u: string, comment: Option<string>): (r: Step)
    ensures r.Found? ==> |r.rest| <= |u|
  {
    var n := Span(u, NameChar);
    if n == |u| || u[n] != ']' then Malformed
    else Found(Entry(TrimRight(u[..n]), None, None, comment), Skip(u[n + 1..], NotNewLine))
  }

  /** The next entry of the text. section and previous are the current section name and the value
      of the entry before (a key without '=' takes it over); comment is the pending comment. */
  function Next(s: string, section: string, previous: Option<string>, comment: Option<string>, o: Options): (r: Step)
    ensures r.Found? ==> |r.rest| < |s|
    decreases |s|
  {
    match TurnAt(Skip(s, IsSpace), section, previous, comment, o)
    case Done(step) => step
    case More(rest, c) => Next(rest, section, previous, c, o)
  }

  /** All entries in order; complete is false when the reader loses its place on the way. */
  datatype Parsed = Parsed(entries: seq<Entry>, complete: bool)

  function Parse(s: string, section: string, previous: Option<string>, o: Options): Parsed
    decreases |s|
  {
    match Next(s, section, previous, None, o)
    case Finish => Parsed([], true)
    case Malformed => Parsed([], false)
    case Found(e, rest) =>
      var p := Parse(rest, e.section, e.value, o);
      Parsed([e] + p.entries, p.complete)
  }

  /** The comment at the very start of the text, if there is one. */
  function FileComment(s: string): Option<string> {
    if s != "" && IsComment(s[0]) then Some(CommentBlock(s, false).text) else None
  }

  /** The text after the file comment. */
  function Body(s: string): string {
    if s != "" && IsComment(s[0]) then CommentBlock(s, false).rest else s
  }

  /** White space in front of the unread text does not matter. */
  lemma {:induction false} NextSkipsSpace(a: string, s: string, section: string, previous: Option<string>,
                                          comment: Option<string>, o: Options)
    requires forall c :: c in a ==> IsSpace(c)
    ensures Next(a + s, section, previous, comment, o) == Next(s, section, previous, comment, o)
  {
    hide TurnAt;
    SkipBlock(a, s, IsSpace);
  }

  /** Unless keys may stand alone, the value of the entry before has no influence. */
  lemma {:induction false} PreviousIrrelevant(s: string, section: string, p: Option<string>, q: Option<string>,
                                              comment: Option<string>, o: Options)
    requires !o.keyOnly
    ensures Next(s, section, p, comment, o) == Next(s, section, q, comment, o)
    decreases |s|
  {
    var t := Skip(s, IsSpace);
    var turn := TurnAt(t, section, p, comment, o);
    assert turn == TurnAt(t, section, q, comment, o) by { hide CommentBlock, ValueStep, HeaderStep, Next; }
    hide TurnAt;
    if turn.More? { PreviousIrrelevant(turn.rest, section, p, q, turn.comment, o); }
  }

  lemma ParseSkipsSpace(a: string, s: string, section: string, previous: Option<string>, o: Options)
    requires forall c :: c in a ==> IsSpace(c)
    ensures Parse(a + s, section, previous, o) == Parse(s, section, previous, o)
  {
    hide Next;
    NextSkipsSpace(a, s, section, previous, None, o);
  }

  // ---------- comments behind white space

  /** A comment goes on behind a gap of white space. */
  lemma BehindGap(gap: string, u: string, blanks: bool)
    requires (forall c :: c in gap ==> IsSpace(c)) && (gap != "" ==> blanks) && u != "" && IsComment(u[0])
    ensures CommentTail(gap + u, blanks) ==
      var b := CommentBlock(u, blanks); Block("\n" + Feeds(NewLineCount(gap)) + b.text, b.rest)
  {
    hide CommentBlock, NewLineCount, Feeds, Span;
    var s := gap + u;
    if blanks { ScanBlock(gap, u, IsSpace); }
    assert (if blanks then Skip(s, IsSpace) else s) == u;
    assert s[..|s| - |u|] == gap;
  }

  /** What is not a comment behind white space ends it. */
  lemma NoCommentBehind(s: string, blanks: bool)
    requires var u := if blanks then Skip(s, IsSpace) else s; u == "" || !IsComment(u[0])
    ensures CommentTail(s, blanks) == Block("", s)
  {
    hide CommentBlock, NewLineCount, Feeds, Span;
  }

  // ---------- a pending comment goes to the next entry, and has no other effect

  function Bare(step: Step): Step { if step.Found? then step.(entry := step.entry.(comment := None)) else step }

  lemma HeaderBare(u: string, c: Option<string>, d: Option<string>)
    ensures Bare(HeaderStep(u, c)) == Bare(HeaderStep(u, d))
  {
    hide Span, Skip, TrimRight;
  }

  lemma ValueBare(key: string, after: string, section: string, c: Option<string>, d: Option<string>, o: Options)
    ensures Bare(ValueStep(key, after, section, c, o)) == Bare(ValueStep(key, after, section, d, o))
  {
    hide HereText, Skip, TrimRight, LineOf, SkipNewLine, IsQuoted;
  }

  /** One turn: what is left is the same, and so is what was found but for its comment. */
  lemma TurnBare(t: string, section: string, previous: Option<string>, c: Option<string>, d: Option<string>, o: Options)
    requires t != "" ==> !IsSpace(t[0])
    ensures var x, y := TurnAt(t, section, previous, c, o), TurnAt(t, section, previous, d, o);
      if x.Done? then y.Done? && Bare(y.step) == Bare(x.step) else y.More? && y.rest == x.rest
  {
    hide CommentBlock, HeaderStep, ValueStep, Span, Skip, TrimRight, SkipNewLine;
    if t != "" {
      var n := Span(t, KeyChar);
      var r := t[n..];
      HeaderBare(Skip(t[1..], IsSpace), c, d);
      if r != "" { ValueBare(TrimRight(t[..n]), r[1..], section, c, d, o); }
    }
  }

  lemma {:induction false} NextBare(s: string, section: string, previous: Option<string>, c: Option<string>,
                                    d: Option<string>, o: Options)
    ensures Bare(Next(s, section, previous, c, o)) == Bare(Next(s, section, previous, d, o))
    decreases |s|
  {
    hide TurnAt, Bare;
    var t := Skip(s, IsSpace);
    TurnBare(t, section, previous, c, d, o);
    var turn := TurnAt(t, section, previous, c, o);
    if turn.More? {
      NextBare(turn.rest, section, previous, turn.comment, TurnAt(t, section, previous, d, o).comment, o);
    }
  }

  lemma CommentTurn(u: string, section: string, previous: Option<string>, comment: Option<string>, o: Options)
    requires u != "" && IsComment(u[0])
    ensures var b := CommentBlock(u, true);
      TurnAt(u, section, previous, comment, o) == More(b.rest, Some(b.text)) && Skip(u, IsSpace) == u
  {
    hide CommentBlock;
    SpanIs(u, IsSpace, 0);
  }

  /** A comment is passed over. */
  lemma CommentBare(u: string, section: string, previous: Option<string>, o: Options)
    requires u != "" && IsComment(u[0])
    ensures Bare(Next(u, section, previous, None, o))
      == Bare(Next(CommentBlock(u, true).rest, section, previous, None, o))
  {
    hide TurnAt, CommentBlock, Bare;
    CommentTurn(u, section, previous, None, o);
    var b := CommentBlock(u, true);
    NextBare(b.rest, section, previous, Some(b.text), None, o);
  }

  /** So is what a comment that stands in front draws in. */
  lemma TailBare(s: string, section: string, previous: Option<string>, o: Options)
    ensures Bare(Next(CommentTail(s, true).rest, section, previous, None, o))
      == Bare(Next(s, section, previous, None, o))
  {
    hide Next, CommentBlock, Bare, Feeds, NewLineCount;
    var u := Skip(s, IsSpace);
    if u != "" && IsComment(u[0]) {
      CommentBare(u, section, previous, o);
      var n := Span(s, IsSpace);
      assert s == s[..n] + u;
      forall c | c in s[..n] ensures IsSpace(c) { }
      NextSkipsSpace(s[..n], u, section, previous, None, o);
    }
  }

  /** The same entries, the first one with another comment. */
  function Recomment(es: seq<Entry>, c: Option<string>): seq<Entry> {
    if es == [] then [] else [es[0].(comment := c)] + es[1..]
  }

  lemma ParseBare(s: string, r: string, section: string, previous: Option<string>, o: Options)
    returns (c: Option<string>)
    requires Bare(Next(s, section, previous, None, o)) == Bare(Next(r, section, previous, None, o))
    ensures var p := Parse(r, section, previous, o);
      Parse(s, section, previous, o) == Parsed(Recomment(p.entries, c), p.complete)
  {
    hide Next;
    c := None;
    var x, y := Next(s, section, previous, None, o), Next(r, section, previous, None, o);
    if x.Found? {
      c := x.entry.comment;
      var rest := Parse(y.rest, y.entry.section, y.entry.value, o);
      assert ([y.entry] + rest.entries)[1..] == rest.entries;
    }
  }
}
