/** The lines of an INI text, written out: what each kind of line means to the reader, character by character. */
module IniSyntax {
  import opened Basics
  import opened IniText
  import opened IniOrder
  import opened IniGrammar

  // ---------- stretches of text

  predicate Blanks(s: string) { forall i :: 0 <= i < |s| ==> s[i] == ' ' || s[i] == '\t' }

  predicate White(s: string) {
    forall i :: 0 <= i < |s| ==> s[i] == ' ' || s[i] == '\t' || s[i] == '\r' || s[i] == '\n'
  }

  predicate NotWhite(c: char) { c != ' ' && c != '\t' && c != '\r' && c != '\n' }

  predicate OneLine(s: string) { forall i :: 0 <= i < |s| ==> s[i] != '\n' && s[i] != '\r' }

  /** No blank at either end. */
  predicate Tight(s: string) {
    s != "" ==> s[0] != ' ' && s[0] != '\t' && s[|s| - 1] != ' ' && s[|s| - 1] != '\t'
  }

  /** br ends a line in front of rest: one of the three line breaks, or nothing at the end of the data. */
  predicate Ends(br: string, rest: string) {
    || br == "\n"
    || br == "\r\n"
    || (br == "\r" && (rest == "" || rest[0] != '\n'))
    || (br == "" && rest == "")
  }

  /** What follows is not the text of a line. */
  predicate LineEnd(e: string) { e == "" || e[0] == '\n' || e[0] == '\r' }

  predicate CommentAhead(s: string) { s != "" && (s[0] == ';' || s[0] == '#') }

  /** Behind white space a comment follows. */
  predicate CommentComes(s: string) { exists n :: 0 <= n <= |s| && White(s[..n]) && CommentAhead(s[n..]) }

  lemma LineBefore(line: string, br: string, rest: string)
    requires OneLine(line) && Ends(br, rest)
    ensures var s := line + br + rest;
      && LineOf(s) == line && s[|line|..] == br + rest
      && (br + rest != "" ==> SkipNewLine(br + rest) == rest) && (br + rest == "" ==> rest == "")
  {
    assert line + br + rest == line + (br + rest);
    ScanBlock(line, br + rest, NotNewLine);
  }

  lemma WhiteSkipped(a: string, t: string)
    requires White(a) && (t != "" ==> NotWhite(t[0]))
    ensures Skip(a + t, IsSpace) == t
  {
    ScanBlock(a, t, IsSpace);
  }

  lemma BehindWhite(s: string)
    ensures CommentAhead(Skip(s, IsSpace)) ==> CommentComes(s)
  {
    var n := Span(s, IsSpace);
    assert White(s[..n]) && Skip(s, IsSpace) == s[n..];
  }

  // ---------- comments

  /** The first line of a comment, and what follows it. */
  lemma BlockStep(x: char, c: string, br: string, after: string, blanks: bool)
    requires (x == ';' || x == '#') && OneLine(c) && Ends(br, after)
    ensures CommentBlock([x] + c + br + after, blanks) ==
      if br == "" then Block([x] + c, "")
      else var b := CommentTail(after, blanks); Block([x] + c + b.text, b.rest)
  {
    hide CommentTail, LineOf, SkipNewLine;
    LineBefore([x] + c, br, after);
    var s := [x] + c + br + after;
    assert s[0] == x;
    if br == "" { assert br + after == ""; } else { assert br + after != ""; }
  }

  lemma CommentAlone(x: char, c: string, br: string, rest: string, blanks: bool)
    requires (x == ';' || x == '#') && OneLine(c) && Ends(br, rest)
    requires if blanks then !CommentComes(rest) else !CommentAhead(rest)
    ensures CommentBlock([x] + c + br + rest, blanks) == Block([x] + c, rest)
  {
    hide CommentBlock, CommentTail, Skip, CommentComes;
    BlockStep(x, c, br, rest, blanks);
    BehindWhite(rest);
    if br != "" { NoCommentBehind(rest, blanks); }
    assert [x] + c + "" == [x] + c;
  }

  /** A comment goes on in the next line that starts with a comment character; white space in front of that one is
      dropped, up to its line breaks. */
  lemma CommentGoesOn(x: char, c: string, br: string, gap: string, u: string, blanks: bool)
    requires (x == ';' || x == '#') && OneLine(c) && Ends(br, gap + u) && br != ""
    requires White(gap) && (gap != "" ==> blanks) && CommentAhead(u)
    ensures CommentBlock([x] + c + br + (gap + u), blanks) ==
      var b := CommentBlock(u, blanks); Block([x] + c + "\n" + Feeds(NewLineCount(gap)) + b.text, b.rest)
  {
    hide CommentBlock, CommentTail, NewLineCount, Feeds, OneLine, Ends;
    BlockStep(x, c, br, gap + u, blanks);
    BehindGap(gap, u, blanks);
    var b := CommentBlock(u, blanks);
    Joined([x] + c, "\n" + Feeds(NewLineCount(gap)), b.text);
  }

  lemma Joined(a: string, b: string, c: string)
    ensures a + (b + c) == a + b + c
  {
  }

  /** Which line breaks those are. */
  lemma BreaksAre(blanks: string, br: string, rest: string)
    requires Blanks(blanks) && Ends(br, rest)
    ensures NewLineCount(blanks + br + rest) == if br == "" then 0 else 1 + NewLineCount(rest)
  {
    if blanks == "" {
      assert blanks + br + rest == br + rest;
    } else {
      BreaksAre(blanks[1..], br, rest);
      assert (blanks + br + rest)[1..] == blanks[1..] + br + rest;
    }
  }

  /** A line that starts with ';' or '#' is a comment. It is pending for what comes next, and has no other effect. */
  lemma CommentLine(x: char, c: string, br: string, rest: string, section: string, previous: Option<string>,
                    pending: Option<string>, o: Options)
    requires (x == ';' || x == '#') && OneLine(c) && Ends(br, rest)
    ensures var r := Next([x] + c + br + rest, section, previous, pending, o);
      && Bare(r) == Bare(Next(rest, section, previous, None, o))
      && (!CommentComes(rest) ==> r == Next(rest, section, previous, Some([x] + c), o))
  {
    hide CommentBlock, TurnAt, Bare, CommentComes;
    var s := [x] + c + br + rest;
    CommentTurn(s, section, previous, pending, o);
    if !CommentComes(rest) { CommentAlone(x, c, br, rest, true); }
    NextBare(s, section, previous, pending, None, o);
    CommentBare(s, section, previous, o);
    BlockLeaves(x, c, br, rest);
    TailBare(rest, section, previous, o);
  }

  lemma BlockLeaves(x: char, c: string, br: string, rest: string)
    requires (x == ';' || x == '#') && OneLine(c) && Ends(br, rest)
    ensures CommentBlock([x] + c + br + rest, true).rest == CommentTail(rest, true).rest
  {
    hide CommentBlock, CommentTail;
    BlockStep(x, c, br, rest, true);
    if br == "" { NoCommentBehind("", true); }
  }

  /** At the very front of a text it is the file comment. */
  lemma FileCommentLine(x: char, c: string, br: string, rest: string)
    requires (x == ';' || x == '#') && OneLine(c) && Ends(br, rest) && !CommentAhead(rest)
    ensures FileComment([x] + c + br + rest) == Some([x] + c) && Body([x] + c + br + rest) == rest
  {
    hide CommentBlock;
    CommentAlone(x, c, br, rest, false);
  }

  lemma NoFileComment(s: string)
    requires !CommentAhead(s)
    ensures FileComment(s) == None && Body(s) == s
  {
  }

  // ---------- headers

  /** White space in front of '[', around the name, and everything behind ']' in its line is dropped. */
  lemma HeaderLine(a: string, b: string, name: string, d: string, junk: string, e: string, section: string,
                   previous: Option<string>, pending: Option<string>, o: Options)
    requires White(a) && White(b) && Blanks(d) && (name == "" ==> d == "") && OneLine(junk) && LineEnd(e)
    requires OneLine(name) && Tight(name) && forall i :: 0 <= i < |name| ==> name[i] != ']'
    ensures Next(a + "[" + b + name + d + "]" + junk + e, section, previous, pending, o)
      == Found(Entry(name, None, None, pending), e)
  {
    hide Next, TurnAt, Span, TrimLen;
    var u := name + d + "]" + junk + e;
    var t := "[" + b + u;
    assert a + "[" + b + name + d + "]" + junk + e == a + t;
    NextSkipsSpace(a, t, section, previous, pending, o);
    HeaderTurn(b, u, section, previous, pending, o);
    HeaderRead(name, d, junk, e, pending);
  }

  lemma HeaderTurn(b: string, u: string, section: string, previous: Option<string>, pending: Option<string>, o: Options)
    requires White(b) && u != "" && NotWhite(u[0])
    ensures Next("[" + b + u, section, previous, pending, o) == HeaderStep(u, pending)
  {
    hide HeaderStep;
    var t := "[" + b + u;
    SpanIs(t, IsSpace, 0);
    WhiteSkipped(b, u);
    assert t[1..] == b + u;
  }

  lemma HeaderRead(name: string, d: string, junk: string, e: string, pending: Option<string>)
    requires Blanks(d) && OneLine(junk) && LineEnd(e)
    requires OneLine(name) && Tight(name) && (name == "" ==> d == "") && forall i :: 0 <= i < |name| ==> name[i] != ']'
    ensures HeaderStep(name + d + "]" + junk + e, pending) == Found(Entry(name, None, None, pending), e)
  {
    hide HeaderStep, Span, TrimLen, Tight, LineEnd, Blanks, OneLine;
    var u := name + d + "]" + junk + e;
    var tail := "]" + junk + e;
    Parted(name, d, junk, e);
    NameScanned(name, d, tail);
    NameTrimmed(name, d);
    JunkSkipped(junk, e);
    BracketAt(u, |name + d|, pending);
  }

  lemma Parted(name: string, d: string, junk: string, e: string)
    ensures var u, n := name + d + "]" + junk + e, |name + d|;
      u == (name + d) + ("]" + junk + e) && u[..n] == name + d && u[n + 1..] == junk + e && u[n] == ']'
  {
  }

  lemma BracketAt(u: string, n: nat, pending: Option<string>)
    requires n < |u| && Span(u, NameChar) == n && u[n] == ']'
    ensures HeaderStep(u, pending) == Found(Entry(TrimRight(u[..n]), None, None, pending), Skip(u[n + 1..], NotNewLine))
  {
    hide Span, Skip, TrimRight;
  }

  lemma NameScanned(name: string, d: string, tail: string)
    requires Blanks(d) && OneLine(name) && forall i :: 0 <= i < |name| ==> name[i] != ']'
    requires tail != "" && tail[0] == ']'
    ensures Span((name + d) + tail, NameChar) == |name + d|
  {
    ScanBlock(name + d, tail, NameChar);
  }

  /** Blanks behind a text are trimmed off. */
  lemma NameTrimmed(name: string, d: string)
    requires Blanks(d) && Tight(name) && OneLine(name) && (name == "" ==> d == "")
    ensures TrimRight(name + d) == name
  {
    TrimRightIs(name + d, |name|);
    assert (name + d)[..|name|] == name;
  }

  lemma JunkSkipped(junk: string, e: string)
    requires OneLine(junk) && LineEnd(e)
    ensures Skip(junk + e, NotNewLine) == e
  {
    ScanBlock(junk, e, NotNewLine);
  }

  /** A '[' without ']' in the line of its name. */
  lemma UnclosedHeader(a: string, b: string, name: string, e: string, section: string, previous: Option<string>,
                       pending: Option<string>, o: Options)
    requires White(a) && White(b) && LineEnd(e) && OneLine(name) && (name == "" ==> e == "")
    requires (name != "" ==> NotWhite(name[0])) && forall i :: 0 <= i < |name| ==> name[i] != ']'
    ensures Next(a + "[" + b + name + e, section, previous, pending, o) == Malformed
  {
    hide Next, TurnAt, Span, TrimLen;
    var u := name + e;
    var t := "[" + b + u;
    assert a + "[" + b + name + e == a + t;
    NextSkipsSpace(a, t, section, previous, pending, o);
    if name == "" { EmptyHeader(b, section, previous, pending, o); assert t == "[" + b; }
    else { HeaderTurn(b, u, section, previous, pending, o); NoBracket(name, e, pending); }
  }

  lemma NoBracket(name: string, e: string, pending: Option<string>)
    requires LineEnd(e) && OneLine(name) && forall i :: 0 <= i < |name| ==> name[i] != ']'
    ensures HeaderStep(name + e, pending) == Malformed
  {
    hide Span, TrimLen;
    ScanBlock(name, e, NameChar);
  }

  lemma EmptyHeader(b: string, section: string, previous: Option<string>, pending: Option<string>, o: Options)
    requires White(b)
    ensures Next("[" + b, section, previous, pending, o) == Malformed
  {
    var t := "[" + b;
    SpanIs(t, IsSpace, 0);
    WhiteSkipped(b, "");
    assert t[1..] == b && b + "" == b;
  }

  // ---------- keys

  /** A text that can stand in front of '='. */
  predicate KeyText(key: string) {
    && key != "" && OneLine(key) && Tight(key) && (forall i :: 0 <= i < |key| ==> key[i] != '=')
    && key[0] != ';' && key[0] != '#' && key[0] != '['
  }

  /** A text that stands for itself behind '='. */
  predicate PlainText(val: string, o: Options) {
    && OneLine(val) && Tight(val) && !(o.multiLine && "<<<" <= val)
    && !(o.quotes && |val| > 1 && val[0] == '"' && val[|val| - 1] == '"')
  }

  lemma KeyTurn(a: string, key: string, b: string, after: string, section: string, previous: Option<string>,
                pending: Option<string>, o: Options)
    requires White(a) && KeyText(key) && Blanks(b)
    ensures Next(a + key + b + "=" + after, section, previous, pending, o)
      == ValueStep(key, after, section, pending, o)
  {
    hide ValueStep, Span, TrimLen, Next;
    var t := key + b + "=" + after;
    assert a + key + b + "=" + after == a + t;
    NextSkipsSpace(a, t, section, previous, pending, o);
    KeyNext(key, b, after, section, previous, pending, o);
  }

  lemma KeyNext(key: string, b: string, after: string, section: string, previous: Option<string>,
                pending: Option<string>, o: Options)
    requires KeyText(key) && Blanks(b)
    ensures Next(key + b + "=" + after, section, previous, pending, o) == ValueStep(key, after, section, pending, o)
  {
    hide ValueStep, Span, TrimLen;
    var t := key + b + "=" + after;
    assert t[0] == key[0];
    SpanIs(t, IsSpace, 0);
    assert t == (key + b) + ("=" + after);
    ScanBlock(key + b, "=" + after, KeyChar);
    assert t[..|key + b|] == key + b && t[|key + b|..] == "=" + after && ("=" + after)[1..] == after;
    NameTrimmed(key, b);
  }

  lemma ValueRead(key: string, c: string, val: string, d: string, br: string, rest: string, section: string,
                  pending: Option<string>, o: Options)
    requires Blanks(c) && Blanks(d) && OneLine(val) && Tight(val) && (val == "" ==> d == "") && Ends(br, rest)
    ensures ValueStep(key, c + val + d + br + rest, section, pending, o)
      == ValueOf(val, rest, key, section, pending, o)
  {
    hide ValueOf, Span, TrimLen, SkipNewLine;
    var after := c + val + d + br + rest;
    var v := val + d + br + rest;
    assert after == c + v;
    if v != "" { FrontOfValue(val, d, br, rest); }
    ScanBlock(c, v, IsBlank);
    assert v == (val + d) + br + rest;
    LineBefore(val + d, br, rest);
    NameTrimmed(val, d);
  }

  lemma FrontOfValue(val: string, d: string, br: string, rest: string)
    requires OneLine(val) && Tight(val) && (val == "" ==> d == "") && Ends(br, rest) && val + d + br + rest != ""
    ensures !IsBlank((val + d + br + rest)[0])
  {
  }

  /** The line of a key with its value. White space in front of the key and blanks around '=' and behind the value are
      dropped. */
  lemma KeyLine(a: string, key: string, b: string, c: string, val: string, d: string, br: string, rest: string,
                section: string, previous: Option<string>, pending: Option<string>, o: Options)
    requires White(a) && KeyText(key) && Blanks(b) && Blanks(c) && Blanks(d) && (val == "" ==> d == "")
    requires PlainText(val, o) && Ends(br, rest)
    ensures Next(a + key + b + "=" + c + val + d + br + rest, section, previous, pending, o)
      == Found(Entry(section, Some(key), Some(val), pending), rest)
  {
    hide Next, ValueStep, KeyText, Tight;
    var after := c + val + d + br + rest;
    assert a + key + b + "=" + c + val + d + br + rest == a + key + b + "=" + after;
    KeyTurn(a, key, b, after, section, previous, pending, o);
    ValueRead(key, c, val, d, br, rest, section, pending, o);
  }

  /** With quotes on, the quotes around a value are taken off and the blanks in them are kept. */
  lemma QuotedLine(a: string, key: string, b: string, c: string, val: string, d: string, br: string, rest: string,
                   section: string, previous: Option<string>, pending: Option<string>, o: Options)
    requires White(a) && KeyText(key) && Blanks(b) && Blanks(c) && Blanks(d) && OneLine(val) && o.quotes
    requires Ends(br, rest)
    ensures Next(a + key + b + "=" + c + ("\"" + val + "\"") + d + br + rest, section, previous, pending, o)
      == Found(Entry(section, Some(key), Some(val), pending), rest)
  {
    hide Next, ValueStep, KeyText;
    var q := "\"" + val + "\"";
    var after := c + q + d + br + rest;
    assert a + key + b + "=" + c + q + d + br + rest == a + key + b + "=" + after;
    KeyTurn(a, key, b, after, section, previous, pending, o);
    ValueRead(key, c, q, d, br, rest, section, pending, o);
    assert q[1..|q| - 1] == val;
  }

  /** A line without '=' is passed over; with key-only on it is a key that takes the value of the entry before. */
  lemma KeyAlone(a: string, key: string, b: string, br: string, rest: string, section: string,
                 previous: Option<string>, pending: Option<string>, o: Options)
    requires White(a) && KeyText(key) && Blanks(b) && Ends(br, rest)
    ensures Next(a + key + b + br + rest, section, previous, pending, o) ==
      if o.keyOnly then Found(Entry(section, Some(key), previous, pending), rest)
      else Next(rest, section, previous, pending, o)
  {
    hide Next, Span, TrimLen;
    var t := key + b + br + rest;
    assert a + key + b + br + rest == a + t;
    NextSkipsSpace(a, t, section, previous, pending, o);
    AloneNext(key, b, br, rest, section, previous, pending, o);
    if br != "" { NextSkipsSpace(br, rest, section, previous, pending, o); } else { assert br + rest == rest; }
  }

  lemma AloneNext(key: string, b: string, br: string, rest: string, section: string, previous: Option<string>,
                  pending: Option<string>, o: Options)
    requires KeyText(key) && Blanks(b) && Ends(br, rest)
    ensures Next(key + b + br + rest, section, previous, pending, o) ==
      if o.keyOnly then Found(Entry(section, Some(key), previous, pending), rest)
      else Next(br + rest, section, previous, pending, o)
  {
    hide Span, TrimLen, SkipNewLine;
    var t := key + b + br + rest;
    assert t[0] == key[0];
    SpanIs(t, IsSpace, 0);
    assert t == (key + b) + (br + rest);
    ScanBlock(key + b, br + rest, KeyChar);
    assert t[..|key + b|] == key + b && t[|key + b|..] == br + rest;
    NameTrimmed(key, b);
    LineBefore(key + b, br, rest);
  }

  /** A line that starts with '=' is passed over. */
  lemma NoKeyLine(a: string, junk: string, e: string, section: string, previous: Option<string>,
                  pending: Option<string>, o: Options)
    requires White(a) && OneLine(junk) && LineEnd(e)
    ensures Next(a + "=" + junk + e, section, previous, pending, o) == Next(e, section, previous, pending, o)
  {
    hide Next, Span;
    var t := "=" + junk + e;
    assert a + "=" + junk + e == a + t;
    NextSkipsSpace(a, t, section, previous, pending, o);
    NoKeyNext(junk, e, section, previous, pending, o);
  }

  lemma NoKeyNext(junk: string, e: string, section: string, previous: Option<string>, pending: Option<string>,
                  o: Options)
    requires OneLine(junk) && LineEnd(e)
    ensures Next("=" + junk + e, section, previous, pending, o) == Next(e, section, previous, pending, o)
  {
    hide Span;
    var t := "=" + junk + e;
    SpanIs(t, IsSpace, 0);
    SpanIs(t, KeyChar, 0);
    assert t == ("=" + junk) + e;
    ScanBlock("=" + junk, e, NotNewLine);
  }

  /** White space alone holds no entry. */
  lemma NothingLeft(a: string, section: string, previous: Option<string>, pending: Option<string>, o: Options)
    requires White(a)
    ensures Next(a, section, previous, pending, o) == Finish
  {
    WhiteSkipped(a, "");
    assert a + "" == a;
  }

  // ---------- here-documents

  function Join(ls: seq<string>): string
    requires ls != []
  {
    if |ls| == 1 then ls[0] else ls[0] + "\n" + Join(ls[1..])
  }

  /** Every line followed by the same line break. */
  function Broken(ls: seq<string>, br: string): string {
    if ls == [] then "" else ls[0] + br + Broken(ls[1..], br)
  }

  /** Is this the line of the closing tag? Up to the case of letters it is the tag. As long as all line breaks were
      single characters, blanks behind it do not count, but for one in first place. */
  predicate Closing(line: string, tag: string, moved: bool) {
    if moved || line == "" then NoCase(line, tag)
    else
      exists n :: 1 <= n <= |line| && Blanks(line[n..]) && (n == 1 || (line[n - 1] != ' ' && line[n - 1] != '\t'))
                  && NoCase(line[..n], tag)
  }

  lemma ClosesIs(line: string, tag: string, moved: bool)
    requires OneLine(line)
    ensures ClosesHere(line, tag, moved) <==> Closing(line, tag, moved)
  {
    hide NoCase, Equiv, TrimLen;
    if moved || line == "" {
      EquivIsNoCase(line, tag);
    } else {
      var m := if TrimLen(line) == 0 then 1 else TrimLen(line);
      EquivIsNoCase(line[..m], tag);
      assert Blanks(line[m..]);
      forall n | 1 <= n <= |line| && Blanks(line[n..]) && (n == 1 || (line[n - 1] != ' ' && line[n - 1] != '\t'))
        ensures n == m
      {
        OnlyCore(line, n);
      }
    }
  }

  lemma OnlyCore(line: string, n: nat)
    requires OneLine(line) && 1 <= n <= |line| && Blanks(line[n..])
    requires n == 1 || (line[n - 1] != ' ' && line[n - 1] != '\t')
    ensures n == if TrimLen(line) == 0 then 1 else TrimLen(line)
  {
    hide TrimLen;
    var m := TrimLen(line);
    assert forall i :: n <= i < |line| ==> line[i] == line[n..][i - n];
    assert m <= n;
  }

  predicate TwoBreaks(br: string) { br == "\n" || br == "\r\n" }

  lemma HereStep(line: string, br: string, after: string, tag: string, moved: bool)
    requires OneLine(line) && Ends(br, after)
    ensures HereText(line + br + after, tag, moved) ==
      if Closing(line, tag, moved) then Here(None, after)
      else if br == "" then Here(Some(line), "")
      else
        var h := HereText(after, tag, moved || br == "\r\n");
        Here(Some(if h.text.None? then line else line + "\n" + h.text.value), h.rest)
  {
    hide ClosesHere, Closing, LineOf, SkipNewLine;
    LineBefore(line, br, after);
    ClosesIs(line, tag, moved);
  }

  /** Lines that do not close it are its text. */
  lemma {:induction false} HereLines(ls: seq<string>, br: string, tail: string, tag: string, moved: bool)
    requires TwoBreaks(br) && forall i :: 0 <= i < |ls| ==> OneLine(ls[i])
    requires forall i :: 0 <= i < |ls| ==> !Closing(ls[i], tag, moved || (i > 0 && br == "\r\n"))
    requires ls != []
    ensures HereText(Broken(ls, br) + tail, tag, moved) ==
      var h := HereText(tail, tag, moved || br == "\r\n");
      Here(Some(if h.text.None? then Join(ls) else Join(ls) + "\n" + h.text.value), h.rest)
    decreases |ls|
  {
    hide HereText, Closing;
    var more := ls[1..];
    var after := Broken(more, br) + tail;
    assert forall i :: 0 <= i < |more| ==> more[i] == ls[i + 1];
    HereStep(ls[0], br, after, tag, moved);
    assert Broken(ls, br) + tail == ls[0] + br + after;
    if more == [] {
      assert after == tail;
    } else {
      HereLines(more, br, tail, tag, moved || br == "\r\n");
      var h := HereText(tail, tag, moved || br == "\r\n");
      if h.text.Some? { Joined3(ls[0] + "\n", Join(more), "\n", h.text.value); }
    }
  }

  lemma Joined3(a: string, b: string, c: string, d: string)
    ensures a + (b + c + d) == a + b + c + d
  {
  }

  /** The lines of a here-document up to its closing tag, with single line feeds between them. */
  lemma HereDocument(ls: seq<string>, br: string, close: string, end: string, rest: string, tag: string)
    requires TwoBreaks(br) && Ends(end, rest) && OneLine(close) && forall i :: 0 <= i < |ls| ==> OneLine(ls[i])
    requires forall i :: 0 <= i < |ls| ==> !Closing(ls[i], tag, i > 0 && br == "\r\n")
    requires Closing(close, tag, ls != [] && br == "\r\n")
    ensures HereText(Broken(ls, br) + (close + end + rest), tag, false)
      == Here(if ls == [] then None else Some(Join(ls)), rest)
  {
    hide HereText, Closing, Ends;
    HereStep(close, end, rest, tag, ls != [] && br == "\r\n");
    if ls == [] {
      assert Broken(ls, br) + (close + end + rest) == close + end + rest;
    } else {
      HereLines(ls, br, close + end + rest, tag, false);
    }
  }

  /** Without a closing tag it holds all the remaining lines. */
  lemma HereToTheEnd(ls: seq<string>, br: string, last: string, tag: string)
    requires TwoBreaks(br) && OneLine(last) && forall i :: 0 <= i < |ls| ==> OneLine(ls[i])
    requires forall i :: 0 <= i < |ls| ==> !Closing(ls[i], tag, i > 0 && br == "\r\n")
    requires !Closing(last, tag, ls != [] && br == "\r\n")
    ensures HereText(Broken(ls, br) + last, tag, false) == Here(Some(Join(ls + [last])), "")
  {
    hide HereText, Closing;
    HereStep(last, "", "", tag, ls != [] && br == "\r\n");
    assert last + "" + "" == last;
    if ls == [] {
      assert Broken(ls, br) + last == last && ls + [last] == [last];
    } else {
      HereLines(ls, br, last, tag, false);
      JoinLast(ls, last);
    }
  }

  lemma {:induction false} JoinLast(ls: seq<string>, last: string)
    requires ls != []
    ensures Join(ls + [last]) == Join(ls) + "\n" + last
  {
    assert (ls + [last])[1..] == ls[1..] + [last];
    if |ls| > 1 {
      JoinLast(ls[1..], last);
      Joined3(ls[0] + "\n", Join(ls[1..]), "\n", last);
    }
  }

  /** The line of a key with a here-document: "<<<" and the tag stand behind '='. */
  lemma HereLine(a: string, key: string, b: string, c: string, tag: string, d: string, br: string, rest: string,
                 section: string, previous: Option<string>, pending: Option<string>, o: Options)
    requires White(a) && KeyText(key) && Blanks(b) && Blanks(c) && Blanks(d) && o.multiLine
    requires OneLine(tag) && Tight("<<<" + tag) && Ends(br, rest)
    ensures Next(a + key + b + "=" + c + ("<<<" + tag) + d + br + rest, section, previous, pending, o) ==
      var h := HereText(rest, tag, false);
      if h.text.None? then Malformed else Found(Entry(section, Some(key), h.text, pending), h.rest)
  {
    hide Next, ValueStep, KeyText, Tight, HereText;
    var val := "<<<" + tag;
    var after := c + val + d + br + rest;
    assert a + key + b + "=" + c + val + d + br + rest == a + key + b + "=" + after;
    KeyTurn(a, key, b, after, section, previous, pending, o);
    ValueRead(key, c, val, d, br, rest, section, pending, o);
    assert val[3..] == tag;
  }
}
