/**
 * Reading back what was written, piece by piece: comments, here-documents, values,
 * key lines, section headers, and then a whole document.
 */
module IniReadBack {
  import opened Basics
  import opened IniText
  import opened IniOrder
  import opened IniGrammar
  import opened IniDocument

  // ---------- comments

  function Repeat(nl: string, k: nat): string { if k == 0 then "" else nl + Repeat(nl, k - 1) }

  lemma {:induction false} RepeatIsSpace(nl: string, k: nat)
    requires IsNewLineSpelling(nl)
    ensures forall c :: c in Repeat(nl, k) ==> IsSpace(c)
    ensures NewLineCount(Repeat(nl, k)) == k
  {
    if k > 0 {
      RepeatIsSpace(nl, k - 1);
      SkipNewLineSpelling(nl, Repeat(nl, k - 1));
    }
  }

  lemma LinesOfFeed(s: string, nl: string)
    requires s != "" && s[0] == '\n'
    ensures Lines(s, nl) == nl + Lines(s[1..], nl)
  {
    SpanIs(s, NotLF, 0);
    assert s[..0] + nl + Lines(s[1..], nl) == nl + Lines(s[1..], nl);
  }

  lemma {:induction false} LinesAfterFeeds(k: nat, u: string, nl: string)
    ensures Lines(Feeds(k) + u, nl) == Repeat(nl, k) + Lines(u, nl)
  {
    if k == 0 {
      assert Feeds(0) + u == u;
    } else {
      var s := Feeds(k) + u;
      var rest := Feeds(k - 1) + u;
      assert s[0] == '\n' && s[1..] == rest;
      LinesOfFeed(s, nl);
      LinesAfterFeeds(k - 1, u, nl);
      assert nl + (Repeat(nl, k - 1) + Lines(u, nl)) == nl + Repeat(nl, k - 1) + Lines(u, nl);
    }
  }

  /** A tail at which a comment stops. */
  predicate Stops(tail: string, blanks: bool) {
    var u := if blanks then Skip(tail, IsSpace) else tail;
    u == "" || !IsComment(u[0])
  }

  /** The printed lines after the first one. */
  function Later(s: string, nl: string): string {
    var n := Span(s, NotLF);
    if n == |s| then "" else Lines(s[n + 1..], nl)
  }

  /** The first line of a printed text, and what follows it. */
  lemma {:induction false} FirstLine(s: string, nl: string, tail: string)
    requires '\r' !in s
    requires IsNewLineSpelling(nl)
    ensures
      var n := Span(s, NotLF);
      var more := Later(s, nl) + tail;
      && LineOf(Lines(s, nl) + tail) == s[..n]
      && (Lines(s, nl) + tail)[n..] == nl + more
      && SkipNewLine(nl + more) == more
  {
    var n := Span(s, NotLF);
    var line := s[..n];
    var more := Later(s, nl) + tail;
    assert Lines(s, nl) == line + nl + Later(s, nl) by {
      assert n == |s| ==> line == s;
    }
    assert Lines(s, nl) + tail == line + nl + more;
    forall c | c in line ensures NotNewLine(c) {
      assert NotLF(c) && c in s;
    }
    LineThen(line, nl, more);
  }

  /** The first line of a comment. */
  lemma CommentStart(s: string, line: string, nl: string, more: string, blanks: bool)
    requires s != "" && IsComment(s[0])
    requires LineOf(s) == line && s[|line|..] == nl + more && IsNewLineSpelling(nl)
    ensures CommentBlock(s, blanks) ==
      var b := CommentTail(more, blanks);
      Block(line + b.text, b.rest)
  {
    hide CommentTail;
    SkipNewLineSpelling(nl, more);
  }

  /** One comment line behind a gap of white space. */
  lemma {:induction false} CommentLine(gap: string, u: string, line: string, nl: string, more: string, blanks: bool)
    requires (forall c :: c in gap ==> IsSpace(c)) && (gap != "" ==> blanks)
    requires u != "" && IsComment(u[0])
    requires LineOf(u) == line && u[|line|..] == nl + more && IsNewLineSpelling(nl)
    ensures CommentTail(gap + u, blanks) ==
      var b := CommentTail(more, blanks);
      Block("\n" + Feeds(NewLineCount(gap)) + line + b.text, b.rest)
  {
    hide CommentBlock, CommentTail, NewLineCount, Feeds, Span;
    var text := CommentTail(more, blanks).text;
    CommentStart(u, line, nl, more, blanks);
    BehindGap(gap, u, blanks);
    assert "\n" + Feeds(NewLineCount(gap)) + (line + text) == "\n" + Feeds(NewLineCount(gap)) + line + text;
  }

  lemma StopsThere(tail: string, blanks: bool)
    requires Stops(tail, blanks)
    ensures CommentTail(tail, blanks) == Block("", tail)
  {
  }

  /** The first line of a printed comment text behind k blank lines. */
  lemma {:induction false} CommentFirstLine(u: string, k: nat, tail: string, blanks: bool, nl: string)
    requires u != "" && IsComment(u[0]) && '\r' !in u
    requires IsNewLineSpelling(nl) && (k > 0 ==> blanks)
    ensures CommentTail(Repeat(nl, k) + Lines(u, nl) + tail, blanks) ==
      var b := CommentTail(Later(u, nl) + tail, blanks);
      Block("\n" + Feeds(k) + u[..Span(u, NotLF)] + b.text, b.rest)
  {
    hide *;
    var body := Lines(u, nl) + tail;
    var n := Span(u, NotLF);
    FirstLine(u, nl, tail);
    RepeatIsSpace(nl, k);
    FirstIsComment(u);
    LineOfIsPrefix(body);
    assert body[0] == body[..n][0] == u[0];
    NoRepeat(nl, k);
    CommentLine(Repeat(nl, k), body, u[..n], nl, Later(u, nl) + tail, blanks);
    assert Repeat(nl, k) + Lines(u, nl) + tail == Repeat(nl, k) + body;
  }

  lemma NoRepeat(nl: string, k: nat)
    ensures k == 0 ==> Repeat(nl, k) == ""
  {
  }

  lemma FeedsInFront(rest: string, k: nat)
    requires k <= |rest| && forall i :: 0 <= i < k ==> IsLF(rest[i])
    ensures rest == Feeds(k) + rest[k..]
  {
  }

  lemma LineFeedFirst(s: string, rest: string, same: string)
    requires s != "" && s[0] == '\n' && s[1..] == rest && rest == same
    ensures s == "\n" + same
  {
  }

  /** After the first line of a comment: a line feed, k more of them, and the next line. */
  lemma NextLinesShape(u: string, blanks: bool) returns (k: nat)
    requires Span(u, NotLF) < |u|
    ensures var u2 := NextLines(u, blanks);
      && |u2| < |u| && (k > 0 ==> blanks)
      && u[Span(u, NotLF)..] == "\n" + Feeds(k) + u2
      && u[Span(u, NotLF) + 1..] == Feeds(k) + u2
  {
    hide Span, Feeds;
    var n := Span(u, NotLF);
    var rest := u[n + 1..];
    assert !NotLF(u[n]);
    k := if blanks then Span(rest, IsLF) else 0;
    FeedsInFront(rest, k);
    LineFeedFirst(u[n..], rest, Feeds(k) + rest[k..]);
  }

  /** A well-formed comment: its first line, then nothing or k blank lines and a shorter comment. */
  lemma {:induction false} CommentParts(u: string, blanks: bool) returns (u2: string, k: nat)
    requires CommentOk(u, blanks)
    ensures u != "" && IsComment(u[0]) && '\r' !in u
    ensures Span(u, NotLF) < |u| ==>
      && CommentOk(u2, blanks) && |u2| < |u| && (k > 0 ==> blanks)
      && u[Span(u, NotLF)..] == "\n" + Feeds(k) + u2
      && u[Span(u, NotLF) + 1..] == Feeds(k) + u2
  {
    hide NextLines, Span, Feeds;
    u2, k := "", 0;
    if Span(u, NotLF) < |u| {
      k := NextLinesShape(u, blanks);
      u2 := NextLines(u, blanks);
    }
  }

  lemma LaterIs(u: string, nl: string)
    ensures Span(u, NotLF) == |u| ==> Later(u, nl) == ""
    ensures Span(u, NotLF) < |u| ==> Later(u, nl) == Lines(u[Span(u, NotLF) + 1..], nl)
    ensures Span(u, NotLF) < |u| ==> u[Span(u, NotLF)] == '\n'
  {
  }

  /** The next comment line after k blank ones, by induction on the comment text. */
  lemma {:induction false} ReadCommentTail(u: string, k: nat, tail: string, blanks: bool, nl: string)
    requires CommentOk(u, blanks) && Stops(tail, blanks)
    requires IsNewLineSpelling(nl) && (k > 0 ==> blanks)
    ensures CommentTail(Repeat(nl, k) + Lines(u, nl) + tail, blanks) == Block("\n" + Feeds(k) + u, tail)
    decreases |u|, 1
  {
    hide *;
    var n := Span(u, NotLF);
    var _, _ := CommentParts(u, blanks);
    CommentFirstLine(u, k, tail, blanks, nl);
    LaterIs(u, nl);
    if n == |u| {
      assert Later(u, nl) + tail == tail;
      StopsThere(tail, blanks);
      assert u[..n] + "" == u;
    } else {
      ReadMoreComment(u, tail, blanks, nl);
      assert "\n" + Feeds(k) + u[..n] + u[n..] == "\n" + Feeds(k) + u;
    }
  }

  /** The lines of a comment after its first one. */
  lemma {:induction false} ReadMoreComment(u: string, tail: string, blanks: bool, nl: string)
    requires CommentOk(u, blanks) && Stops(tail, blanks) && IsNewLineSpelling(nl)
    requires Span(u, NotLF) < |u|
    ensures
      var n := Span(u, NotLF);
      CommentTail(Lines(u[n + 1..], nl) + tail, blanks) == Block(u[n..], tail)
    decreases |u|, 0
  {
    hide *;
    var u2, k := CommentParts(u, blanks);
    LinesAfterFeeds(k, u2, nl);
    ReadCommentTail(u2, k, tail, blanks, nl);
  }

  /** A printed comment is read back as it was, and reading stops right behind it. */
  lemma ReadComment(c: string, tail: string, blanks: bool, nl: string)
    requires CommentOk(c, blanks) && Stops(tail, blanks) && IsNewLineSpelling(nl)
    ensures c != "" && IsComment(c[0])
    ensures var s := Lines(c, nl) + tail;
      s != "" && s[0] == c[0] && CommentBlock(s, blanks) == Block(c, tail)
  {
    hide *;
    var _, _ := CommentParts(c, blanks);
    FirstLine(c, nl, tail);
    LaterIs(c, nl);
    var n := Span(c, NotLF);
    var s := Lines(c, nl) + tail;
    FirstIsComment(c);
    assert s[0] == s[..n][0] == c[0] by { LineOfIsPrefix(s); }
    CommentStart(s, c[..n], nl, Later(c, nl) + tail, blanks);
    if n == |c| {
      assert c[..n] == c && Later(c, nl) + tail == tail;
      StopsThere(tail, blanks);
      assert c + "" == c;
    } else {
      ReadMoreComment(c, tail, blanks, nl);
      assert c == c[..n] + c[n..];
    }
  }

  /** A printed comment is passed over together with what it draws in behind it. */
  lemma {:induction false} PassCommentTail(u: string, k: nat, tail: string, nl: string)
    requires CommentOk(u, true) && IsNewLineSpelling(nl)
    ensures CommentTail(Repeat(nl, k) + Lines(u, nl) + tail, true).rest == CommentTail(tail, true).rest
    decreases |u|
  {
    hide *;
    var n := Span(u, NotLF);
    var u2, j := CommentParts(u, true);
    CommentFirstLine(u, k, tail, true, nl);
    LaterIs(u, nl);
    if n == |u| {
      assert Later(u, nl) + tail == tail;
    } else {
      LinesAfterFeeds(j, u2, nl);
      PassCommentTail(u2, j, tail, nl);
    }
  }

  lemma PassComment(c: string, tail: string, nl: string)
    requires CommentOk(c, true) && IsNewLineSpelling(nl)
    ensures var s := Lines(c, nl) + tail;
      s != "" && IsComment(s[0]) && CommentBlock(s, true).rest == CommentTail(tail, true).rest
  {
    hide *;
    var s := Lines(c, nl) + tail;
    var _, _ := CommentParts(c, true);
    FirstLine(c, nl, tail);
    LaterIs(c, nl);
    LineOfIsPrefix(s);
    FirstIsComment(c);
    assert s[0] == s[..Span(c, NotLF)][0] == c[0];
    PassCommentTail(c, 0, tail, nl);
    NoRepeat(nl, 0);
    assert "" + Lines(c, nl) + tail == s && "" + s == s;
    BehindGap("", s, true);
  }

  lemma FirstIsComment(c: string)
    requires c != "" && IsComment(c[0])
    ensures Span(c, NotLF) > 0
  {
  }

  lemma LineOfIsPrefix(s: string)
    ensures LineOf(s) <= s
  {
  }

  // ---------- here-documents

  lemma TagClosesItself(moved: bool)
    ensures ClosesHere(TAG, TAG, moved)
  {
    LessIrreflexive(TAG);
    assert TAG[|TAG| - 1] == 'T' && TrimLen(TAG) == |TAG|;
    assert TagText(TAG) == TAG;
  }

  lemma TagLineCloses(moved: bool, nl: string, tail: string)
    requires IsNewLineSpelling(nl)
    ensures HereText(TAG + nl + tail, TAG, moved) == Here(None, tail)
  {
    hide ClosesHere;
    LineThen(TAG, nl, tail);
    TagClosesItself(moved);
  }

  /** One line of a here-document that is not its tag. */
  lemma {:induction false} HereLine(s: string, line: string, nl: string, more: string, tag: string, moved: bool)
    requires LineOf(s) == line && s[|line|..] == nl + more && IsNewLineSpelling(nl)
    requires !ClosesHere(line, tag, moved)
    ensures HereText(s, tag, moved) ==
      var h := HereText(more, tag, moved || |nl| == 2);
      Here(Some(if h.text.None? then line else line + "\n" + h.text.value), h.rest)
  {
    hide ClosesHere;
    SkipNewLineSpelling(nl, more);
  }

  lemma {:induction false} NoTagParts(v: string, moved: bool, nl: string)
    requires NoTagLine(v, moved, nl)
    ensures !ClosesHere(v[..Span(v, NotLF)], TAG, moved)
    ensures Span(v, NotLF) < |v| ==> NoTagLine(v[Span(v, NotLF) + 1..], moved || |nl| == 2, nl)
  {
    hide ClosesHere;
  }

  /** Any text without "\r" and without a tag line survives as a here-document. */
  lemma {:induction false} ReadHere(v: string, moved: bool, nl: string, tail: string)
    requires '\r' !in v && NoTagLine(v, moved, nl) && IsNewLineSpelling(nl)
    ensures HereText(Lines(v, nl) + (TAG + nl + tail), TAG, moved) == Here(Some(v), tail)
    decreases |v|
  {
    hide *;
    var end := TAG + nl + tail;
    var n := Span(v, NotLF);
    var moved' := moved || |nl| == 2;
    FirstLine(v, nl, end);
    LaterIs(v, nl);
    NoTagParts(v, moved, nl);
    HereLine(Lines(v, nl) + end, v[..n], nl, Later(v, nl) + end, TAG, moved);
    if n == |v| {
      assert v[..n] == v && Later(v, nl) + end == end;
      TagLineCloses(moved', nl, tail);
    } else {
      ReadHere(v[n + 1..], moved', nl, tail);
      assert v[n] == '\n';
      assert v == v[..n] + "\n" + v[n + 1..];
    }
  }
}
