/** What the reader takes for a comment is a well-formed one, and what it leaves is a suffix. */
module IniComments {
  import opened IniText
  import opened IniGrammar
  import opened IniDocument

  predicate IsSuffix(r: string, s: string) { |r| <= |s| && r == s[|s| - |r|..] }

  lemma SuffixNoNul(r: string, s: string)
    requires IsSuffix(r, s) && NoNul(s)
    ensures NoNul(r)
  {
  }

  lemma SuffixTransitive(a: string, b: string, c: string)
    requires IsSuffix(a, b) && IsSuffix(b, c)
    ensures IsSuffix(a, c)
  {
  }

  lemma SkipIsSuffix(s: string, p: char -> bool)
    ensures IsSuffix(Skip(s, p), s)
  {
  }

  lemma AfterLineIsSuffix(s: string)
    ensures IsSuffix(s[|LineOf(s)|..], s)
    ensures var r := s[|LineOf(s)|..]; r != "" ==> IsSuffix(SkipNewLine(r), s)
    ensures (forall c :: c in LineOf(s) ==> NotNewLine(c)) && (NoNul(s) ==> NoNul(LineOf(s)))
    ensures s != "" && IsComment(s[0]) ==> LineOf(s) != "" && LineOf(s)[0] == s[0]
  {
  }

  lemma LineEnds(line: string, more: string)
    requires (forall c :: c in line ==> NotNewLine(c)) && more != "" && more[0] == '\n'
    ensures Span(line + more, NotLF) == |line|
  {
    forall c | c in line ensures NotLF(c) { assert NotNewLine(c); }
    ScanBlock(line, more, NotLF);
  }

  /** The first line of a comment joined with what follows it is a well-formed comment. */
  lemma JoinComment(line: string, k: nat, more: string, blanks: bool)
    requires line != "" && IsComment(line[0]) && NoNul(line) && (forall c :: c in line ==> NotNewLine(c))
    requires CommentOk(more, blanks) && (k > 0 ==> blanks)
    ensures CommentOk(line + ("\n" + Feeds(k) + more), blanks)
  {
    hide CommentOk, Span;
    var s := line + ("\n" + Feeds(k) + more);
    LineEnds(line, "\n" + Feeds(k) + more);
    assert s[|line| + 1..] == Feeds(k) + more;
    CommentFacts(more, blanks);
    if blanks { ScanBlock(Feeds(k), more, IsLF); }
    else { assert Feeds(k) + more == more; }
    assert NextLines(s, blanks) == more;
    assert s[0] == line[0];
    forall c | c in s ensures c != NUL && c != '\r' { }
    CommentOkIs(s, blanks);
  }

  lemma CommentFacts(c: string, blanks: bool)
    requires CommentOk(c, blanks)
    ensures c != "" && IsComment(c[0]) && NoNul(c) && '\r' !in c
  {
  }

  lemma CommentOkIs(s: string, blanks: bool)
    requires s != "" && IsComment(s[0]) && NoNul(s) && '\r' !in s
    requires Span(s, NotLF) < |s| && CommentOk(NextLines(s, blanks), blanks)
    ensures CommentOk(s, blanks)
  {
    hide NextLines, Span;
  }

  lemma OneLineComment(line: string, blanks: bool)
    requires line != "" && IsComment(line[0]) && NoNul(line) && (forall c :: c in line ==> NotNewLine(c))
    ensures CommentOk(line + "", blanks)
  {
    assert line + "" == line;
    assert forall i :: 0 <= i < |line| ==> NotNewLine(line[i]);
    SpanIs(line, NotLF, |line|);
  }

  /** What a comment tail yields: nothing, or a gap of k line feeds and a well-formed comment. */
  lemma {:induction false} TailOk(s: string, blanks: bool) returns (k: nat, more: string)
    requires NoNul(s)
    ensures var b := CommentTail(s, blanks);
      && IsSuffix(b.rest, s)
      && (b.text == "" || (b.text == "\n" + Feeds(k) + more && CommentOk(more, blanks) && (k > 0 ==> blanks)))
    decreases |s|, 1
  {
    hide CommentOk, NewLineCount, CommentBlock;
    var u := if blanks then Skip(s, IsSpace) else s;
    SkipIsSuffix(s, IsSpace);
    k, more := 0, "";
    if u != "" && IsComment(u[0]) {
      SuffixNoNul(u, s);
      k := NewLineCount(s[..|s| - |u|]);
      if !blanks { NoCount(s[..|s| - |u|]); }
      ReadCommentOk(u, blanks);
      more := CommentBlock(u, blanks).text;
      SuffixTransitive(CommentBlock(u, blanks).rest, u, s);
    }
  }

  lemma NoCount(s: string)
    requires s == ""
    ensures NewLineCount(s) == 0
  {
  }

  /** A comment that was read is a well-formed comment. */
  lemma {:induction false} ReadCommentOk(s: string, blanks: bool)
    requires s != "" && IsComment(s[0]) && NoNul(s)
    ensures CommentOk(CommentBlock(s, blanks).text, blanks) && IsSuffix(CommentBlock(s, blanks).rest, s)
    decreases |s|, 0
  {
    hide CommentOk, CommentTail, LineOf;
    var line := LineOf(s);
    var r := s[|line|..];
    AfterLineIsSuffix(s);
    OneLineComment(line, blanks);
    assert line + "" == line;
    if r != "" {
      var after := SkipNewLine(r);
      SuffixNoNul(after, s);
      var k, more := TailOk(after, blanks);
      var b := CommentTail(after, blanks);
      SuffixTransitive(b.rest, after, s);
      if b.text != "" { JoinComment(line, k, more, blanks); }
    }
  }
}
