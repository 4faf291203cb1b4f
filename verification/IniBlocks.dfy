/**
 * LoadMultiLineText: comments and here-documents are normalised in place. Lines move down over
 * the line breaks that shrink, while the text behind the cursor stays as it is. The source has one
 * routine whose tag pointer selects the mode; here each mode is a method.
 */
module IniBlocks {
  import opened Basics
  import opened IniText
  import opened IniGrammar
  import opened IniComments
  import opened IniDocument
  import opened IniScan

  // ---------- the grammar at positions of a text

  /** One line of a comment at position p: it ends at q, and the next one starts at r. */
  lemma BlockStep(t: seq<char>, p: int, q: int, r: int, e: int, blanks: bool)
    requires 0 <= p <= q <= e <= |t| && p < e && IsComment(t[p])
    requires q == p + Span(t[p..e], NotNewLine)
    requires q < e ==> q <= r <= e && t[r..e] == SkipNewLine(t[q..e])
    ensures q == e ==> CommentBlock(t[p..e], blanks) == Block(t[p..e], "")
    ensures q < e ==>
      CommentBlock(t[p..e], blanks)
        == Block(t[p..q] + CommentTail(t[r..e], blanks).text, CommentTail(t[r..e], blanks).rest)
  {
    hide CommentTail;
    var s := t[p..e];
    assert LineOf(s) == t[p..q];
    assert s[|t[p..q]|..] == t[q..e];
  }

  /** The comment goes on at position u, behind white space that starts at p. */
  lemma TailAt(t: seq<char>, p: int, u: int, e: int, blanks: bool)
    requires 0 <= p <= u < e <= |t| && IsComment(t[u])
    requires if blanks then u == p + Span(t[p..e], IsSpace) else u == p
    ensures CommentTail(t[p..e], blanks) ==
      var b := CommentBlock(t[u..e], blanks);
      Block("\n" + Feeds(NewLineCount(t[p..u])) + b.text, b.rest)
  {
    hide CommentBlock, CommentTail, NewLineCount, Feeds, Span;
    var gap, rest := t[p..u], t[u..e];
    SplitAt(t, p, u, e);
    forall c | c in gap ensures IsSpace(c) {
      var i :| 0 <= i < |gap| && gap[i] == c;
      assert t[p..e][i] == gap[i];
    }
    BehindGap(gap, rest, blanks);
  }

  lemma SplitAt(t: seq<char>, p: int, u: int, e: int)
    requires 0 <= p <= u <= e <= |t|
    ensures t[p..e] == t[p..u] + t[u..e] && t[p..e][u - p..] == t[u..e]
  {
  }

  lemma TailEnds(t: seq<char>, p: int, e: int, blanks: bool)
    requires 0 <= p <= e <= |t|
    requires var u := if blanks then p + Span(t[p..e], IsSpace) else p;
      u < e ==> !IsComment(t[u])
    ensures CommentTail(t[p..e], blanks) == Block("", t[p..e])
  {
    hide CommentTail, Span;
    var u := if blanks then p + Span(t[p..e], IsSpace) else p;
    SplitAt(t, p, u, e);
    NoCommentBehind(t[p..e], blanks);
  }

  lemma SpanZero(t: seq<char>, p: int, e: int)
    requires 0 <= p < e <= |t| && !IsSpace(t[p])
    ensures Span(t[p..e], IsSpace) == 0 && NewLineCount(t[p..p]) == 0
  {
  }

  // ---------- one line

  /** The line break at q is passed over; the line that now ends at w gets a single line feed. */
  method EndLine(buf: array<char>, w: nat, q0: nat, eol: char, ghost t: seq<char>, ghost e: nat) returns (q: nat)
    requires w <= q0 < e && Unread(t, q0, e) && |t| == buf.Length && eol == t[q0]
    requires forall i :: q0 < i <= e ==> buf[i] == t[i]
    modifies buf
    ensures q0 < q <= e && q <= q0 + 2 && buf[w] == '\n' && t[q..e] == SkipNewLine(t[q0..e])
    ensures forall i :: q <= i < |t| ==> buf[i] == old(buf[i])
    ensures forall i :: 0 <= i < w ==> buf[i] == old(buf[i])
  {
    buf[q0] := eol;
    assert buf[q0..e] == t[q0..e];
    assert Unread(buf[..], q0, e);
    q := SkipBreak(buf, q0, e);
    assert buf[q..e] == t[q..e];
    buf[w] := '\n';
  }

  /** The line from c up to q is moved down to w, and closed both there and at q. */
  method MoveClosed(buf: array<char>, w: nat, c: nat, q: nat)
    requires w <= c <= q < buf.Length
    modifies buf
    ensures buf[w..w + (q - c)] == old(buf[c..q]) && buf[w + (q - c)] == NUL && buf[q] == NUL
    ensures forall i :: 0 <= i < buf.Length && (i < w || q < i) ==> buf[i] == old(buf[i])
  {
    ghost var line := buf[c..q];
    MoveLine(buf, w, c, q);
    assert buf[w..w + |line|] == line;
    buf[q] := NUL;
    assert buf[w..w + |line|] == line;
  }

  /** The line at c is copied down to w and ended by one line feed; q is where the next one starts.
      At the end of the data it is ended by the NUL instead. */
  method CopyLine(buf: array<char>, w: nat, c: nat, ghost e: nat) returns (w2: nat, q: nat, more: bool)
    requires Unread(buf[..], c, e) && w <= c
    modifies buf
    ensures AgreeOutside(old(buf[..]), buf[..], w, q) && c <= q <= e
    ensures
      var n := Span(old(buf[c..e]), NotNewLine);
      && (more <==> c + n < e)
      && buf[w..w + n] == old(buf[c..c + n])
      && (!more ==> q == e && buf[w + n] == NUL)
      && (more ==> w2 == w + n + 1 <= q && c + n < q && buf[w + n] == '\n')
      && (more ==> old(buf[q..e]) == SkipNewLine(old(buf[c + n..e])))
  {
    hide Span, SkipNewLine;
    ghost var t := buf[..];
    assert t[c..e] == buf[c..e];
    q := ScanWhile(buf, c, NotNewLine, e);
    var n := q - c;
    var eol := buf[q];
    ghost var line := t[c..c + n];
    MoveClosed(buf, w, c, q);
    w2 := w;
    more := eol != NUL;
    if more {
      q := EndLine(buf, w + n, q, eol, t, e);
      w2 := w + n + 1;
      assert buf[w..w + n] == line;
    }
    assert line == old(buf[c..c + n]);
  }

  // ---------- comments

  /** The comment that starts at p0, when what was read up to p is already normalised in out. */
  ghost predicate CommentSoFar(t: seq<char>, p0: int, p: int, e: int, blanks: bool, out: string)
    requires 0 <= p0 <= p < e <= |t| && IsComment(t[p0]) && IsComment(t[p])
  {
    CommentBlock(t[p0..e], blanks)
      == Block(out + CommentBlock(t[p..e], blanks).text, CommentBlock(t[p..e], blanks).rest)
  }

  /** The same behind a line, whose line feed is not yet in out. */
  ghost predicate CommentLineDone(t: seq<char>, p0: int, p: int, e: int, blanks: bool, out: string)
    requires 0 <= p0 < p <= e <= |t| && IsComment(t[p0])
  {
    CommentBlock(t[p0..e], blanks)
      == Block(out + CommentTail(t[p..e], blanks).text, CommentTail(t[p..e], blanks).rest)
  }

  lemma AppendAssoc(a: string, b: string, c: string)
    ensures a + (b + c) == a + b + c
  {
  }

  /** From one line to the next, over white space that ends at u. */
  lemma CommentGoesOn(t: seq<char>, p0: int, p: int, u: int, e: int, blanks: bool, out: string)
    requires 0 <= p0 < p <= u < e <= |t| && IsComment(t[p0]) && IsComment(t[u])
    requires if blanks then u == p + Span(t[p..e], IsSpace) else u == p
    requires CommentLineDone(t, p0, p, e, blanks, out)
    ensures CommentSoFar(t, p0, u, e, blanks, out + "\n" + Feeds(NewLineCount(t[p..u])))
  {
    hide CommentBlock, CommentTail;
    TailAt(t, p, u, e, blanks);
    var more := CommentBlock(t[u..e], blanks).text;
    var gap := Feeds(NewLineCount(t[p..u]));
    assert out + ("\n" + gap + more) == out + "\n" + gap + more;
  }

  /** Over one line, from p to its end q; the next line starts at r. */
  lemma CommentLineCopied(t: seq<char>, p0: int, p: int, q: int, r: int, e: int, blanks: bool, out: string)
    requires 0 <= p0 <= p <= q <= e <= |t| && p < e && IsComment(t[p0]) && IsComment(t[p])
    requires q == p + Span(t[p..e], NotNewLine)
    requires q < e ==> q < r <= e && t[r..e] == SkipNewLine(t[q..e])
    requires CommentSoFar(t, p0, p, e, blanks, out)
    ensures q == e ==> CommentBlock(t[p0..e], blanks) == Block(out + t[p..e], "")
    ensures q < e ==> CommentLineDone(t, p0, r, e, blanks, out + t[p..q])
  {
    hide CommentBlock, CommentTail, Span, SkipNewLine;
    BlockStep(t, p, q, r, e, blanks);
    if q < e { AppendAssoc(out, t[p..q], CommentTail(t[r..e], blanks).text); }
  }

  lemma CommentBegins(t: seq<char>, p0: int, e: int, blanks: bool)
    requires 0 <= p0 < e <= |t| && IsComment(t[p0])
    ensures CommentSoFar(t, p0, p0, e, blanks, "")
  {
    hide CommentBlock;
    var b := CommentBlock(t[p0..e], blanks);
    assert "" + b.text == b.text;
  }

  /** No comment line follows the position p. */
  ghost predicate NoneFollows(t: seq<char>, p: int, e: int, blanks: bool)
    requires 0 <= p <= e <= |t|
  {
    var u := if blanks then p + Span(t[p..e], IsSpace) else p;
    u < e ==> !IsComment(t[u])
  }

  /** The comment ends where no comment line follows. */
  lemma CommentEndsAt(t: seq<char>, p0: int, p: int, e: int, blanks: bool, out: string)
    requires 0 <= p0 < p <= e <= |t| && IsComment(t[p0])
    requires NoneFollows(t, p, e, blanks) && CommentLineDone(t, p0, p, e, blanks, out)
    ensures CommentBlock(t[p0..e], blanks) == Block(out, t[p..e])
  {
    hide CommentBlock, CommentTail, Span;
    TailEnds(t, p, e, blanks);
    assert out + "" == out;
  }

  lemma TextNoNul(t: seq<char>, p0: int, e: int, blanks: bool)
    requires Unread(t, p0, e) && IsComment(t[p0])
    ensures p0 < e && NUL !in CommentBlock(t[p0..e], blanks).text
  {
    hide CommentBlock, CommentOk;
    assert NoNul(t[p0..e]);
    ReadCommentOk(t[p0..e], blanks);
    CommentFacts(CommentBlock(t[p0..e], blanks).text, blanks);
  }

  /** From the line feed written at w - 1 over further ones to the next comment line at c. */
  lemma GapWritten(t: seq<char>, p0: int, p: int, c: int, e: int, blanks: bool, before: string, after: string)
    requires 0 <= p0 < p <= c < e <= |t| && IsComment(t[p0]) && IsComment(t[c])
    requires if blanks then c == p + Span(t[p..e], IsSpace) else c == p
    requires before != "" && before[|before| - 1] == '\n'
    requires CommentLineDone(t, p0, p, e, blanks, before[..|before| - 1])
    requires after == before + Feeds(NewLineCount(t[p..c]))
    ensures CommentSoFar(t, p0, c, e, blanks, after)
  {
    hide CommentBlock, CommentTail, Span, NewLineCount, CommentSoFar, CommentLineDone;
    CommentGoesOn(t, p0, p, c, e, blanks, before[..|before| - 1]);
    assert before == before[..|before| - 1] + "\n";
  }

  /** What holds between two lines of a comment, with w where the next line will go and p where reading
      goes on: the text between p0 and w is normalised, the text from p on is as it was. */
  ghost predicate CommentState(b: seq<char>, t: seq<char>, p0: int, w: int, p: int, e: int, blanks: bool) {
    && 0 <= p0 <= w <= p <= e < |t| && AgreeOutside(t, b, p0, p)
    && (w == p0 ==> p == p0)
    && (p0 < w ==> IsComment(t[p0]) && b[w - 1] == '\n' && CommentLineDone(t, p0, p, e, blanks, b[p0..w - 1]))
  }

  /** The next line is a comment line already. */
  lemma LineFollows(b: seq<char>, t: seq<char>, p0: int, w: int, p: int, e: int, blanks: bool)
    requires CommentState(b, t, p0, w, p, e, blanks) && p < e && IsComment(t[p])
    ensures IsComment(t[p0]) && CommentSoFar(t, p0, p, e, blanks, b[p0..w])
  {
    hide CommentBlock, CommentTail, Span, NewLineCount, CommentSoFar, CommentLineDone;
    SpanZero(t, p, e);
    NoFeeds();
    var before := b[p0..w];
    if p == p0 {
      CommentBegins(t, p0, e, blanks);
    } else {
      assert before[..|before| - 1] == b[p0..w - 1];
      assert before + "" == before && t[p..p] == "";
      GapWritten(t, p0, p, p, e, blanks, before, before);
    }
  }

  /** The next comment line follows behind a gap, whose line feeds have been written up to w2. */
  lemma GapFollows(b: seq<char>, b2: seq<char>, t: seq<char>, p0: int, w: int, w2: int, p: int, c: int, e: int)
    requires CommentState(b, t, p0, w, p, e, true) && p0 < w && p <= c < e && IsComment(t[c])
    requires c == p + Span(t[p..e], IsSpace) && w <= w2 <= |b2|
    requires b2[p0..w] == b[p0..w] && b2[w..w2] == Feeds(NewLineCount(t[p..c]))
    ensures CommentSoFar(t, p0, c, e, true, b2[p0..w2])
  {
    hide CommentBlock, CommentTail, Span, NewLineCount, CommentSoFar, CommentLineDone;
    var before := b[p0..w];
    assert before[..|before| - 1] == b[p0..w - 1];
    assert b2[p0..w2] == before + b2[w..w2];
    GapWritten(t, p0, p, c, e, true, before, b2[p0..w2]);
  }

  /** Is there a further comment line, at c? If so the blank lines before it are written down. */
  method NextCommentLine(buf: array<char>, p0: nat, w: nat, p: nat, blanks: bool, ghost t: seq<char>, ghost e: nat)
    returns (w2: nat, c: nat, found: bool)
    requires Unread(t, p0, e) && CommentState(buf[..], t, p0, w, p, e, blanks) && (blanks ==> IsComment(t[p0]))
    modifies buf
    ensures found ==> p <= c < e && w <= w2 <= c && IsComment(t[p0]) && IsComment(t[c])
    ensures found ==> AgreeOutside(t, buf[..], p0, c) && CommentSoFar(t, p0, c, e, blanks, buf[p0..w2])
    ensures !found ==> buf[..] == old(buf[..]) && NoneFollows(t, p, e, blanks)
  {
    hide CommentBlock, CommentTail, Span, NewLineCount, CommentSoFar, CommentLineDone;
    ghost var b := buf[..];
    assert t[p..e] == b[p..e] == buf[p..e];
    w2, c, found := w, p, true;
    if IsComment(buf[p]) {
      LineFollows(b, t, p0, w, p, e, blanks);
      return;
    }
    if !blanks {
      found := false;
      return;
    }
    var breaks;
    c, breaks := LookAhead(buf, p, e);
    found := IsComment(buf[c]);
    if found {
      assert t[p..c] == buf[p..c];
      w2 := WriteFeeds(buf, w, breaks);
      GapFollows(b, buf[..], t, p0, w, w2, p, c, e);
    }
  }

  /** A line copied behind what was normalised so far. */
  lemma LineCopied(b: seq<char>, b2: seq<char>, t: seq<char>, p0: int, w: int, c: int, n: int, q: int, e: int,
                   blanks: bool)
    requires Unread(t, p0, e) && p0 <= w <= c < e && IsComment(t[p0]) && IsComment(t[c])
    requires AgreeOutside(t, b, p0, c) && CommentSoFar(t, p0, c, e, blanks, b[p0..w])
    requires AgreeOutside(b, b2, w, q) && c <= q <= e && n == Span(t[c..e], NotNewLine)
    requires b2[w..w + n] == b[c..c + n]
    requires c + n < e ==> c + n < q && w + n + 1 <= q && b2[w + n] == '\n' && b[q..e] == SkipNewLine(b[c + n..e])
    requires c + n == e ==> b2[w + n] == NUL && q == e
    ensures AgreeOutside(t, b2, p0, q)
    ensures c + n < e ==> CommentState(b2, t, p0, w + n + 1, q, e, blanks)
    ensures c + n == e ==> CommentBlock(t[p0..e], blanks) == Block(b2[p0..w + n], "")
  {
    hide CommentBlock, CommentTail, Span, SkipNewLine, CommentSoFar, CommentLineDone;
    var out := b[p0..w];
    assert b[c..e] == t[c..e] && b[c + n..e] == t[c + n..e] && b[q..e] == t[q..e] && b[c..c + n] == t[c..c + n];
    CommentLineCopied(t, p0, c, c + n, q, e, blanks, out);
    assert b2[p0..w + n] == out + t[c..c + n];
  }

  /** The comment line at c is copied down to w. */
  method CopyCommentLine(buf: array<char>, p0: nat, w: nat, c: nat, blanks: bool, ghost t: seq<char>, ghost e: nat)
    returns (w2: nat, q: nat, more: bool)
    requires Unread(t, p0, e) && p0 <= w <= c < e && IsComment(t[p0]) && IsComment(t[c])
    requires AgreeOutside(t, buf[..], p0, c) && CommentSoFar(t, p0, c, e, blanks, buf[p0..w])
    modifies buf
    ensures AgreeOutside(t, buf[..], p0, q) && c < q <= e
    ensures more ==> p0 < w2 && CommentState(buf[..], t, p0, w2, q, e, blanks)
    ensures !more ==> q == e && CommentBlock(t[p0..e], blanks).rest == ""
    ensures !more ==> IsCStr(buf[..], p0, CommentBlock(t[p0..e], blanks).text)
    ensures !more ==> p0 + |CommentBlock(t[p0..e], blanks).text| <= e
  {
    hide CommentBlock, CommentTail, Span, SkipNewLine, CommentSoFar, CommentLineDone, CommentState;
    ghost var b := buf[..];
    ghost var n := Span(t[c..e], NotNewLine);
    assert t[c..e] == b[c..e] == buf[c..e];
    SpanBound(t, c, e);
    w2, q, more := CopyLine(buf, w, c, e);
    LineCopied(b, buf[..], t, p0, w, c, n, q, e, blanks);
    if !more { TextNoNul(t, p0, e, blanks); }
  }

  lemma SpanBound(t: seq<char>, c: int, e: int)
    requires 0 <= c < e <= |t| && IsComment(t[c])
    ensures 0 < Span(t[c..e], NotNewLine) <= e - c
  {
  }

  /** A comment in the text to be read: lines that start with a comment character, blank lines between
      them if allowed. It is normalised in place and the cursor p ends behind it. */
  method LoadComment(buf: array<char>, p0: nat, blanks: bool, ghost e: nat) returns (p: nat, val: Option<nat>)
    requires Unread(buf[..], p0, e) && (blanks ==> IsComment(buf[p0]))
    modifies buf
    ensures AgreeOutside(old(buf[..]), buf[..], p0, p) && p0 <= p <= e
    ensures val == if IsComment(old(buf[p0])) then Some(p0) else None
    ensures val.None? ==> p == p0
    ensures val.Some? ==> p0 < p && IsComment(old(buf[p0..e])[0])
    ensures val.Some? ==> old(buf[p..e]) == CommentBlock(old(buf[p0..e]), blanks).rest
    ensures val.Some? ==> IsCStr(buf[..], p0, CommentBlock(old(buf[p0..e]), blanks).text)
    ensures val.Some? ==> var end := p0 + |CommentBlock(old(buf[p0..e]), blanks).text|; end < p || p == e == end
  {
    hide CommentBlock, CommentTail, Span, CommentSoFar, CommentLineDone;
    ghost var t := buf[..];
    assert t[p0..e] == buf[p0..e];
    var w := p0;
    p, val := p0, Some(p0);
    while true
      invariant CommentState(buf[..], t, p0, w, p, e, blanks)
      decreases e - p
    {
      var w2, c, found := NextCommentLine(buf, p0, w, p, blanks, t, e);
      if !found { break; }
      var more;
      w, p, more := CopyCommentLine(buf, p0, w2, c, blanks, t, e);
      if !more { return; }
    }
    if p == p0 { val := None; return; }
    CommentEndsAt(t, p0, p, e, blanks, buf[p0..w - 1]);
    TextNoNul(t, p0, e, blanks);
    ghost var text := buf[p0..w - 1];
    buf[w - 1] := NUL;
    assert buf[p0..w - 1] == text;
  }

  lemma NoFeeds()
    ensures Feeds(0) == "" && NewLineCount("") == 0
  {
  }

  /** for (; n > 0; --n) *w++ = '\n'; */
  method WriteFeeds(buf: array<char>, w: nat, n: nat) returns (w2: nat)
    requires w + n <= buf.Length
    modifies buf
    ensures w2 == w + n && buf[w..w2] == Feeds(n) && AgreeOutside(old(buf[..]), buf[..], w, w2)
  {
    w2 := w;
    while w2 < w + n
      invariant w <= w2 <= w + n && AgreeOutside(old(buf[..]), buf[..], w, w2)
      invariant forall i :: w <= i < w2 ==> buf[i] == '\n'
    {
      buf[w2] := '\n';
      w2 := w2 + 1;
    }
  }

  // ---------- here-documents

  /** What the here-document gives when out has been read and h is what the lines from here on give. */
  function Joined(out: string, h: Here): Here {
    Here(Some(if h.text.None? then out else out + "\n" + h.text.value), h.rest)
  }

  /** One line of a here-document, from c to q; the next one starts at r. */
  lemma HereStep(t: seq<char>, c: int, q: int, r: int, e: int, tag: string, moved: bool)
    requires 0 <= c <= q <= e <= |t| && q == c + Span(t[c..e], NotNewLine)
    requires q < e ==> q < r <= e && t[r..e] == SkipNewLine(t[q..e])
    ensures
      var h := HereText(t[c..e], tag, moved);
      if ClosesHere(t[c..q], tag, moved) then h == Here(None, if q == e then "" else t[r..e])
      else if q == e then h == Here(Some(t[c..e]), "")
      else h == Joined(t[c..q], HereText(t[r..e], tag, moved || r - q == 2))
  {
    hide ClosesHere;
    var s := t[c..e];
    assert LineOf(s) == t[c..q];
    assert s[|t[c..q]|..] == t[q..e];
  }

  /** Is the line that was moved from c (up to q) down to w the closing tag? The string at w is compared with
      the tag after trailing white space has been cut off where the line stood before it moved. */
  method IsTagLine(buf: array<char>, w: nat, c: nat, q: nat, tag: nat, ghost line: string, ghost tagText: string)
    returns (hit: bool)
    requires w <= c <= q < buf.Length && |line| == q - c && NUL !in line
    requires buf[w..w + |line|] == line && buf[w + |line|] == NUL && buf[q] == NUL
    requires IsCStr(buf[..], tag, tagText) && tag + |tagText| <= w
    modifies buf
    ensures hit == ClosesHere(line, tagText, w < c)
    ensures AgreeOutside(old(buf[..]), buf[..], w, q)
    ensures !hit ==> buf[..] == old(buf[..])
  {
    ghost var b := buf[..];
    var pc: int := q - 1;
    while pc > w && IsSpace(buf[pc])
      invariant w - 1 <= pc < q
      invariant w < c ==> w + |line| <= pc
      invariant w == q ==> pc == q - 1
      invariant w < q ==> w <= pc
      invariant forall i :: pc < i < q ==> IsSpace(buf[i])
    {
      pc := pc - 1;
    }
    pc := pc + 1;
    var ch := buf[pc];
    buf[pc] := NUL;
    ghost var text := if w < c then line else TagText(line);
    assert IsCStr(buf[..], w, text) by { Compared(b, buf[..], w, c, q, pc, line); }
    assert IsCStr(buf[..], tag, tagText) by { assert buf[tag..tag + |tagText|] == b[tag..tag + |tagText|]; }
    var below := LessAt(buf, w, tag, text, tagText);
    var above := LessAt(buf, tag, w, tagText, text);
    hit := !below && !above;
    if !hit { buf[pc] := ch; }
  }

  /** Walking back over white space, but not past the first character, gives the text of a tag line. */
  lemma TrimmedTo(line: string, k: nat)
    requires 0 < k <= |line| && (forall i :: k <= i < |line| ==> IsSpace(line[i])) && (k > 1 ==> !IsSpace(line[k - 1]))
    ensures TagText(line) == line[..k]
  {
    if k > 1 || !IsSpace(line[0]) { TrimRightIs(line, k); } else { TrimRightIs(line, 0); }
  }

  /** The string that is compared: the whole line if it moved, its trimmed form if it did not. */
  lemma Compared(b: seq<char>, b2: seq<char>, w: int, c: int, q: int, pc: int, line: string)
    requires 0 <= w <= c <= q < |b| && |b2| == |b| && |line| == q - c && NUL !in line
    requires b[w..w + |line|] == line && b[w + |line|] == NUL
    requires w <= pc <= q && b2 == b[pc := NUL]
    requires w < c ==> w + |line| < pc
    requires w == c ==> (w < q ==> w < pc) && (w + 1 < pc ==> !IsSpace(b[pc - 1]))
    requires w == c ==> (forall i :: pc <= i < q ==> IsSpace(b[i]))
    ensures IsCStr(b2, w, if w < c then line else TagText(line))
  {
    if w < c {
      assert b2[w..w + |line|] == b[w..w + |line|];
    } else if line == "" {
      assert b2[w..w] == "";
    } else {
      var k := pc - w;
      assert forall i :: 0 <= i < |line| ==> line[i] == b[w + i];
      TrimmedTo(line, k);
      assert b2[w..w + k] == line[..k];
    }
  }

  /** What holds between two lines of a here-document: out, the text between p0 and w without its last
      line feed, is normalised, and the lines from p on are as they were. */
  ghost predicate HereState(b: seq<char>, t: seq<char>, p0: int, w: int, p: int, e: int, tag: string) {
    && 0 <= p0 <= w <= p <= e < |t| && AgreeOutside(t, b, p0, p)
    && (w == p0 ==> p == p0)
    && (forall i :: p0 <= i < w ==> b[i] != NUL)
    && (p0 < w ==> b[w - 1] == '\n')
    && (p0 < w ==> HereText(t[p0..e], tag, false) == Joined(b[p0..w - 1], HereText(t[p..e], tag, w < p)))
  }

  lemma JoinedTwice(out: string, line: string, h: Here)
    ensures Joined(out, Joined(line, h)) == Joined(out + "\n" + line, h)
    ensures Joined(out, Here(Some(line), "")) == Here(Some(out + "\n" + line), "")
  {
    if h.text.Some? {
      assert out + "\n" + (line + "\n" + h.text.value) == out + "\n" + line + "\n" + h.text.value;
    }
  }

  /** The normalised text with one line more. */
  lemma LineJoins(b: seq<char>, b2: seq<char>, p0: int, w: int, n: int, line: string)
    requires 0 <= p0 <= w && w + n <= |b2| && w <= |b| && n == |line| && NUL !in line
    requires (forall i :: p0 <= i < w ==> b2[i] == b[i]) && b2[w..w + n] == line
    requires (forall i :: p0 <= i < w ==> b[i] != NUL) && (p0 < w ==> b[w - 1] == '\n')
    ensures p0 < w ==> b2[p0..w + n] == b[p0..w - 1] + "\n" + line
    ensures p0 == w ==> b2[p0..w + n] == line
    ensures forall i :: p0 <= i < w + n ==> b2[i] != NUL
  {
    forall i | w <= i < w + n ensures b2[i] == line[i - w] && b2[i] != NUL {
      assert b2[i] == b2[w..w + n][i - w];
      assert line[i - w] in line;
    }
  }

  lemma LineNoNul(t: seq<char>, p0: int, c: int, q: int, e: int)
    requires Unread(t, p0, e) && p0 <= c <= q <= e
    ensures NUL !in t[c..q]
  {
  }

  /** Over one line that is not the tag. */
  lemma HereLineCopied(b: seq<char>, b2: seq<char>, t: seq<char>, p0: int, w: int, c: int, q: int, r: int, e: int,
                       tag: string)
    requires Unread(t, p0, e) && HereState(b, t, p0, w, c, e, tag)
    requires q == c + Span(t[c..e], NotNewLine) && c <= q < e && q < r <= q + 2 && r <= e
    requires t[r..e] == SkipNewLine(t[q..e])
    requires !ClosesHere(t[c..q], tag, w < c)
    requires AgreeOutside(t, b2, p0, r) && (forall i :: p0 <= i < w ==> b2[i] == b[i])
    requires b2[w..w + (q - c)] == t[c..q] && b2[w + (q - c)] == '\n'
    ensures HereState(b2, t, p0, w + (q - c) + 1, r, e, tag)
  {
    hide HereText, ClosesHere, Span, SkipNewLine, Joined, Unread;
    var line := t[c..q];
    var w2 := w + (q - c) + 1;
    HereStep(t, c, q, r, e, tag, w < c);
    LineNoNul(t, p0, c, q, e);
    LineJoins(b, b2, p0, w, q - c, line);
    if p0 < w { JoinedTwice(b[p0..w - 1], line, HereText(t[r..e], tag, w2 < r)); }
  }

  /** The data ends before the tag. */
  lemma HereDataEnds(b: seq<char>, b2: seq<char>, t: seq<char>, p0: int, w: int, c: int, e: int, tag: string)
    requires Unread(t, p0, e) && HereState(b, t, p0, w, c, e, tag) && c + Span(t[c..e], NotNewLine) == e
    requires !ClosesHere(t[c..e], tag, w < c)
    requires |b2| == |t| && (forall i :: p0 <= i < w ==> b2[i] == b[i])
    requires b2[w..w + (e - c)] == t[c..e] && b2[w + (e - c)] == NUL
    ensures HereText(t[p0..e], tag, false) == Here(Some(b2[p0..w + (e - c)]), "")
    ensures IsCStr(b2, p0, b2[p0..w + (e - c)])
  {
    hide HereText, ClosesHere, Span, SkipNewLine, Joined, Unread;
    var line := t[c..e];
    HereStep(t, c, e, e, e, tag, w < c);
    LineNoNul(t, p0, c, e, e);
    LineJoins(b, b2, p0, w, e - c, line);
    if p0 < w { JoinedTwice(b[p0..w - 1], line, Here(None, "")); }
  }

  /** The tag is found: the text ends in front of the last line feed. */
  lemma HereTagFound(b: seq<char>, b2: seq<char>, t: seq<char>, p0: int, w: int, c: int, q: int, r: int, e: int,
                     tag: string)
    requires Unread(t, p0, e) && HereState(b, t, p0, w, c, e, tag)
    requires q == c + Span(t[c..e], NotNewLine) && c <= q <= e && ClosesHere(t[c..q], tag, w < c)
    requires q <= r <= e && (q < e ==> q < r && t[r..e] == SkipNewLine(t[q..e])) && (q == e ==> r == e)
    requires |b2| == |t| && (forall i :: p0 <= i < w - 1 ==> b2[i] == b[i]) && (p0 < w ==> b2[w - 1] == NUL)
    ensures HereText(t[p0..e], tag, false).rest == t[r..e]
    ensures HereText(t[p0..e], tag, false).text == if p0 < w then Some(b2[p0..w - 1]) else None
    ensures p0 < w ==> IsCStr(b2, p0, b2[p0..w - 1])
  {
    hide HereText, ClosesHere, Span, SkipNewLine, Unread;
    HereStep(t, c, q, r, e, tag, w < c);
    if p0 < w {
      var out := b2[p0..w - 1];
      assert out == b[p0..w - 1];
      forall i | 0 <= i < |out| ensures out[i] != NUL { assert out[i] == b[p0 + i]; }
    }
  }

  /** One line is moved down to its place and compared with the tag; eol is the character behind it. */
  method NextHereLine(buf: array<char>, w: nat, c: nat, tag: nat, ghost p0: nat, ghost tagText: string,
                      ghost t: seq<char>, ghost e: nat)
    returns (q: nat, eol: char, hit: bool)
    requires Unread(t, p0, e) && HereState(buf[..], t, p0, w, c, e, tagText)
    requires IsCStr(buf[..], tag, tagText) && tag + |tagText| <= p0
    modifies buf
    ensures q == c + Span(t[c..e], NotNewLine) && c <= q <= e && eol == t[q]
    ensures hit == ClosesHere(t[c..q], tagText, w < c)
    ensures AgreeOutside(old(buf[..]), buf[..], w, q + 1) && buf[q] == NUL
    ensures !hit ==> buf[w..w + (q - c)] == t[c..q] && buf[w + (q - c)] == NUL
  {
    hide HereText, ClosesHere, Span, Joined;
    ghost var b := buf[..];
    assert t[c..e] == b[c..e] == buf[c..e];
    q := ScanWhile(buf, c, NotNewLine, e);
    eol := buf[q];
    MoveLine(buf, w, c, q);
    buf[q] := NUL;
    LineNoNul(t, p0, c, q, e);
    assert b[c..q] == t[c..q];
    assert buf[w..w + (q - c)] == t[c..q];
    assert buf[tag..tag + |tagText|] == b[tag..tag + |tagText|];
    ghost var b2 := buf[..];
    hit := IsTagLine(buf, w, c, q, tag, t[c..q], tagText);
    if !hit { assert buf[w..w + (q - c)] == b2[w..w + (q - c)]; }
  }

  /** The line break at q is put back and passed over. */
  method Resume(buf: array<char>, q0: nat, eol: char, ghost t: seq<char>, ghost e: nat) returns (q: nat)
    requires q0 < e && Unread(t, q0, e) && |t| == buf.Length && eol == t[q0]
    requires forall i :: q0 < i <= e ==> buf[i] == t[i]
    modifies buf
    ensures buf[..] == old(buf[..])[q0 := eol]
    ensures q0 < q <= e && t[q..e] == SkipNewLine(t[q0..e])
  {
    buf[q0] := eol;
    assert buf[q0..e] == t[q0..e];
    assert Unread(buf[..], q0, e);
    q := SkipBreak(buf, q0, e);
    assert buf[q..e] == t[q..e];
  }

  lemma TagOnFirstLine(t: seq<char>, c: int, q: int, e: int, tag: string)
    requires 0 <= c <= q <= e <= |t| && q == c + Span(t[c..e], NotNewLine) && ClosesHere(t[c..q], tag, false)
    ensures HereText(t[c..e], tag, false).text.None?
  {
    hide ClosesHere;
    assert LineOf(t[c..e]) == t[c..q];
  }

  /** The result of a here-document at p0 in the text t: the string in the buffer b, and the cursor p behind it. */
  ghost predicate HereRead(b: seq<char>, t: seq<char>, p0: int, p: int, e: int, tag: string)
    requires 0 <= p0 <= e <= |t|
  {
    var h := HereText(t[p0..e], tag, false);
    h.text.Some? ==>
      (&& p0 <= p <= e && AgreeOutside(t, b, p0, p) && t[p..e] == h.rest && IsCStr(b, p0, h.text.value)
       && (p0 + |h.text.value| < p || p == e == p0 + |h.text.value|))
  }

  /** Behind the tag: the text is closed in front of its last line feed, and reading goes on in the next line. */
  method FinishHere(buf: array<char>, p0: nat, w: nat, c: nat, q: nat, eol: char,
                    ghost b: seq<char>, ghost tagText: string, ghost t: seq<char>, ghost e: nat) returns (p: nat)
    requires Unread(t, p0, e) && HereState(b, t, p0, w, c, e, tagText) && 0 < p0
    requires q == c + Span(t[c..e], NotNewLine) && c <= q <= e && eol == t[q] && ClosesHere(t[c..q], tagText, w < c)
    requires AgreeOutside(b, buf[..], w, q + 1) && buf[q] == NUL
    modifies buf
    ensures q <= p <= e && AgreeOutside(t, buf[..], p0 - 1, p)
    ensures HereRead(buf[..], t, p0, p, e, tagText)
  {
    hide HereText, ClosesHere, Span, SkipNewLine, Joined;
    buf[w - 1] := NUL;
    p := q;
    if eol != NUL { p := Resume(buf, q, eol, t, e); }
    HereTagFound(b, buf[..], t, p0, w, c, q, p, e, tagText);
  }

  /** Behind a line that is not the tag: its line break becomes a single line feed. */
  method ContinueHere(buf: array<char>, p0: nat, w: nat, c: nat, q: nat, eol: char,
                      ghost b: seq<char>, ghost tagText: string, ghost t: seq<char>, ghost e: nat)
    returns (w2: nat, p: nat)
    requires Unread(t, p0, e) && HereState(b, t, p0, w, c, e, tagText)
    requires q == c + Span(t[c..e], NotNewLine) && c <= q < e && eol == t[q] && !ClosesHere(t[c..q], tagText, w < c)
    requires AgreeOutside(b, buf[..], w, q + 1) && buf[w..w + (q - c)] == t[c..q]
    modifies buf
    ensures c < p <= e && p0 < w2 && HereState(buf[..], t, p0, w2, p, e, tagText)
    ensures forall i :: 0 <= i < p0 ==> buf[i] == old(buf[i])
  {
    hide HereText, ClosesHere, Span, SkipNewLine, Joined;
    ghost var line := buf[w..w + (q - c)];
    p := EndLine(buf, w + (q - c), q, eol, t, e);
    w2 := w + (q - c) + 1;
    assert buf[w..w + (q - c)] == line;
    HereLineCopied(b, buf[..], t, p0, w, c, q, p, e, tagText);
  }

  /** A here-document, read up to the line tag and normalised in place; val is None only if the very first
      line is empty and closes it. */
  method LoadHere(buf: array<char>, p0: nat, tag: nat, ghost tagText: string, ghost e: nat)
    returns (p: nat, val: Option<nat>)
    requires Unread(buf[..], p0, e) && IsCStr(buf[..], tag, tagText) && tag + |tagText| <= p0
    modifies buf
    ensures p0 <= p <= e && (val.Some? ==> val == Some(p0))
    ensures val.Some? ==> AgreeOutside(old(buf[..]), buf[..], p0 - 1, p)
    ensures val.None? ==> HereText(old(buf[..])[p0..e], tagText, false).text.None?
    ensures forall i :: 0 <= i < p0 - 1 ==> buf[i] == old(buf[i])
    ensures HereRead(buf[..], old(buf[..]), p0, p, e, tagText)
  {
    hide HereText, ClosesHere, Span, SkipNewLine, Joined;
    ghost var t := buf[..];
    assert t[p0..e] == buf[p0..e];
    var w := p0;
    p, val := p0, Some(p0);
    while true
      invariant HereState(buf[..], t, p0, w, p, e, tagText)
      invariant IsCStr(buf[..], tag, tagText)
      decreases e - p
    {
      ghost var b := buf[..];
      var c := p;
      var q, eol, hit := NextHereLine(buf, w, c, tag, p0, tagText, t, e);
      if hit {
        if q == p0 {
          TagOnFirstLine(t, p0, q, e, tagText);
          return q, None;
        }
        p := FinishHere(buf, p0, w, c, q, eol, b, tagText, t, e);
        return;
      }
      if eol == NUL {
        HereDataEnds(b, buf[..], t, p0, w, c, e, tagText);
        return q, Some(p0);
      }
      w, p := ContinueHere(buf, p0, w, c, q, eol, b, tagText, t, e);
      assert buf[tag..tag + |tagText|] == b[tag..tag + |tagText|];
    }
  }
}
