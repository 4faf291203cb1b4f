/** The character loops of the reader, on the mutable buffer it parses in place. */
module IniScan {
  import opened IniText
  import opened IniOrder

  /** The text from p up to the terminating NUL at e is still to be read. */
  ghost predicate Unread(b: seq<char>, p: int, e: int) {
    0 <= p <= e < |b| && b[e] == NUL && forall i :: p <= i < e ==> b[i] != NUL
  }

  /** At position i of the buffer starts the string s, closed by a NUL. */
  ghost predicate IsCStr(b: seq<char>, i: int, s: string) {
    0 <= i && i + |s| < |b| && b[i..i + |s|] == s && b[i + |s|] == NUL && NUL !in s
  }

  /** b and c agree outside the positions from lo up to hi. */
  ghost predicate AgreeOutside(b: seq<char>, c: seq<char>, lo: int, hi: int) {
    |b| == |c| && (forall i :: 0 <= i < |b| && i < lo ==> b[i] == c[i])
    && (forall i :: 0 <= i < |b| && hi <= i ==> b[i] == c[i])
  }

  /** while (*p && f(*p)) ++p; */
  method ScanWhile(buf: array<char>, p: nat, f: char -> bool, ghost e: nat) returns (q: nat)
    requires Unread(buf[..], p, e)
    ensures p <= q <= e && q == p + Span(buf[p..e], f)
    ensures forall i :: p <= i < q ==> f(buf[i])
    ensures buf[q] == NUL <==> q == e
  {
    q := p;
    while buf[q] != NUL && f(buf[q])
      invariant p <= q <= e
      invariant forall i :: p <= i < q ==> f(buf[i])
      decreases e - q
    {
      assert buf[q] == buf[..][q];
      q := q + 1;
    }
    assert buf[q] == buf[..][q];
    SpanIs(buf[p..e], f, q - p);
  }

  /** Trailing white space between start and end is passed over backwards. */
  method TrimBack(buf: array<char>, start: nat, end: nat) returns (q: nat)
    requires start <= end <= buf.Length
    ensures start <= q <= end && q == start + TrimLen(buf[start..end])
  {
    var t: int := end - 1;
    while t >= start && IsSpace(buf[t])
      invariant start - 1 <= t < end
      invariant forall i :: t < i < end ==> IsSpace(buf[i])
    {
      t := t - 1;
    }
    q := t + 1;
    TrimRightIs(buf[start..end], q - start);
  }

  /** a_pData += (*a_pData == '\r' && a_pData[1] == '\n') ? 2 : 1 */
  method SkipBreak(buf: array<char>, p: nat, ghost e: nat) returns (q: nat)
    requires Unread(buf[..], p, e) && p < e
    ensures p < q <= e && q <= p + 2 && buf[q..e] == SkipNewLine(buf[p..e]) && Unread(buf[..], q, e)
  {
    assert buf[p] == buf[p..e][0] && buf[p + 1] == buf[..][p + 1];
    q := if buf[p] == '\r' && buf[p + 1] == '\n' then p + 2 else p + 1;
  }

  /** Counting the breaks of the white space between q and stop, one step. */
  lemma CountStep(b: seq<char>, q: int, stop: int)
    requires 0 <= q < stop < |b| && !IsSpace(b[stop])
    ensures NewLineCount(b[q..stop]) ==
      if !IsNewLine(b[q]) then NewLineCount(b[q + 1..stop])
      else if b[q] == '\r' && b[q + 1] == '\n' then 1 + NewLineCount(b[q + 2..stop])
      else 1 + NewLineCount(b[q + 1..stop])
    ensures b[q] == '\r' && b[q + 1] == '\n' ==> q + 2 <= stop
  {
    var s := b[q..stop];
    assert s[1..] == b[q + 1..stop];
    if b[q] == '\r' && b[q + 1] == '\n' {
      assert s[2..] == b[q + 2..stop];
    }
  }

  /** Where the white space from p on ends. */
  lemma SpaceEnds(b: seq<char>, p: int, e: int)
    requires Unread(b, p, e)
    ensures var stop := p + Span(b[p..e], IsSpace);
      p <= stop <= e && !IsSpace(b[stop]) && forall i :: p <= i < stop ==> IsSpace(b[i])
  {
    var stop := p + Span(b[p..e], IsSpace);
    forall i | p <= i < stop ensures IsSpace(b[i]) { assert b[p..e][i - p] == b[i]; }
    if stop < e { assert b[p..e][stop - p] == b[stop]; }
  }

  /** The white space ahead is measured without being consumed: where it ends, how many breaks it has. */
  method LookAhead(buf: array<char>, p: nat, ghost e: nat) returns (q: nat, breaks: nat)
    requires Unread(buf[..], p, e)
    ensures p <= q <= e && q == p + Span(buf[p..e], IsSpace) && breaks == NewLineCount(buf[p..q])
    ensures breaks <= q - p
  {
    hide Span, NewLineCount;
    ghost var b := buf[..];
    ghost var stop := p + Span(b[p..e], IsSpace);
    SpaceEnds(b, p, e);
    q, breaks := p, 0;
    while IsSpace(buf[q])
      invariant p <= q <= stop
      invariant breaks + NewLineCount(b[q..stop]) == NewLineCount(b[p..stop])
      decreases stop - q
    {
      CountStep(b, q, stop);
      if IsNewLine(buf[q]) {
        breaks := breaks + 1;
        q := if buf[q] == '\r' && buf[q + 1] == '\n' then q + 2 else q + 1;
      } else {
        q := q + 1;
      }
    }
    NothingToCount(b[q..stop]);
    NewLineCountBound(b[p..q]);
    assert b[p..e] == buf[p..e] && b[p..q] == buf[p..q];
  }

  lemma NothingToCount(s: string)
    requires s == ""
    ensures NewLineCount(s) == 0
  {
  }

  lemma LessStep(a: string, b: string, k: nat)
    requires k < |a| && k < |b|
    ensures Less(a[k..], b[k..]) ==
      if LoCase(a[k]) != LoCase(b[k]) then Code(LoCase(a[k])) < Code(LoCase(b[k])) else Less(a[k + 1..], b[k + 1..])
  {
    assert a[k..][1..] == a[k + 1..] && b[k..][1..] == b[k + 1..];
  }

  lemma LessEnd(a: string, b: string, k: nat)
    requires k <= |a| && k <= |b| && (k == |a| || k == |b|)
    ensures Less(a[k..], b[k..]) <==> k < |b|
  {
  }

  /** The comparator on two strings of the buffer. */
  method LessAt(buf: array<char>, i: nat, j: nat, ghost a: string, ghost b: string) returns (less: bool)
    requires IsCStr(buf[..], i, a) && IsCStr(buf[..], j, b)
    ensures less == Less(a, b)
  {
    hide Less;
    var x, y := i, j;
    assert buf[i + |a|] == NUL && buf[j + |b|] == NUL;
    while buf[x] != NUL && buf[y] != NUL
      invariant i <= x <= i + |a| && j <= y <= j + |b| && x - i == y - j
      invariant Less(a, b) == Less(a[x - i..], b[x - i..])
      decreases i + |a| - x
    {
      assert buf[x] == a[x - i] && buf[y] == b[y - j];
      LessStep(a, b, x - i);
      if LoCase(buf[x]) != LoCase(buf[y]) {
        return Code(LoCase(buf[x])) - Code(LoCase(buf[y])) < 0;
      }
      x, y := x + 1, y + 1;
    }
    AtEnd(buf[..], i, a, x);
    AtEnd(buf[..], j, b, y);
    LessEnd(a, b, x - i);
    return buf[y] != NUL;
  }

  lemma AtEnd(b: seq<char>, i: int, s: string, x: int)
    requires IsCStr(b, i, s) && i <= x <= i + |s|
    ensures b[x] == NUL <==> x == i + |s|
  {
    if x < i + |s| { assert b[x] == b[i..i + |s|][x - i] == s[x - i]; }
  }

  /** memmove of the line from c up to q down to w, with a NUL behind it if it moved. */
  method MoveLine(buf: array<char>, w: nat, c: nat, q: nat)
    requires w <= c <= q < buf.Length
    modifies buf
    ensures buf[w..w + (q - c)] == old(buf[c..q])
    ensures w < c ==> buf[w + (q - c)] == NUL
    ensures AgreeOutside(old(buf[..]), buf[..], w, q)
  {
    if w < c {
      var n := q - c;
      forall i | 0 <= i < n { buf[w + i] := buf[c + i]; }
      buf[w + n] := NUL;
    }
  }
}
