/**
 * FindEntry: the next section header or key line of the buffer, with its strings closed by NULs in place.
 * The strings are handed out as positions; they are related to the pure grammar on the text as it was.
 */
module IniParser {
  import opened Basics
  import opened IniText
  import opened IniGrammar
  import opened IniScan
  import opened IniBlocks

  /** A string the reader holds: none, the constant empty string, or one in the buffer. */
  datatype Ptr = Null | Empty | At(pos: nat)

  /** The string behind a pointer, and that it lies in front of the cursor p. */
  ghost predicate Settled(b: seq<char>, ptr: Ptr, s: Option<string>, p: int, e: int) {
    match ptr
    case Null => s == None
    case Empty => s == Some("")
    case At(i) => s.Some? && IsCStr(b, i, s.value) && (i + |s.value| < p || p == e == i + |s.value|)
  }

  /** A settled string is not touched by anything that only changes the buffer behind the cursor. */
  lemma SettledStays(b: seq<char>, c: seq<char>, ptr: Ptr, s: Option<string>, p: int, q: int, e: int)
    requires Settled(b, ptr, s, p, e) && Unread(b, p, e) && AgreeOutside(b, c, p, q) && p <= q <= e < |b|
    ensures Settled(c, ptr, s, q, e)
  {
    if ptr.At? { assert c[ptr.pos..ptr.pos + |s.value|] == b[ptr.pos..ptr.pos + |s.value|]; }
  }

  lemma SettledStaysUnless(lost: bool, b: seq<char>, c: seq<char>, ptr: Ptr, s: Option<string>, p: int, q: int, e: int)
    requires lost || Settled(b, ptr, s, p, e)
    requires Unread(b, p, e) && AgreeOutside(b, c, p, q) && p <= q <= e < |b|
    ensures lost || Settled(c, ptr, s, q, e)
  {
    if !lost { SettledStays(b, c, ptr, s, p, q, e); }
  }

  // ---------- the grammar at positions of a text

  lemma HeaderAt(t: seq<char>, u: int, q: int, r: int, e: int, comment: Option<string>)
    requires 0 <= u <= q <= e <= |t| && q == u + Span(t[u..e], NameChar)
    requires q < e && t[q] == ']' ==> r == q + 1 + Span(t[q + 1..e], NotNewLine)
    ensures HeaderStep(t[u..e], comment)
      == if q < e && t[q] == ']' then Found(Entry(TrimRight(t[u..q]), None, None, comment), t[r..e]) else Malformed
  {
    hide Span, TrimLen;
    var s := t[u..e];
    assert s[..q - u] == t[u..q];
    if q < e && t[q] == ']' {
      assert s[q - u] == t[q];
      assert s[q - u + 1..] == t[q + 1..e];
      assert t[q + 1..e][r - (q + 1)..] == t[r..e];
    }
  }

  lemma ValueAt(t: seq<char>, a: int, v: int, l: int, r: int, e: int, key: string, section: string,
                comment: Option<string>, o: Options)
    requires 0 <= a <= v <= l <= r <= e <= |t|
    requires v == a + Span(t[a..e], IsBlank) && l == v + Span(t[v..e], NotNewLine)
    requires if l < e then t[r..e] == SkipNewLine(t[l..e]) else r == e
    ensures ValueStep(key, t[a..e], section, comment, o)
      == ValueOf(TrimRight(t[v..l]), t[r..e], key, section, comment, o)
  {
    hide ValueOf, Span, TrimRight, SkipNewLine;
    var s := t[a..e];
    assert Skip(s, IsBlank) == s[v - a..] == t[v..e];
    var w := t[v..e];
    assert LineOf(w) == w[..l - v] == t[v..l];
    assert w[l - v..] == t[l..e];
  }

  lemma NextAt(t: seq<char>, p: int, u: int, e: int, section: string, previous: Option<string>, comment: Option<string>,
               o: Options)
    requires 0 <= p <= u <= e <= |t| && u == p + Span(t[p..e], IsSpace)
    ensures u < e ==> !IsSpace(t[u]) && !IsSpace(t[u..e][0])
    ensures Next(t[p..e], section, previous, comment, o) ==
      match TurnAt(t[u..e], section, previous, comment, o)
      case Done(step) => step
      case More(rest, c) => Next(rest, section, previous, c, o)
  {
    hide TurnAt;
    var s := t[p..e];
    assert s[u - p..] == t[u..e];
    if u < e { assert s[u - p] == t[u]; }
  }

  // ---------- section headers

  /** The string that starts at i and was closed at its trimmed end. */
  lemma TrimmedStr(t: seq<char>, b: seq<char>, i: int, q: int, trail: int, e: int)
    requires 0 <= i <= trail <= q <= e < |t| && Unread(t, i, e) && |b| == |t|
    requires trail == i + TrimLen(t[i..q]) && b[trail] == NUL && forall k :: i <= k < trail ==> b[k] == t[k]
    ensures IsCStr(b, i, TrimRight(t[i..q])) && i + |TrimRight(t[i..q])| == trail
  {
    hide TrimLen;
    var text := TrimRight(t[i..q]);
    assert text == t[i..trail] == b[i..trail];
  }

  /** The section name between name and its ']' at q is trimmed and closed; the rest of the line is skipped. */
  method CloseName(buf: array<char>, name: nat, q: nat, ghost e: nat) returns (r: nat)
    requires Unread(buf[..], name, e) && name <= q < e
    modifies buf
    ensures AgreeOutside(old(buf[..]), buf[..], name, q + 1) && q < r <= e
    ensures r == q + 1 + Span(old(buf[..])[q + 1..e], NotNewLine)
    ensures IsCStr(buf[..], name, TrimRight(old(buf[..])[name..q])) && name + |TrimRight(old(buf[..])[name..q])| <= q
  {
    hide Span, TrimRight;
    ghost var t := buf[..];
    assert t[name..q] == buf[name..q];
    var trail := TrimBack(buf, name, q);
    buf[trail] := NUL;
    assert buf[q + 1..e] == t[q + 1..e];
    r := ScanWhile(buf, q + 1, NotNewLine, e);
    TrimmedStr(t, buf[..], name, q, trail, e);
  }

  lemma SkipAt(t: seq<char>, p: int, u: int, e: int, f: char -> bool)
    requires 0 <= p <= u <= e <= |t| && u == p + Span(t[p..e], f)
    ensures Skip(t[p..e], f) == t[u..e]
  {
    hide Span;
  }

  /** A header line, from its '[' at p: name is where its name starts; the cursor stops at the line break. */
  method FindHeader(buf: array<char>, p: nat, ghost comment: Option<string>, ghost e: nat)
    returns (ok: bool, name: nat, q: nat)
    requires Unread(buf[..], p, e) && p < e
    modifies buf
    ensures p < q <= e && p < name <= q && AgreeOutside(old(buf[..]), buf[..], p, q)
    ensures ok == HeaderStep(Skip(old(buf[..])[p + 1..e], IsSpace), comment).Found?
    ensures !ok ==> buf[..] == old(buf[..])
    ensures ok ==> HeaderStep(Skip(old(buf[..])[p + 1..e], IsSpace), comment).rest == old(buf[..])[q..e]
    ensures ok ==> var h := HeaderStep(Skip(old(buf[..])[p + 1..e], IsSpace), comment).entry;
      IsCStr(buf[..], name, h.section) && name + |h.section| < q && h == Entry(h.section, None, None, comment)
  {
    hide Span, TrimRight, HeaderStep, Skip;
    ghost var t := buf[..];
    assert t[p + 1..e] == buf[p + 1..e];
    name := ScanWhile(buf, p + 1, IsSpace, e);
    SkipAt(t, p + 1, name, e, IsSpace);
    assert t[name..e] == buf[name..e];
    q := ScanWhile(buf, name, NameChar, e);
    ok := buf[q] == ']';
    assert t[q] == buf[q];
    ghost var bracket := q;
    if ok { q := CloseName(buf, name, q, e); }
    HeaderAt(t, name, bracket, q, e, comment);
  }

  // ---------- values

  /** "<<<" at position v, the value being closed by a NUL. */
  method IsMultiLineTag(buf: array<char>, v: nat, ghost val: string) returns (r: bool)
    requires IsCStr(buf[..], v, val)
    ensures r == ("<<<" <= val)
  {
    assert forall i :: 0 <= i < |val| ==> buf[v + i] == buf[v..v + |val|][i] == val[i];
    assert buf[v + |val|] == NUL;
    r := buf[v] == '<' && buf[v + 1] == '<' && buf[v + 2] == '<';
  }

  /** What a value line gave: the step of the grammar, and where its string and the cursor are. */
  ghost predicate ValueRead(b: seq<char>, t: seq<char>, step: Step, val: Option<nat>, p: int, q: int, e: int)
    requires 0 <= q <= e <= |t|
  {
    step.Found? ==>
      (&& AgreeOutside(t, b, p, q) && step.rest == t[q..e] && step.entry.value.Some? && val.Some?
       && IsCStr(b, val.value, step.entry.value.value)
       && (val.value + |step.entry.value.value| < q || q == e == val.value + |step.entry.value.value|))
  }

  /** The line of a value, from the character behind its '=' sign: its text lies between v and trail,
      where it is closed, and the next line starts at r. */
  method ValueLine(buf: array<char>, a: nat, ghost e: nat) returns (v: nat, trail: nat, r: nat)
    requires Unread(buf[..], a, e)
    modifies buf
    ensures a <= v <= trail <= r <= e && AgreeOutside(old(buf[..]), buf[..], a, r) && (trail < r || trail == r == e)
    ensures var t := old(buf[..]);
      exists l :: v <= l <= r && v == a + Span(t[a..e], IsBlank) && l == v + Span(t[v..e], NotNewLine)
        && (if l < e then t[r..e] == SkipNewLine(t[l..e]) else r == e)
        && IsCStr(buf[..], v, TrimRight(t[v..l])) && trail == v + |TrimRight(t[v..l])|
  {
    hide Span, TrimRight, SkipNewLine;
    ghost var t := buf[..];
    assert t[a..e] == buf[a..e];
    v := ScanWhile(buf, a, IsBlank, e);
    assert t[v..e] == buf[v..e];
    var l := ScanWhile(buf, v, NotNewLine, e);
    assert t[v..l] == buf[v..l] && t[l..e] == buf[l..e];
    r := l;
    if buf[l] != NUL {
      r := SkipBreak(buf, l, e);
      assert t[r..e] == buf[r..e];
    }
    trail := TrimBack(buf, v, l);
    buf[trail] := NUL;
    TrimmedStr(t, buf[..], v, l, trail, e);
  }

  /** A closed string one character shorter at either end. */
  lemma InnerStr(b: seq<char>, c: seq<char>, v: int, val: string, trail: int)
    requires IsCStr(b, v, val) && |val| > 1 && trail == v + |val| - 1 && |c| == |b| && c == b[trail := NUL]
    ensures IsCStr(c, v + 1, val[1..|val| - 1])
  {
    var inner := val[1..|val| - 1];
    forall i | 0 <= i < |inner| ensures c[v + 1 + i] == inner[i] {
      assert b[v..v + |val|][i + 1] == val[i + 1];
    }
    assert c[v + 1..trail] == inner;
    assert forall i :: 0 <= i < |inner| ==> inner[i] == val[i + 1] && inner[i] != NUL;
  }

  lemma TagStr(b: seq<char>, v: int, val: string)
    requires IsCStr(b, v, val) && "<<<" <= val
    ensures IsCStr(b, v + 3, val[3..])
  {
    assert b[v + 3..v + |val|] == b[v..v + |val|][3..];
  }

  /** The value once its own line is read and closed: a here-document, a quoted value, or the text itself. */
  method ValueRest(buf: array<char>, v: nat, trail: nat, r: nat, o: Options, ghost text: string, ghost t: seq<char>,
                   ghost a: nat,
                   ghost key: string, ghost section: string, ghost comment: Option<string>, ghost e: nat)
    returns (ok: bool, val: Option<nat>, q: nat)
    requires Unread(t, a, e) && AgreeOutside(t, buf[..], a, r) && a <= v <= trail <= r <= e && 0 < a
    requires IsCStr(buf[..], v, text) && trail == v + |text| && (trail < r || trail == r == e)
    modifies buf
    ensures r <= q <= e && (ok ==> AgreeOutside(t, buf[..], a - 1, q)) && (ok ==> val.Some? && val.value <= e)
    ensures forall i :: 0 <= i < a - 1 ==> buf[i] == t[i]
    ensures !ok ==> !ValueOf(text, t[r..e], key, section, comment, o).Found?
    ensures ValueRead(buf[..], t, ValueOf(text, t[r..e], key, section, comment, o), val, a, q, e)
    ensures ValueOf(text, t[r..e], key, section, comment, o).Found? ==>
      ValueOf(text, t[r..e], key, section, comment, o).entry
        == Entry(section, Some(key), ValueOf(text, t[r..e], key, section, comment, o).entry.value, comment)
  {
    hide HereText;
    ok, val, q := true, Some(v), r;
    var tagged := false;
    if o.multiLine { tagged := IsMultiLineTag(buf, v, text); }
    if tagged {
      ok, val, q := HereValue(buf, r, v, trail, text, t, a, e);
    } else if o.quotes {
      var start := Unquote(buf, v, trail, text);
      val := Some(start);
    }
  }

  /** Everything between '=' and the next entry: the value in its line, or the here-document behind it.
      ok is false only for a here-document that its first line closes. */
  method FindValue(buf: array<char>, a: nat, o: Options, ghost key: string, ghost section: string,
                   ghost comment: Option<string>, ghost e: nat)
    returns (ok: bool, val: Option<nat>, q: nat)
    requires Unread(buf[..], a, e) && 0 < a
    modifies buf
    ensures a <= q <= e && (ok ==> AgreeOutside(old(buf[..]), buf[..], a - 1, q))
      && (ok ==> val.Some? && val.value <= e)
    ensures forall i :: 0 <= i < a - 1 ==> buf[i] == old(buf[i])
    ensures !ok ==> !ValueStep(key, old(buf[..])[a..e], section, comment, o).Found?
    ensures ValueRead(buf[..], old(buf[..]), ValueStep(key, old(buf[..])[a..e], section, comment, o), val, a, q, e)
    ensures ValueStep(key, old(buf[..])[a..e], section, comment, o).Found? ==>
      ValueStep(key, old(buf[..])[a..e], section, comment, o).entry
        == Entry(section, Some(key), ValueStep(key, old(buf[..])[a..e], section, comment, o).entry.value, comment)
  {
    hide Span, TrimRight, SkipNewLine, ValueOf, ValueStep, ValueRead;
    ghost var t := buf[..];
    var v, trail, r := ValueLine(buf, a, e);
    ghost var l :| v <= l <= r && v == a + Span(t[a..e], IsBlank) && l == v + Span(t[v..e], NotNewLine)
        && (if l < e then t[r..e] == SkipNewLine(t[l..e]) else r == e)
        && IsCStr(buf[..], v, TrimRight(t[v..l])) && trail == v + |TrimRight(t[v..l])|;
    ValueAt(t, a, v, l, r, e, key, section, comment, o);
    ok, val, q := ValueRest(buf, v, trail, r, o, TrimRight(t[v..l]), t, a, key, section, comment, e);
  }

  /** Quotes around the value that lies between v and trail are taken off. */
  method Unquote(buf: array<char>, v: nat, trail: nat, ghost text: string) returns (start: nat)
    requires IsCStr(buf[..], v, text) && trail == v + |text|
    modifies buf
    ensures AgreeOutside(old(buf[..]), buf[..], v, trail) && v <= start <= trail
    ensures if IsQuoted(text) then IsCStr(buf[..], start, text[1..|text| - 1]) && start + |text| - 2 < trail
            else start == v && buf[..] == old(buf[..])
  {
    ghost var b := buf[..];
    start := v;
    assert forall i :: 0 <= i < |text| ==> buf[v + i] == buf[v..v + |text|][i] == text[i];
    var last: int := trail - 1;
    if last > v && buf[v] == '"' && buf[last] == '"' {
      start := v + 1;
      buf[last] := NUL;
      InnerStr(b, buf[..], v, text, last);
    }
  }

  /** The here-document that starts at r, with its tag behind the "<<<" at v. */
  method HereValue(buf: array<char>, r: nat, v: nat, trail: nat, ghost text: string, ghost t: seq<char>, ghost a: nat,
                   ghost e: nat)
    returns (ok: bool, val: Option<nat>, q: nat)
    requires Unread(t, a, e) && AgreeOutside(t, buf[..], a, r) && a <= v <= trail <= r <= e && 0 < a
    requires IsCStr(buf[..], v, text) && trail == v + |text| && "<<<" <= text
    modifies buf
    ensures r <= q <= e && (ok ==> AgreeOutside(t, buf[..], a - 1, q)) && (ok ==> val.Some? && val.value <= e)
    ensures forall i :: 0 <= i < a - 1 ==> buf[i] == t[i]
    ensures !ok ==> HereText(t[r..e], text[3..], false).text.None?
    ensures HereText(t[r..e], text[3..], false).text.Some? ==>
              AgreeOutside(t, buf[..], a, q) && HereText(t[r..e], text[3..], false).rest == t[q..e]
    ensures HereText(t[r..e], text[3..], false).text.Some? ==>
              var s := HereText(t[r..e], text[3..], false).text.value;
              && val.Some? && IsCStr(buf[..], val.value, s)
              && (val.value + |s| < q || q == e == val.value + |s|)
  {
    hide HereText;
    ghost var b := buf[..];
    TagStr(b, v, text);
    assert b[r..e] == t[r..e] && Unread(b, r, e);
    q, val := LoadHere(buf, r, v + 3, text[3..], e);
    ok := val.Some?;
    assert q <= e ==> b[q..e] == t[q..e];
  }

  // ---------- key lines

  lemma KeyAt(t: seq<char>, u: int, q: int, r: int, e: int, section: string, previous: Option<string>,
              comment: Option<string>, o: Options)
    requires 0 <= u < e <= |t| && u <= q <= e && q == u + Span(t[u..e], KeyChar)
    requires !IsSpace(t[u]) && !IsComment(t[u]) && t[u] != '['
    requires q == u ==> r == u + Span(t[u..e], NotNewLine)
    requires u < q < e && t[q] != '=' ==> q <= r <= e && t[r..e] == SkipNewLine(t[q..e])
    requires u < q == e ==> r == e
    ensures u == q ==> t[q] == '=' && u < r <= e
    ensures TurnAt(t[u..e], section, previous, comment, o)
      == if q == u then More(t[r..e], comment)
         else if q < e && t[q] == '=' then Done(ValueStep(TrimRight(t[u..q]), t[q + 1..e], section, comment, o))
         else if !o.keyOnly then More(t[q..e], comment)
         else Done(Found(Entry(section, Some(TrimRight(t[u..q])), previous, comment), t[r..e]))
  {
    hide Span, TrimRight, SkipNewLine, ValueStep, CommentBlock, HeaderStep;
    var s := t[u..e];
    assert s[0] == t[u];
    assert s[q - u..] == t[q..e] && s[..q - u] == t[u..q];
    if q < e { assert s[q - u] == t[q] && t[q..e][1..] == t[q + 1..e]; }
    FirstOfKey(s);
    if q == u {
      SkipAt(t, u, r, e, NotNewLine);
      FirstOfLine(s);
    }
  }

  lemma FirstOfKey(s: string)
    requires s != "" && !IsSpace(s[0])
    ensures Span(s, KeyChar) == 0 ==> s[0] == '='
  {
  }

  lemma FirstOfLine(s: string)
    requires s != "" && !IsSpace(s[0])
    ensures Span(s, NotNewLine) > 0
  {
  }

  /** The entry that a key line gave, in terms of the buffer. */
  ghost predicate KeyStep(b: seq<char>, t: seq<char>, step: Step, key: Ptr, val: Ptr, prev: Ptr,
                          previous: Option<string>,
                          section: string, comment: Option<string>, u: int, q: int, e: int)
    requires 0 <= u <= q <= e <= |t| && step.Found?
  {
    && step.rest == t[q..e] && step.entry.key.Some? && AgreeOutside(t, b, u, q)
    && step.entry == Entry(section, step.entry.key, step.entry.value, comment)
    && Settled(b, key, step.entry.key, q, e)
    && (Settled(b, val, step.entry.value, q, e) || (val == prev && step.entry.value == previous))
  }

  /** A line that starts at u with neither white space, comment character nor '['. It is passed over (more),
      or it is an entry, or (found false) a here-document without lines. */
  method KeyLine(buf: array<char>, u: nat, o: Options, prev: Ptr, ghost section: string, ghost previous: Option<string>,
                 ghost comment: Option<string>, ghost e: nat)
    returns (more: bool, found: bool, key: Ptr, val: Ptr, q: nat)
    requires Unread(buf[..], u, e) && u < e && !IsSpace(buf[u]) && !IsComment(buf[u]) && buf[u] != '['
    modifies buf
    ensures u < q <= e && (forall i :: 0 <= i < u ==> buf[i] == old(buf[i])) && key == At(u)
    ensures val == prev || (val.At? && val.pos <= e) || !found
    ensures more || found ==> AgreeOutside(old(buf[..]), buf[..], u, q)
    ensures more ==>
      !found && TurnAt(old(buf[..])[u..e], section, previous, comment, o) == More(old(buf[..])[q..e], comment)
    ensures !more ==> TurnAt(old(buf[..])[u..e], section, previous, comment, o).Done?
    ensures !more ==> var step := TurnAt(old(buf[..])[u..e], section, previous, comment, o).step;
      step.Found? ==> found && KeyStep(buf[..], old(buf[..]), step, key, val, prev, previous, section, comment, u, q, e)
    ensures !more ==> TurnAt(old(buf[..])[u..e], section, previous, comment, o).step != Finish
  {
    hide Span, TrimRight, SkipNewLine, ValueStep, TurnAt, KeyStep;
    ghost var t := buf[..];
    assert t[u..e] == buf[u..e];
    more, found, key, val := true, false, At(u), prev;
    var q0 := ScanWhile(buf, u, KeyChar, e);
    q := q0;
    assert t[q] == buf[q];
    var have := buf[q] == '=';
    if !have { KeyNotEmpty(t, u, q, e); }
    if !have && !o.keyOnly {
      PassedOver(t, u, q, e, section, previous, comment, o);
      return;
    }
    if have && q == u {
      q := ScanWhile(buf, u, NotNewLine, e);
      KeyAt(t, u, u, q, e, section, previous, comment, o);
      return;
    }
    more := false;
    assert t[u..q] == buf[u..q];
    var trail := TrimBack(buf, u, q);
    if have {
      KeyAt(t, u, q0, q0, e, section, previous, comment, o);
      ValueStepShape(TrimRight(t[u..q0]), t[q0 + 1..e], section, comment, o);
      found, val, q := KeyWithValue(buf, u, q, trail, o, section, comment, e);
      NoPrevious(buf[..], t, TurnAt(t[u..e], section, previous, comment, o).step, key, val, prev, previous, section,
                 comment, u, q, e);
    } else {
      found := true;
      q := KeyAlone(buf, u, q, trail, o, prev, section, previous, comment, e);
    }
  }

  lemma ValueStepShape(key: string, after: string, section: string, comment: Option<string>, o: Options)
    ensures ValueStep(key, after, section, comment, o) != Finish
  {
    hide HereText, Skip, TrimRight;
  }

  lemma NoPrevious(b: seq<char>, t: seq<char>, step: Step, key: Ptr, val: Ptr, prev: Ptr, previous: Option<string>,
                   section: string, comment: Option<string>, u: int, q: int, e: int)
    requires 0 <= u <= q <= e <= |t|
    requires step.Found? ==> KeyStep(b, t, step, key, val, Null, None, section, comment, u, q, e) && val.At?
    ensures step.Found? ==> KeyStep(b, t, step, key, val, prev, previous, section, comment, u, q, e)
  {
  }

  lemma PassedOver(t: seq<char>, u: int, q: int, e: int, section: string, previous: Option<string>,
                   comment: Option<string>, o: Options)
    requires 0 <= u < q <= e < |t| && q == u + Span(t[u..e], KeyChar) && t[q] != '=' && !o.keyOnly
    requires !IsSpace(t[u]) && !IsComment(t[u]) && t[u] != '['
    ensures TurnAt(t[u..e], section, previous, comment, o) == More(t[q..e], comment)
  {
    hide Span, SkipNewLine, TurnAt;
    var r := e;
    if q < e { r := e - |SkipNewLine(t[q..e])|; BreakAt(t, q, e); }
    KeyAt(t, u, q, r, e, section, previous, comment, o);
  }

  /** A key without '=', from u to q0: it takes over the value of the entry before. */
  method KeyAlone(buf: array<char>, u: nat, q0: nat, trail: nat, o: Options, ghost prev: Ptr, ghost section: string,
                  ghost previous: Option<string>,
                  ghost comment: Option<string>, ghost e: nat)
    returns (q: nat)
    requires Unread(buf[..], u, e) && u < q0 <= e && buf[q0] != '=' && u <= trail <= q0 && o.keyOnly
    requires !IsSpace(buf[u]) && !IsComment(buf[u]) && buf[u] != '['
    requires q0 == u + Span(buf[u..e], KeyChar) && trail == u + TrimLen(buf[u..q0])
    modifies buf
    ensures u < q <= e && AgreeOutside(old(buf[..]), buf[..], u, q)
    ensures var turn := TurnAt(old(buf[..])[u..e], section, previous, comment, o);
      turn.Done? && turn.step.Found?
        && KeyStep(buf[..], old(buf[..]), turn.step, At(u), prev, prev, previous, section, comment, u, q, e)
  {
    hide Span, TrimRight, SkipNewLine, ValueStep, TurnAt;
    ghost var t := buf[..];
    assert t[u..e] == buf[u..e] && t[q0..e] == buf[q0..e] && t[u..q0] == buf[u..q0];
    q := q0;
    if buf[q] != NUL { q := SkipBreak(buf, q, e); assert t[q..e] == buf[q..e]; }
    buf[trail] := NUL;
    KeyAt(t, u, q0, q, e, section, previous, comment, o);
    TrimmedStr(t, buf[..], u, q0, trail, e);
  }

  lemma BreakAt(t: seq<char>, q: int, e: int)
    requires 0 <= q < e <= |t|
    ensures var r := e - |SkipNewLine(t[q..e])|; q < r <= e && t[r..e] == SkipNewLine(t[q..e])
  {
    var s := t[q..e];
    var k := if s[0] == '\r' && |s| > 1 && s[1] == '\n' then 2 else 1;
    assert SkipNewLine(s) == s[k..];
    SliceOfSlice(t, q, e, k);
  }

  lemma SliceOfSlice(t: seq<char>, q: int, e: int, k: int)
    requires 0 <= q <= e <= |t| && 0 <= k <= e - q
    ensures t[q..e][k..] == t[q + k..e]
  {
  }

  lemma KeyNotEmpty(t: seq<char>, u: int, q: int, e: int)
    requires 0 <= u < e <= |t| && q == u + Span(t[u..e], KeyChar) && !IsSpace(t[u]) && u <= q <= e
    requires q < |t| && t[q] != '='
    ensures u < q
  {
    if q == u { FirstOfKey(t[u..e]); }
  }

  /** A key closed at trail, with the value behind its '=' at q0. */
  method KeyWithValue(buf: array<char>, u: nat, q0: nat, trail: nat, o: Options, ghost section: string,
                      ghost comment: Option<string>, ghost e: nat)
    returns (found: bool, val: Ptr, q: nat)
    requires Unread(buf[..], u, e) && u < q0 < e && buf[q0] == '=' && u <= trail <= q0
    requires trail == u + TrimLen(buf[u..q0])
    modifies buf
    ensures q0 < q <= e && (forall i :: 0 <= i < u ==> buf[i] == old(buf[i]))
    ensures found ==> AgreeOutside(old(buf[..]), buf[..], u, q) && val.At? && val.pos <= e
    ensures var step := ValueStep(TrimRight(old(buf[..])[u..q0]), old(buf[..])[q0 + 1..e], section, comment, o);
      && (!found ==> !step.Found?)
      && (step.Found? ==> KeyStep(buf[..], old(buf[..]), step, At(u), val, Null, None, section, comment, u, q, e))
  {
    hide Span, TrimRight, SkipNewLine, ValueStep;
    ghost var t := buf[..];
    ghost var name := TrimRight(t[u..q0]);
    assert t[u..q0] == buf[u..q0];
    buf[trail] := NUL;
    ghost var b := buf[..];
    assert b[q0 + 1..e] == t[q0 + 1..e];
    var v;
    found, v, q := FindValue(buf, q0 + 1, o, name, section, comment, e);
    val := if found then At(v.value) else Null;
    ghost var step := ValueStep(name, t[q0 + 1..e], section, comment, o);
    if step.Found? {
      assert b[q..e] == t[q..e];
      TrimmedStr(t, buf[..], u, q0, trail, e);
    }
  }

  // ---------- the next entry

  lemma CommentTurn(t: seq<char>, u: int, q: int, e: int, section: string, previous: Option<string>,
                    comment: Option<string>, o: Options)
    requires 0 <= u < e <= |t| && IsComment(t[u]) && u <= q <= e
    requires t[q..e] == CommentBlock(t[u..e], true).rest
    ensures TurnAt(t[u..e], section, previous, comment, o) == More(t[q..e], Some(CommentBlock(t[u..e], true).text))
  {
    hide CommentBlock, ValueStep, HeaderStep;
    assert t[u..e][0] == t[u];
  }

  lemma HeaderTurn(t: seq<char>, u: int, e: int, section: string, previous: Option<string>, comment: Option<string>,
                   o: Options)
    requires 0 <= u < e <= |t| && t[u] == '['
    ensures TurnAt(t[u..e], section, previous, comment, o) == Done(HeaderStep(Skip(t[u + 1..e], IsSpace), comment))
    ensures !HeaderStep(Skip(t[u + 1..e], IsSpace), comment).Finish?
  {
    hide CommentBlock, ValueStep, Skip;
    assert t[u..e][0] == t[u] && t[u..e][1..] == t[u + 1..e];
  }

  /** What FindEntry hands out for the step of the grammar that it has taken. */
  ghost predicate EntryFound(b: seq<char>, t: seq<char>, step: Step, section: Ptr, key: Ptr, val: Ptr, comment: Ptr,
                             section0: Ptr, prev: Ptr, name: string, previous: Option<string>, p: int, e: int)
    requires 0 <= p <= e <= |t| && step.Found?
  {
    && step.rest == t[p..e]
    && (if step.entry.key.None?
        then Settled(b, section, Some(step.entry.section), p, e) && key == Null && val == Null && step.entry.value.None?
        else section == section0 && step.entry.section == name && Settled(b, key, step.entry.key, p, e)
             && (Settled(b, val, step.entry.value, p, e) || (val == prev && step.entry.value == previous)))
    && Settled(b, comment, step.entry.comment, p, e)
  }

  lemma EntryFromKey(b0: seq<char>, b: seq<char>, t: seq<char>, step: Step, section0: Ptr, key: Ptr, val: Ptr,
                     comment: Ptr,
                     prev: Ptr, name: string, previous: Option<string>, pending: Option<string>, c0: int, u: int,
                     p: int, e: int)
    requires 0 <= c0 <= u <= p <= e < |t| && |b0| == |t| && Unread(b0, c0, e) && step.Found?
    requires t[p..e] == b0[p..e] && AgreeOutside(b0, b, u, p) && Settled(b0, comment, pending, c0, e)
    requires KeyStep(b, b0, step, key, val, prev, previous, name, pending, u, p, e)
    ensures EntryFound(b, t, step, section0, key, val, comment, section0, prev, name, previous, p, e)
  {
    hide Settled;
    SettledStays(b0, b, comment, pending, c0, p, e);
  }

  lemma EntryFromHeader(b0: seq<char>, b: seq<char>, t: seq<char>, step: Step, start: int, comment: Ptr,
                        section0: Ptr, prev: Ptr, name: string, previous: Option<string>, pending: Option<string>,
                        c0: int, u: int, p: int, e: int)
    requires 0 <= c0 <= u <= p <= e < |t| && |b0| == |t| && Unread(b0, c0, e) && step.Found? && 0 <= start
    requires t[p..e] == b0[p..e] && AgreeOutside(b0, b, u, p) && Settled(b0, comment, pending, c0, e)
    requires step.rest == b0[p..e] && step.entry == Entry(step.entry.section, None, None, pending)
    requires IsCStr(b, start, step.entry.section) && start + |step.entry.section| < p
    ensures EntryFound(b, t, step, At(start), Null, Null, comment, section0, prev, name, previous, p, e)
  {
    SettledStays(b0, b, comment, pending, c0, p, e);
  }

  lemma NullSettled(b: seq<char>, p: int, e: int)
    ensures Settled(b, Null, None, p, e)
  {
  }

  lemma NothingLeft(section: string, previous: Option<string>, comment: Option<string>, o: Options)
    ensures Next("", section, previous, comment, o) == Finish
    ensures TurnAt("", section, previous, comment, o) == Done(Finish)
  {
    hide CommentBlock, ValueStep, HeaderStep;
  }

  ghost predicate InBuffer(ptr: Ptr, e: int) { ptr.At? ==> ptr.pos <= e }

  /** A comment that starts at u becomes the pending comment. */
  method TakeComment(buf: array<char>, u: nat, ghost name: string, ghost previous: Option<string>,
                     ghost pending: Option<string>, ghost o: Options, ghost e: nat)
    returns (p: nat, comment: Ptr, ghost text: string)
    requires Unread(buf[..], u, e) && IsComment(buf[u])
    modifies buf
    ensures u < p <= e && AgreeOutside(old(buf[..]), buf[..], u, p) && comment == At(u)
    ensures Settled(buf[..], comment, Some(text), p, e)
    ensures TurnAt(old(buf[..])[u..e], name, previous, pending, o) == More(old(buf[..])[p..e], Some(text))
  {
    hide CommentBlock, TurnAt, IsCStr;
    ghost var b := buf[..];
    assert b[u..e] == buf[u..e];
    text := CommentBlock(b[u..e], true).text;
    var c;
    p, c := LoadComment(buf, u, true, e);
    comment := At(u);
    assert b[p..e] == old(buf[p..e]);
    CommentTurn(b, u, p, e, name, previous, pending, o);
  }

  /** One turn of the reader's loop, at a character u that is not white space. The strings pending stands for
      is settled unless the reader has lost its place before. */
  method EntryTurn(buf: array<char>, ghost c0: nat, u: nat, section0: Ptr, prev: Ptr, comment0: Ptr, o: Options,
                   ghost name: string, ghost previous: Option<string>, ghost pending: Option<string>, ghost lost: bool,
                   ghost e: nat)
    returns (more: bool, found: bool, p: nat, section: Ptr, key: Ptr, val: Ptr,
             comment: Ptr, ghost pending2: Option<string>)
    requires Unread(buf[..], c0, e) && c0 <= u < e && !IsSpace(buf[u])
    requires InBuffer(section0, e) && InBuffer(prev, e) && InBuffer(comment0, e)
    requires lost || Settled(buf[..], comment0, pending, c0, e)
    modifies buf
    ensures u < p <= e && (forall i :: 0 <= i < u ==> buf[i] == old(buf[i]))
    ensures more || found ==> AgreeOutside(old(buf[..]), buf[..], u, p)
    ensures more ==> !found && InBuffer(section, e) && InBuffer(comment, e)
    ensures found ==> InBuffer(section, e) && InBuffer(key, e) && InBuffer(val, e) && InBuffer(comment, e)
    ensures more ==>
      (var turn := TurnAt(old(buf[..])[u..e], name, previous, pending, o);
       turn == Done(Malformed)
       || (turn == More(old(buf[..])[p..e], pending2) && section == section0
           && (lost || Settled(buf[..], comment, pending2, p, e))))
    ensures !more ==> (var turn := TurnAt(old(buf[..])[u..e], name, previous, pending, o);
      turn.Done? && turn.step != Finish)
    ensures var turn := TurnAt(old(buf[..])[u..e], name, previous, pending, o);
      !more && turn.step.Found? && !lost ==>
        found
          && EntryFound(buf[..], old(buf[..]), turn.step, section, key, val, comment, section0, prev, name, previous,
                        p, e)
  {
    hide CommentBlock, ValueStep, HeaderStep, Span, TurnAt, KeyStep, EntryFound, Settled, IsCStr, Skip;
    ghost var b := buf[..];
    assert b[u..e] == buf[u..e];
    more, found, section, key, val, comment, pending2 := true, false, section0, Null, prev, comment0, pending;
    if IsComment(buf[u]) {
      ghost var text;
      p, comment, text := TakeComment(buf, u, name, previous, pending, o, e);
      pending2 := Some(text);
    } else if buf[u] == '[' {
      var start;
      HeaderTurn(b, u, e, name, previous, pending, o);
      found, start, p := FindHeader(buf, u, pending, e);
      section := At(start);
      more := !found;
      if found {
        val := Null;
        if !lost {
          EntryFromHeader(b, buf[..], b, HeaderStep(Skip(b[u + 1..e], IsSpace), pending), start, comment0, section0,
                          prev, name, previous, pending, c0, u, p, e);
        }
      }
    } else {
      more, found, key, val, p := KeyLine(buf, u, o, prev, name, previous, pending, e);
      if more {
        SettledStaysUnless(lost, b, buf[..], comment0, pending, c0, p, e);
      } else {
        ghost var step := TurnAt(b[u..e], name, previous, pending, o).step;
        if step.Found? && !lost {
          EntryFromKey(b, buf[..], b, step, section0, key, val, comment0, prev, name, previous, pending, c0, u, p, e);
        }
      }
    }
  }

  lemma EntryFoundIn(b: seq<char>, b0: seq<char>, t: seq<char>, step: Step, section: Ptr, key: Ptr, val: Ptr,
                     comment: Ptr,
                     section0: Ptr, prev: Ptr, name: string, previous: Option<string>, p: int, e: int)
    requires 0 <= p <= e <= |t| == |b0| && step.Found? && b0[p..e] == t[p..e]
    requires EntryFound(b, b0, step, section, key, val, comment, section0, prev, name, previous, p, e)
    ensures EntryFound(b, t, step, section, key, val, comment, section0, prev, name, previous, p, e)
  {
    hide Settled;
  }

  /** The next entry of the buffer. section0 and prev are the pointers the call before left behind, name and
      previous the strings they stand for. The cursor advances, text behind it stays as it is, and nothing
      in front of where it started is changed. The entry is the one of the grammar on the text as it was. */
  method FindEntry(buf: array<char>, p0: nat, section0: Ptr, prev: Ptr, o: Options,
                   ghost name: string, ghost previous: Option<string>, ghost e: nat)
    returns (found: bool, p: nat, section: Ptr, key: Ptr, val: Ptr, comment: Ptr)
    requires Unread(buf[..], p0, e) && InBuffer(section0, e) && InBuffer(prev, e)
    modifies buf
    ensures p0 <= p <= e && (forall i :: 0 <= i < p0 ==> buf[i] == old(buf[i]))
    ensures found ==> p0 < p && AgreeOutside(old(buf[..]), buf[..], p0, p)
    ensures found ==> InBuffer(section, e) && InBuffer(key, e) && InBuffer(val, e) && InBuffer(comment, e)
    ensures var step := Next(old(buf[..])[p0..e], name, previous, None, o);
      && (step.Finish? ==> !found && AgreeOutside(old(buf[..]), buf[..], p0, p))
      && (step.Found? ==>
          found && EntryFound(buf[..], old(buf[..]), step, section, key, val, comment, section0, prev, name, previous,
                              p, e))
  {
    hide Span, TurnAt, Next, EntryFound, Settled;
    ghost var t := buf[..];
    ghost var step := Next(t[p0..e], name, previous, None, o);
    ghost var pending: Option<string> := None;
    found, p, section, key, val, comment := false, p0, section0, Null, prev, Null;
    NullSettled(buf[..], p0, e);
    while buf[p] != NUL
      invariant p0 <= p <= e && AgreeOutside(t, buf[..], p0, p)
      invariant InBuffer(section, e) && InBuffer(comment, e) && !found
      invariant step.Malformed? || (section == section0 && Settled(buf[..], comment, pending, p, e)
                                    && step == Next(t[p..e], name, previous, pending, o))
      decreases e - p
    {
      ghost var b, c0 := buf[..], p;
      assert t[p..e] == b[p..e] == buf[p..e];
      var u := ScanWhile(buf, p, IsSpace, e);
      NextAt(t, p, u, e, name, previous, pending, o);
      assert b[u..e] == t[u..e];
      if buf[u] == NUL {
        p := u;
        break;
      }
      assert buf[u] == t[u];
      var more;
      more, found, p, section, key, val, comment, pending :=
        EntryTurn(buf, c0, u, section, prev, comment, o, name, previous, pending, step.Malformed?, e);
      assert b[p..e] == t[p..e];
      if !more {
        if step.Found? {
          EntryFoundIn(buf[..], b, t, step, section, key, val, comment, section0, prev, name, previous, p, e);
        }
        return;
      }
    }
    NothingLeft(name, previous, pending, o);
  }
}
