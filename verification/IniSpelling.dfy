/** What the writer puts out, written out, and which texts it can print, character by character. */
module IniSpelling {
  import opened Basics
  import opened IniText
  import opened IniGrammar
  import opened IniDocument
  import opened IniSyntax

  // ---------- the line of a value

  predicate WhiteAt(v: string, i: int) { 0 <= i < |v| && !NotWhite(v[i]) }

  /** White space in front, or behind a text of one line. */
  predicate InQuotes(v: string, o: Options) { o.quotes && (WhiteAt(v, 0) || (OneLine(v) && WhiteAt(v, |v| - 1))) }

  /** White space at an end, or more than one line. */
  predicate InLines(v: string, o: Options) {
    !InQuotes(v, o) && o.multiLine && (WhiteAt(v, 0) || !OneLine(v) || WhiteAt(v, |v| - 1))
  }

  lemma FormIs(v: string, o: Options)
    ensures InQuotes(v, o) <==> o.quotes && IsSingleLineQuotedValue(v)
    ensures InLines(v, o) <==> !InQuotes(v, o) && o.multiLine && IsMultiLineData(v)
  {
  }

  /** The option for spaces puts blanks around '='; with key-only on an empty value has no '='. */
  lemma RawLine(key: string, v: string, o: Options, nl: string)
    requires !InQuotes(v, o) && !InLines(v, o)
    ensures v == "" && o.keyOnly ==> PrintVal(key, Val(v, None), o, nl) == key + nl
    ensures !(v == "" && o.keyOnly) && o.spaces ==> PrintVal(key, Val(v, None), o, nl) == key + " = " + v + nl
    ensures !(v == "" && o.keyOnly) && !o.spaces ==> PrintVal(key, Val(v, None), o, nl) == key + "=" + v + nl
  {
    FormIs(v, o);
    assert PrintValue(v, o, nl) == v;
    assert "" + key == key && key + "" == key && key + (Equals(o) + v) == key + Equals(o) + v;
  }

  lemma QuotedLine(key: string, v: string, o: Options, nl: string)
    requires InQuotes(v, o)
    ensures PrintVal(key, Val(v, None), o, nl) == key + (if o.spaces then " = " else "=") + "\"" + v + "\"" + nl
  {
    FormIs(v, o);
    var q := "\"" + v + "\"";
    assert PrintValue(v, o, nl) == q && "" + key == key;
    assert key + (Equals(o) + q) + nl == key + Equals(o) + "\"" + v + "\"" + nl;
  }

  /** Every line feed of a text becomes the line break of the platform, and there is one more at the end. */
  lemma {:induction false} LinesAre(ls: seq<string>, nl: string)
    requires ls != [] && forall i :: 0 <= i < |ls| ==> OneLine(ls[i])
    ensures Lines(Join(ls), nl) == Broken(ls, nl)
  {
    hide Span;
    var line := ls[0];
    if |ls| == 1 {
      SpanIs(line, NotLF, |line|);
      assert ls[1..] == [];
      assert line + nl + "" == line + nl;
    } else {
      var rest := Join(ls[1..]);
      LinesAre(ls[1..], nl);
      var s := line + "\n" + rest;
      SpanIs(s, NotLF, |line|);
      assert s[..|line|] == line && s[|line| + 1..] == rest;
    }
  }

  lemma OutputIs(ls: seq<string>, nl: string)
    requires ls != [] && (forall i :: 0 <= i < |ls| ==> OneLine(ls[i])) && Join(ls) != ""
    ensures Output(Join(ls), nl) == Broken(ls, nl)
  {
    hide Lines;
    LinesAre(ls, nl);
  }

  lemma HereLines(key: string, ls: seq<string>, o: Options, nl: string)
    requires ls != [] && (forall i :: 0 <= i < |ls| ==> OneLine(ls[i])) && InLines(Join(ls), o)
    ensures PrintVal(key, Val(Join(ls), None), o, nl)
      == key + (if o.spaces then " = " else "=") + "<<<END_OF_TEXT" + nl + Broken(ls, nl) + "END_OF_TEXT" + nl
  {
    hide Output, Join, Broken;
    var v := Join(ls);
    FormIs(v, o);
    assert v != "";
    OutputIs(ls, nl);
    var q := "<<<" + TAG + nl + Broken(ls, nl) + TAG;
    assert PrintValue(v, o, nl) == q && "" + key == key && "<<<" + TAG == "<<<END_OF_TEXT";
    Assoc(key, Equals(o), "<<<END_OF_TEXT", nl, Broken(ls, nl), TAG, nl);
  }

  lemma Assoc(a: string, b: string, c: string, d: string, e: string, f: string, g: string)
    ensures a + (b + (c + d + e + f)) + g == a + b + c + d + e + f + g
  {
  }

  /** A comment stands above its value, behind an empty line. */
  lemma CommentAbove(key: string, v: string, ls: seq<string>, o: Options, nl: string)
    requires ls != [] && (forall i :: 0 <= i < |ls| ==> OneLine(ls[i])) && Join(ls) != ""
    ensures PrintVal(key, Val(v, Some(Join(ls))), o, nl) == nl + Broken(ls, nl) + PrintVal(key, Val(v, None), o, nl)
  {
    hide Output, Join, Broken, PrintValue;
    OutputIs(ls, nl);
    var line := key + (if v == "" && o.keyOnly then "" else Equals(o) + PrintValue(v, o, nl));
    assert PrintVal(key, Val(v, None), o, nl) == line + nl by { assert "" + key == key; }
    assert PrintVal(key, Val(v, Some(Join(ls))), o, nl) == nl + Broken(ls, nl) + line + nl by {
      LinePart(nl + Broken(ls, nl), key, if v == "" && o.keyOnly then "" else Equals(o) + PrintValue(v, o, nl), nl);
    }
    LinePart(nl + Broken(ls, nl), line, nl, "");
  }

  /** Of a comment without text, only the empty line is left. */
  lemma EmptyComment(key: string, v: string, o: Options, nl: string)
    ensures PrintVal(key, Val(v, Some("")), o, nl) == nl + PrintVal(key, Val(v, None), o, nl)
    ensures PrintComment(Some(""), nl) == ""
  {
    hide PrintValue, Lines;
    var tail := if v == "" && o.keyOnly then "" else Equals(o) + PrintValue(v, o, nl);
    assert PrintVal(key, Val(v, Some("")), o, nl) == nl + "" + key + tail + nl;
    assert PrintVal(key, Val(v, None), o, nl) == "" + key + tail + nl;
    assert nl + "" + key + tail + nl == nl + ("" + key + tail + nl);
  }

  lemma LinePart(a: string, b: string, c: string, d: string)
    ensures a + b + c + d == a + (b + c) + d
    ensures a + (b + c) + "" == a + (b + c)
  {
  }

  // ---------- headers and sections

  function CommentLines(c: Option<seq<string>>, nl: string): string { if c.None? then "" else Broken(c.value, nl) }

  function Comment(c: Option<seq<string>>): Option<string>
    requires c.Some? ==> c.value != []
  {
    if c.None? then None else Some(Join(c.value))
  }

  predicate Above(c: Option<seq<string>>) {
    c.Some? ==> c.value != [] && (forall i :: 0 <= i < |c.value| ==> OneLine(c.value[i])) && Join(c.value) != ""
  }

  /** Sections are set off by two line breaks. A section starts with its comment and its name in brackets; the nameless
      one has no brackets. */
  lemma SectionLines(name: string, c: Option<seq<string>>, keys: seq<Key>, more: seq<Sect>, gap: bool, o: Options,
                     nl: string)
    requires Above(c)
    ensures PrintSections([Sect(name, Comment(c), keys)] + more, gap, o, nl) ==
      (if gap then nl + nl else "") + CommentLines(c, nl) + (if name == "" then "" else "[" + name + "]" + nl)
      + PrintKeys(keys, o, nl) + PrintSections(more, true, o, nl)
  {
    hide Output, Join, Broken, PrintKeys;
    if c.Some? { OutputIs(c.value, nl); }
    var ds := [Sect(name, Comment(c), keys)] + more;
    assert ds[1..] == more;
    assert PrintHeader(ds[0], nl) == CommentLines(c, nl) + (if name == "" then "" else "[" + name + "]" + nl);
    LinePart(if gap then nl + nl else "", CommentLines(c, nl), if name == "" then "" else "[" + name + "]" + nl,
             PrintKeys(keys, o, nl));
  }

  /** The file comment comes first, and the first section is set off from it; without it nothing is. */
  lemma FileLines(c: Option<seq<string>>, ds: seq<Sect>, o: Options, nl: string)
    requires Above(c)
    ensures Print(Doc(Comment(c), ds), o, nl) == CommentLines(c, nl) + PrintSections(ds, c.Some?, o, nl)
  {
    hide Output, Join, Broken, PrintSections;
    if c.Some? { OutputIs(c.value, nl); }
  }

  /** The values of a key, and the keys of a section, follow each other without a gap. */
  lemma KeyLines(key: string, vals: seq<Val>, more: seq<Key>, o: Options, nl: string)
    ensures PrintKeys([Key(key, [])] + more, o, nl) == PrintKeys(more, o, nl)
    ensures vals != [] ==>
      PrintKeys([Key(key, vals)] + more, o, nl)
        == PrintVal(key, vals[0], o, nl) + PrintKeys([Key(key, vals[1..])] + more, o, nl)
  {
    hide PrintVal;
    assert ([Key(key, [])] + more)[1..] == more && "" + PrintKeys(more, o, nl) == PrintKeys(more, o, nl);
    if vals != [] {
      assert ([Key(key, vals)] + more)[1..] == more && ([Key(key, vals[1..])] + more)[1..] == more;
      LinePart("", PrintVal(key, vals[0], o, nl), PrintVals(key, vals[1..], o, nl), PrintKeys(more, o, nl));
    }
  }

  // ---------- what can be printed

  predicate NulFree(s: string) { forall i :: 0 <= i < |s| ==> s[i] != '\0' }

  lemma KeyNameIs(s: string)
    ensures KeyNameOk(s) <==> KeyText(s) && NulFree(s)
  {
    hide TrimLen;
    if KeyNameOk(s) {
      forall i | 0 <= i < |s| ensures s[i] != '=' && s[i] != '\n' && s[i] != '\r' && s[i] != '\0' { assert s[i] in s; }
    }
  }

  lemma SectionNameIs(s: string)
    ensures SectionNameOk(s) <==>
      s != "" && OneLine(s) && Tight(s) && NulFree(s) && forall i :: 0 <= i < |s| ==> s[i] != ']'
  {
    hide TrimLen;
    if SectionNameOk(s) {
      forall i | 0 <= i < |s| ensures s[i] != ']' && s[i] != '\n' && s[i] != '\r' && s[i] != '\0' { assert s[i] in s; }
    }
  }

  /** Every line of a comment starts with ';' or '#'; with blanks, empty lines may stand between them. */
  predicate CommentText(s: string, blanks: bool) {
    && CommentAhead(s) && NulFree(s)
    && forall i :: 0 <= i < |s| ==> s[i] != '\r' && (s[i] == '\n' ==> GoesOn(s, i, blanks))
  }

  predicate GoesOn(s: string, i: int, blanks: bool) {
    0 <= i && i + 1 < |s| && (s[i + 1] == ';' || s[i + 1] == '#' || (blanks && s[i + 1] == '\n'))
  }

  lemma {:induction false} CommentIs(s: string, blanks: bool)
    ensures CommentOk(s, blanks) <==> CommentText(s, blanks)
    decreases |s|
  {
    hide Span;
    var n := Span(s, NotLF);
    if n < |s| && CommentAhead(s) {
      var t := NextLines(s, blanks);
      CommentIs(t, blanks);
      var k := |s| - |t|;
      assert t == s[k..] && n < k;
      assert forall i :: n < i < k ==> s[i] == '\n' && blanks;
      BehindLine(s, n, k, blanks);
    }
    LiteralChars(s);
  }

  lemma LiteralChars(s: string)
    ensures NoNul(s) <==> NulFree(s)
    ensures '\r' !in s <==> forall i :: 0 <= i < |s| ==> s[i] != '\r'
  {
  }

  lemma BehindLine(s: string, n: nat, k: nat, blanks: bool)
    requires n < k <= |s| && (forall i :: 0 <= i < n ==> s[i] != '\n')
    requires (forall i :: n <= i < k ==> s[i] == '\n') && (k > n + 1 ==> blanks)
    requires blanks && k < |s| ==> s[k] != '\n'
    requires CommentAhead(s)
    ensures CommentText(s, blanks) <==>
      (forall i :: 0 <= i < |s| ==> s[i] != '\r' && s[i] != '\0') && CommentText(s[k..], blanks)
  {
    var t := s[k..];
    forall i | 0 <= i < |t| ensures t[i] == s[k + i] && (GoesOn(t, i, blanks) <==> GoesOn(s, k + i, blanks)) { }
    if CommentText(s, blanks) {
      assert GoesOn(s, k - 1, blanks);
      assert CommentText(t, blanks);
    }
    if CommentText(t, blanks) && forall i :: 0 <= i < |s| ==> s[i] != '\r' && s[i] != '\0' {
      forall i | 0 <= i < |s| && s[i] == '\n' ensures GoesOn(s, i, blanks) {
        if i >= k { assert t[i - k] == '\n'; } else if i == k - 1 { assert t[0] == s[k]; }
      }
    }
  }
}
