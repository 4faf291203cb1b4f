/** The loops of the writer. */
module IniWriter {
  import opened IniText
  import opened IniGrammar
  import opened IniDocument
  import opened IniSpelling
  import opened IniTable
  import opened IniView

  /** OutputMultiLineText: every line followed by the platform's newline. */
  method WriteLines(text: string, nl: string) returns (out: string)
    ensures out == Output(text, nl)
  {
    out := "";
    if text == "" { return; }
    var rest := text;
    var more := true;
    while more
      invariant more ==> out + Lines(rest, nl) == Lines(text, nl)
      invariant !more ==> out == Lines(text, nl)
      decreases more, |rest|
    {
      var n := 0;
      while n < |rest| && rest[n] != '\n'
        invariant n <= |rest| && forall i :: 0 <= i < n ==> NotLF(rest[i])
      {
        n := n + 1;
      }
      SpanIs(rest, NotLF, n);
      LinesStep(rest, nl, n, out);
      out := out + rest[..n] + nl;
      more := n < |rest|;
      if more { rest := rest[n + 1..]; }
    }
  }

  lemma {:induction false} LinesStep(rest: string, nl: string, n: nat, out: string)
    requires n == Span(rest, NotLF)
    ensures out + Lines(rest, nl) == out + rest[..n] + nl + (if n == |rest| then "" else Lines(rest[n + 1..], nl))
  {
    hide Span;
    if n == |rest| {
      assert rest[..n] == rest && out + (rest + nl) == out + rest + nl + "";
    } else {
      var more := Lines(rest[n + 1..], nl);
      assert Lines(rest, nl) == rest[..n] + nl + more;
      assert out + (rest[..n] + nl + more) == out + rest[..n] + nl + more;
    }
  }

  lemma {:induction false} KeysStep(keys: seq<Key>, i: nat, out: string, text: string, o: Options, nl: string)
    requires i < |keys| && text == PrintVals(keys[i].name, keys[i].vals, o, nl)
    ensures out + PrintKeys(keys[i..], o, nl) == out + text + PrintKeys(keys[i + 1..], o, nl)
  {
    hide PrintVals;
    assert keys[i..][1..] == keys[i + 1..];
    assert out + (text + PrintKeys(keys[i + 1..], o, nl)) == out + text + PrintKeys(keys[i + 1..], o, nl);
  }

  lemma {:induction false} SectionsStep(ds: seq<Sect>, i: nat, gap: bool, out: string, head: string, keys: string,
                                        o: Options, nl: string)
    requires i < |ds| && head == PrintHeader(ds[i], nl) && keys == PrintKeys(ds[i].keys, o, nl)
    ensures out + PrintSections(ds[i..], gap, o, nl)
      == out + (if gap then nl + nl else "") + head + keys + PrintSections(ds[i + 1..], true, o, nl)
  {
    hide PrintKeys, PrintHeader;
    var space := if gap then nl + nl else "";
    var more := PrintSections(ds[i + 1..], true, o, nl);
    assert ds[i..][1..] == ds[i + 1..];
    assert PrintSections(ds[i..], gap, o, nl) == space + head + keys + more;
    assert out + (space + head + keys + more) == out + space + head + keys + more;
  }

  lemma NothingPrinted(o: Options, nl: string, gap: bool)
    ensures PrintKeys([], o, nl) == "" && PrintSections([], gap, o, nl) == ""
  {
  }

  /** Does the value need more than one line, or white space kept? */
  method CheckMultiLineData(v: string) returns (r: bool)
    ensures r == IsMultiLineData(v)
  {
    if v == "" { return false; }
    if IsSpace(v[0]) { return true; }
    var i := 0;
    while i < |v|
      invariant i <= |v| && forall k :: 0 <= k < i ==> !IsNewLine(v[k])
    {
      if IsNewLine(v[i]) { return true; }
      i := i + 1;
    }
    return IsSpace(v[i - 1]);
  }

  method CheckSingleLineQuoted(v: string) returns (r: bool)
    ensures r == IsSingleLineQuotedValue(v)
  {
    if v == "" { return false; }
    if IsSpace(v[0]) { return true; }
    var i := 0;
    while i < |v|
      invariant i <= |v| && forall k :: 0 <= k < i ==> !IsNewLine(v[k])
    {
      if IsNewLine(v[i]) { return false; }
      i := i + 1;
    }
    return IsSpace(v[i - 1]);
  }

  method WriteValue(v: string, o: Options, nl: string) returns (out: string)
    ensures out == PrintValue(v, o, nl)
  {
    var quoted := false;
    if o.quotes { quoted := CheckSingleLineQuoted(v); }
    if quoted { return "\"" + v + "\""; }
    var lines := false;
    if o.multiLine { lines := CheckMultiLineData(v); }
    if lines {
      var text := WriteLines(v, nl);
      return "<<<" + TAG + nl + text + TAG;
    }
    return v;
  }

  /** All values of a key, each with its comment above it. */
  method WriteVals(key: string, vals: seq<Name>, o: Options, nl: string) returns (out: string)
    ensures out == PrintVals(key, NameVals(vals), o, nl)
  {
    hide PrintVal;
    out := "";
    var i := 0;
    while i < |vals|
      invariant i <= |vals| && out + PrintVals(key, NameVals(vals)[i..], o, nl) == PrintVals(key, NameVals(vals), o, nl)
    {
      var v := vals[i];
      ghost var rest := NameVals(vals)[i..];
      assert rest[0] == Val(v.item, v.comment) && rest[1..] == NameVals(vals)[i + 1..];
      var one := WriteVal(key, v, o, nl);
      assert out + (one + PrintVals(key, rest[1..], o, nl)) == out + one + PrintVals(key, rest[1..], o, nl);
      out := out + one;
      i := i + 1;
    }
    assert NameVals(vals)[i..] == [];
  }

  method WriteVal(key: string, v: Name, o: Options, nl: string) returns (out: string)
    ensures out == PrintVal(key, Val(v.item, v.comment), o, nl)
    ensures v.comment.None? && !InQuotes(v.item, o) && !InLines(v.item, o) ==>
      out == key + (if v.item == "" && o.keyOnly then "" else (if o.spaces then " = " else "=") + v.item) + nl
  {
    hide PrintValue, Output, InQuotes, InLines;
    out := "";
    if v.comment.Some? {
      var text := WriteLines(v.comment.value, nl);
      out := nl + text;
    }
    out := out + key;
    if v.item != "" || !o.keyOnly {
      var text := WriteValue(v.item, o, nl);
      out := out + (Equals(o) + text);
    }
    out := out + nl;
    if v.comment.None? && !InQuotes(v.item, o) && !InLines(v.item, o) { RawLine(key, v.item, o, nl); }
  }

  function NameVals(ns: seq<Name>): seq<Val> {
    seq(|ns|, i requires 0 <= i < |ns| => Val(ns[i].item, ns[i].comment))
  }

  /** The nameless section is looked for and moved to the front. */
  method MoveNamelessFirst(ns: seq<Name>) returns (rs: seq<Name>)
    ensures rs == NamelessFirst(ns)
  {
    rs := ns;
    var i := 0;
    while i < |ns|
      invariant i <= |ns| && rs == ns && forall k :: 0 <= k < i ==> ns[k].item != ""
    {
      if ns[i].item == "" {
        NamelessIs(ns, i);
        if i != 0 { rs := [ns[i]] + ns[..i] + ns[i + 1..]; }
        else { assert ns == [ns[0]] + ns[..0] + ns[1..]; }
        return;
      }
      i := i + 1;
    }
    NamelessIs(ns, |ns|);
  }

}
