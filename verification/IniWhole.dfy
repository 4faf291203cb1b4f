/** Whole calls, written out: what loading a text and saving an object give, character by character. */
module IniWhole {
  import opened Basics
  import opened IniText
  import opened IniOrder
  import opened IniGrammar
  import opened IniDocument
  import opened IniSyntax
  import opened IniSpelling
  import opened IniTable
  import opened IniView
  import opened IniBuildDocument
  import opened IniLaws
  import opened IniRoundTrip

  // ---------- what is received

  /** Of the data, a mark of the bytes EF BB BF in front is taken off, and everything from the first NUL on is
      ignored. */
  lemma ReceivedText(text: string, junk: string)
    requires NulFree(text) && (junk == "" || junk[0] == '\0')
    ensures Received("\U{EF}\U{BB}\U{BF}" + text + junk) == text
    ensures !("\U{EF}\U{BB}\U{BF}" <= text) ==> Received(text + junk) == text
  {
    ScanBlock(text, junk, NotNul);
    var marked := "\U{EF}\U{BB}\U{BF}" + text + junk;
    assert BOM <= marked && marked[3..] == text + junk;
    if !("\U{EF}\U{BB}\U{BF}" <= text) { NoMark(text, junk); }
  }

  lemma NoMark(text: string, junk: string)
    requires !("\U{EF}\U{BB}\U{BF}" <= text) && (junk == "" || junk[0] == '\0')
    ensures !(BOM <= text + junk)
  {
    if |text| >= 3 {
      assert (text + junk)[..3] == text[..3];
    } else if junk != "" {
      assert (text + junk)[|text|] == '\0';
    }
  }

  lemma SavedMark(ini: Ini, o: Options, nl: string)
    ensures Save(ini, true, o, nl) == "\U{EF}\U{BB}\U{BF}" + Save(ini, false, o, nl)
  {
    hide Print, DocOf;
  }

  // ---------- a comment at the front of a text

  /** The first text that starts with a comment gives the file comment. When there is one already, the comment goes to
      the first entry of the text. */
  lemma LeadingComment(ini: Ini, x: char, c: string, br: string, rest: string, o: Options)
    requires (x == ';' || x == '#') && OneLine(c) && Ends(br, rest) && !CommentComes(rest)
    requires NulFree([x] + c + br + rest)
    ensures var text := [x] + c + br + rest;
      LoadInto(ini, text, o) ==
        if ini.fileComment.None?
        then Ini(Some([x] + c), AddAll(ini.table, Parse(rest, "", None, o).entries, o.multiKey))
        else Ini(ini.fileComment, AddAll(ini.table, Commented(rest, [x] + c, o), o.multiKey))
  {
    hide Parse, Next, AddAll, FileComment, Body, Received, CommentComes, Ends;
    var text := [x] + c + br + rest;
    assert text[0] == x;
    ReceivedText(text, "");
    assert text + "" == text;
    NotAhead(rest);
    FileCommentLine(x, c, br, rest);
    ParseCommented(x, c, br, rest, o);
  }

  lemma NotAhead(rest: string)
    requires !CommentComes(rest)
    ensures !CommentAhead(rest)
  {
    assert rest[..0] == "" && rest[0..] == rest;
    assert White(rest[..0]);
  }

  /** The entries of a text, the first one under a comment. */
  function Commented(rest: string, comment: string, o: Options): seq<Entry> {
    match Next(rest, "", None, Some(comment), o)
    case Found(e, r) => [e] + Parse(r, e.section, e.value, o).entries
    case _ => []
  }

  lemma ParseCommented(x: char, c: string, br: string, rest: string, o: Options)
    requires (x == ';' || x == '#') && OneLine(c) && Ends(br, rest) && !CommentComes(rest)
    ensures Parse([x] + c + br + rest, "", None, o).entries == Commented(rest, [x] + c, o)
  {
    hide Next, CommentComes, Ends;
    CommentLine(x, c, br, rest, "", None, None, o);
  }

  // ---------- one key of one section

  /** A section with one key, and a comment above that. */
  function ConfigText(section: string, x: char, c: string, key: string, val: string): string {
    "[" + section + "]\n" + [x] + c + "\n" + key + "=" + val + "\n"
  }

  predicate Config(section: string, x: char, c: string, key: string, val: string, o: Options) {
    && section != "" && OneLine(section) && Tight(section) && (forall i :: 0 <= i < |section| ==> section[i] != ']')
    && (x == ';' || x == '#') && OneLine(c) && KeyText(key) && PlainText(val, o)
    && NulFree(section) && NulFree(c) && NulFree(key) && NulFree(val)
  }

  lemma ConfigEntries(section: string, x: char, c: string, key: string, val: string, o: Options)
    requires Config(section, x, c, key, val, o)
    ensures EntriesOf(ConfigText(section, x, c, key, val), o) ==
      Parsed([Entry(section, None, None, None), Entry(section, Some(key), Some(val), Some([x] + c))], true)
    ensures FileComment(Received(ConfigText(section, x, c, key, val))) == None
  {
    hide Next, Received, Parse, KeyText, PlainText, Tight, Body, FileComment;
    var text := ConfigText(section, x, c, key, val);
    var line := key + "=" + val + "\n";
    var after := "\n" + [x] + c + "\n" + line;
    ConfigReceived(section, x, c, key, val, o);
    NoFileComment(text);
    assert text == "" + "[" + "" + section + "" + "]" + "" + after;
    HeaderLine("", "", section, "", "", after, "", None, None, o);
    NextParsed(text, "", None, o);
    CommentedKey(x, c, key, val, section, o);
    NextParsed(after, section, None, o);
    NothingLeft("", section, Some(val), None, o);
    NextParsed("", section, Some(val), o);
  }

  lemma CommentedKey(x: char, c: string, key: string, val: string, section: string, o: Options)
    requires (x == ';' || x == '#') && OneLine(c) && KeyText(key) && PlainText(val, o)
    ensures Next("\n" + [x] + c + "\n" + (key + "=" + val + "\n"), section, None, None, o)
      == Found(Entry(section, Some(key), Some(val), Some([x] + c)), "")
  {
    hide Next, PlainText;
    var line := key + "=" + val + "\n";
    var s := [x] + c + "\n" + line;
    assert "\n" + [x] + c + "\n" + line == "\n" + s;
    NextSkipsSpace("\n", s, section, None, None, o);
    KeyNoComment(key, "=" + val + "\n");
    assert key + ("=" + val + "\n") == line;
    CommentLine(x, c, "\n", line, section, None, None, o);
    assert line == "" + key + "" + "=" + "" + val + "" + "\n" + "";
    KeyLine("", key, "", "", val, "", "\n", "", section, None, Some([x] + c), o);
  }

  lemma KeyNoComment(key: string, more: string)
    requires KeyText(key)
    ensures !CommentComes(key + more)
  {
    var s := key + more;
    forall n | 0 <= n <= |s| && White(s[..n]) ensures !CommentAhead(s[n..]) {
      WhiteFront(s, n);
    }
  }

  lemma WhiteFront(s: string, n: nat)
    requires n <= |s| && White(s[..n])
    ensures n > 0 ==> !NotWhite(s[0])
  {
    if n > 0 { assert s[..n][0] == s[0]; }
  }

  lemma NextParsed(s: string, section: string, previous: Option<string>, o: Options)
    ensures Parse(s, section, previous, o) ==
      match Next(s, section, previous, None, o)
      case Finish => Parsed([], true)
      case Malformed => Parsed([], false)
      case Found(e, rest) =>
        var p := Parse(rest, e.section, e.value, o);
        Parsed([e] + p.entries, p.complete)
  {
    hide Next;
  }

  lemma ConfigReceived(section: string, x: char, c: string, key: string, val: string, o: Options)
    requires Config(section, x, c, key, val, o)
    ensures var text := ConfigText(section, x, c, key, val);
      Received(text) == text && text != "" && text[0] == '['
  {
    hide Received, KeyText, PlainText, Tight;
    var text := ConfigText(section, x, c, key, val);
    assert text[0] == '[';
    ReceivedText(text, "");
    assert text + "" == text;
  }

  /** Loading such a text: asked for under names that differ at most in the case of letters, the key has its value
      and its comment, whichever comment character that starts with. */
  lemma ConfigLoaded(section: string, x: char, c: string, key: string, val: string, o: Options, s: string, k: string)
    requires Config(section, x, c, key, val, o) && NoCase(s, section) && NoCase(k, key)
    ensures var ini := Load(ConfigText(section, x, c, key, val), o);
      && ini.fileComment == None
      && Texts(Matches(PairsOf(ini.table.sections, s), k)) == [Text(key, Some([x] + c), val)]
  {
    hide Parse, Received, FileComment, KeyText, PlainText, Tight, ConfigText, Add, Valid, PairsOf, Matches, NoCase,
      Fold;
    ConfigEntries(section, x, c, key, val, o);
    EquivIsNoCase(section, s);
    EquivIsNoCase(key, k);
    NoCaseTurned(s, section);
    NoCaseTurned(k, key);
    KeyAdded(section, key, val, Some([x] + c), o.multiKey, s, k);
    TwoAdded(Entry(section, None, None, None), Entry(section, Some(key), Some(val), Some([x] + c)), o.multiKey);
  }

  lemma NoCaseTurned(a: string, b: string)
    requires NoCase(a, b)
    ensures NoCase(b, a)
  {
  }

  lemma TwoAdded(a: Entry, b: Entry, multiKey: bool)
    ensures AddAll(EMPTY, [a, b], multiKey) == Add(Add(EMPTY, a, false, multiKey), b, false, multiKey)
  {
    hide Add;
    assert [a, b][1..] == [b] && [b][1..] == [];
    var t := Add(EMPTY, a, false, multiKey);
    assert AddAll(t, [b], multiKey) == AddAll(Add(t, b, false, multiKey), [], multiKey);
  }

  lemma KeyAdded(section: string, key: string, val: string, c: Option<string>, multiKey: bool, s: string, k: string)
    requires Same(section, s) && Same(key, k)
    ensures var t := Add(EMPTY, Entry(section, None, None, None), false, multiKey);
      var u := Add(t, Entry(section, Some(key), Some(val), c), false, multiKey);
      Texts(Matches(PairsOf(u.sections, s), k)) == [Text(key, c, val)]
  {
    hide Valid, Same, PairsOf, Matches, Add, IniLaws.NewOrder;
    var a := Entry(section, None, None, None);
    var t := Add(EMPTY, a, false, multiKey);
    FreshValid();
    AddKeepsValid(EMPTY, a, false, multiKey);
    AddMatches(EMPTY, a, false, multiKey, s, k);
    NothingThere(s, k);
    AddMatches(t, Entry(section, Some(key), Some(val), c), false, multiKey, s, k);
  }

  lemma NothingThere(s: string, k: string)
    ensures Matches(PairsOf(EMPTY.sections, s), k) == []
  {
  }

  // ---------- setting one key, and saving

  /** An object that was new before the call, with one key set in one section, saved with the default options. */
  lemma SetThenSaved(section: string, key: string, val: string, o: Options, nl: string)
    requires section != "" && OneLine(val) && Tight(val) && val != "" && o.spaces
    ensures Save(Ini(None, Add(EMPTY, Entry(section, Some(key), Some(val), None), false, o.multiKey)), false, o, nl)
      == "[" + section + "]" + nl + key + " = " + val + nl
  {
    hide Print, Add, Sects, AddAll;
    var t := Add(EMPTY, Entry(section, Some(key), Some(val), None), false, o.multiKey);
    var ds := [Sect(section, None, [Key(key, [Val(val, None)])])];
    OneKeyListed(section, key, val, o.multiKey);
    assert DocOf(Ini(None, t), o) == Doc(None, ds);
    OneKeyPrinted(section, key, val, o, nl);
    assert "" + Print(Doc(None, ds), o, nl) == Print(Doc(None, ds), o, nl);
  }

  lemma OneKeyListed(section: string, key: string, val: string, multiKey: bool)
    requires section != ""
    ensures Sects(Add(EMPTY, Entry(section, Some(key), Some(val), None), false, multiKey), multiKey)
      == [Sect(section, None, [Key(key, [Val(val, None)])])]
  {
    hide Add, Sects, Valid, Same, Keys;
    var ds := [Sect(section, None, [Key(key, [Val(val, None)])])];
    var a, b := Entry(section, None, None, None), Entry(section, Some(key), Some(val), None);
    BuildDocument(ds, multiKey);
    OneKeyEntries(section, key, val);
    TwoAdded(a, b, multiKey);
    HeaderIsIncluded(section, key, val, multiKey);
  }

  lemma OneKeyEntries(section: string, key: string, val: string)
    requires section != ""
    ensures SectionEntries([Sect(section, None, [Key(key, [Val(val, None)])])])
      == [Entry(section, None, None, None), Entry(section, Some(key), Some(val), None)]
  {
    var ks := [Key(key, [Val(val, None)])];
    assert ks[1..] == [] && [Val(val, None)][1..] == [];
    assert ValEntries(section, key, [Val(val, None)]) == [Entry(section, Some(key), Some(val), None)];
    assert KeyEntries(section, ks) == [Entry(section, Some(key), Some(val), None)];
    assert [Sect(section, None, ks)][1..] == [];
  }

  lemma HeaderIsIncluded(section: string, key: string, val: string, multiKey: bool)
    ensures var e := Entry(section, Some(key), Some(val), None);
      Add(Add(EMPTY, Entry(section, None, None, None), false, multiKey), e, false, multiKey)
        == Add(EMPTY, e, false, multiKey)
  {
    hide Same, Less, PutPair, InsertSection;
    EnsureHas(EMPTY, section, None);
  }

  lemma OneKeyPrinted(section: string, key: string, val: string, o: Options, nl: string)
    requires section != "" && OneLine(val) && Tight(val) && val != "" && o.spaces
    ensures Print(Doc(None, [Sect(section, None, [Key(key, [Val(val, None)])])]), o, nl)
      == "[" + section + "]" + nl + key + " = " + val + nl
  {
    hide Print, PrintSections, PrintKeys, PrintVal, Tight;
    var ks := [Key(key, [Val(val, None)])];
    var ds := [Sect(section, None, ks)];
    FileLines(None, ds, o, nl);
    assert ds == [Sect(section, None, ks)] + [];
    SectionLines(section, None, ks, [], false, o, nl);
    assert ks == [Key(key, [Val(val, None)])] + [];
    KeyLines(key, [Val(val, None)], [], o, nl);
    assert [Val(val, None)][1..] == [];
    KeyLines(key, [], [], o, nl);
    NothingPrinted(o, nl);
    TightIsRaw(val, o);
    RawLine(key, val, o, nl);
    var head := "[" + section + "]" + nl;
    var line := key + " = " + val + nl;
    assert "" + "" + head + (line + "") + "" == head + line;
    assert head + line == "[" + section + "]" + nl + key + " = " + val + nl;
  }

  lemma TightIsRaw(val: string, o: Options)
    requires OneLine(val) && Tight(val)
    ensures !InQuotes(val, o) && !InLines(val, o)
  {
  }

  lemma NothingPrinted(o: Options, nl: string)
    ensures PrintKeys([], o, nl) == "" && PrintSections([], true, o, nl) == ""
  {
  }
}
