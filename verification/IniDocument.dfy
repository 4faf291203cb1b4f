/**
 * What an INI table says, in the order in which it is written, and how it is written:
 * the pure form of Save.
 */
module IniDocument {
  import opened Basics
  import opened IniText
  import opened IniGrammar

  /** One value of a key with the comment above it. */
  datatype Val = Val(value: string, comment: Option<string>)

  /** A key with all its values; several only when multi-key is on. */
  datatype Key = Key(name: string, vals: seq<Val>)

  datatype Sect = Sect(name: string, comment: Option<string>, keys: seq<Key>)

  datatype Doc = Doc(fileComment: Option<string>, sections: seq<Sect>)

  const TAG := "END_OF_TEXT"

  predicate HasNewLine(s: string) { exists i :: 0 <= i < |s| && IsNewLine(s[i]) }

  /** White space at either end, or a newline inside. */
  predicate IsMultiLineData(v: string) {
    v != "" && (IsSpace(v[0]) || HasNewLine(v) || IsSpace(v[|v| - 1]))
  }

  /** White space in front, or white space behind and no newline inside. */
  predicate IsSingleLineQuotedValue(v: string) {
    v != "" && (IsSpace(v[0]) || (!HasNewLine(v) && IsSpace(v[|v| - 1])))
  }

  /** Every line of s, the last one too, followed by the platform's newline. */
  function Lines(s: string, nl: string): string {
    var n := Span(s, NotLF);
    if n == |s| then s + nl else s[..n] + nl + Lines(s[n + 1..], nl)
  }

  function Output(s: string, nl: string): string { if s == "" then "" else Lines(s, nl) }

  function PrintComment(c: Option<string>, nl: string): string {
    if c.None? then "" else Output(c.value, nl)
  }

  function Equals(o: Options): string { if o.spaces then " = " else "=" }

  function PrintValue(v: string, o: Options, nl: string): string {
    if o.quotes && IsSingleLineQuotedValue(v) then "\"" + v + "\""
    else if o.multiLine && IsMultiLineData(v) then "<<<" + TAG + nl + Output(v, nl) + TAG
    else v
  }

  function PrintVal(key: string, v: Val, o: Options, nl: string): string {
    (if v.comment.None? then "" else nl + Output(v.comment.value, nl))
    + key + (if v.value == "" && o.keyOnly then "" else Equals(o) + PrintValue(v.value, o, nl)) + nl
  }

  function PrintVals(key: string, vals: seq<Val>, o: Options, nl: string): string {
    if vals == [] then "" else PrintVal(key, vals[0], o, nl) + PrintVals(key, vals[1..], o, nl)
  }

  function PrintKeys(keys: seq<Key>, o: Options, nl: string): string {
    if keys == [] then "" else PrintVals(keys[0].name, keys[0].vals, o, nl) + PrintKeys(keys[1..], o, nl)
  }

  function PrintHeader(s: Sect, nl: string): string {
    PrintComment(s.comment, nl) + (if s.name == "" then "" else "[" + s.name + "]" + nl)
  }

  function PrintSections(sections: seq<Sect>, gap: bool, o: Options, nl: string): string {
    if sections == [] then ""
    else (if gap then nl + nl else "") + PrintHeader(sections[0], nl) + PrintKeys(sections[0].keys, o, nl)
         + PrintSections(sections[1..], true, o, nl)
  }

  function Print(d: Doc, o: Options, nl: string): string {
    PrintComment(d.fileComment, nl) + PrintSections(d.sections, d.fileComment.Some?, o, nl)
  }

  /** The entries a reader should find in a written document, in order. */
  function ValEntries(section: string, key: string, vals: seq<Val>): seq<Entry> {
    if vals == [] then []
    else [Entry(section, Some(key), Some(vals[0].value), vals[0].comment)] + ValEntries(section, key, vals[1..])
  }

  function KeyEntries(section: string, keys: seq<Key>): seq<Entry> {
    if keys == [] then []
    else ValEntries(section, keys[0].name, keys[0].vals) + KeyEntries(section, keys[1..])
  }

  function HeaderEntries(s: Sect): seq<Entry> {
    if s.name == "" then [] else [Entry(s.name, None, None, s.comment)]
  }

  function SectionEntries(sections: seq<Sect>): seq<Entry> {
    if sections == [] then []
    else HeaderEntries(sections[0]) + KeyEntries(sections[0].name, sections[0].keys) + SectionEntries(sections[1..])
  }

  // What a reader finds in a written document. With key-only on, an empty value is written as a key alone,
  // and a key alone takes over the value of the entry before it.

  function ValueRead(v: string, previous: Option<string>, o: Options): Option<string> {
    if o.keyOnly && v == "" then previous else Some(v)
  }

  function ValReads(section: string, key: string, vals: seq<Val>, previous: Option<string>, o: Options): seq<Entry> {
    if vals == [] then []
    else
      var v := ValueRead(vals[0].value, previous, o);
      [Entry(section, Some(key), v, vals[0].comment)] + ValReads(section, key, vals[1..], v, o)
  }

  /** The value of the last entry. */
  function ValLast(vals: seq<Val>, previous: Option<string>, o: Options): Option<string> {
    if vals == [] then previous else ValLast(vals[1..], ValueRead(vals[0].value, previous, o), o)
  }

  function KeyReads(section: string, keys: seq<Key>, previous: Option<string>, o: Options): seq<Entry> {
    if keys == [] then []
    else ValReads(section, keys[0].name, keys[0].vals, previous, o)
         + KeyReads(section, keys[1..], ValLast(keys[0].vals, previous, o), o)
  }

  function KeyLast(keys: seq<Key>, previous: Option<string>, o: Options): Option<string> {
    if keys == [] then previous else KeyLast(keys[1..], ValLast(keys[0].vals, previous, o), o)
  }

  function SectionReads(sections: seq<Sect>, o: Options): seq<Entry> {
    if sections == [] then []
    else HeaderEntries(sections[0]) + KeyReads(sections[0].name, sections[0].keys, None, o)
         + SectionReads(sections[1..], o)
  }

  /** The listing that these entries stand for: with key-only on every empty value is replaced by the value in front
      of it in its section. */
  function Text(v: Option<string>): string { if v.None? then "" else v.value }

  function ValsAs(vals: seq<Val>, previous: Option<string>, o: Options): seq<Val> {
    if vals == [] then []
    else
      var v := ValueRead(vals[0].value, previous, o);
      [Val(Text(v), vals[0].comment)] + ValsAs(vals[1..], v, o)
  }

  function KeysAs(keys: seq<Key>, previous: Option<string>, o: Options): seq<Key> {
    if keys == [] then []
    else [Key(keys[0].name, ValsAs(keys[0].vals, previous, o))]
         + KeysAs(keys[1..], ValLast(keys[0].vals, previous, o), o)
  }

  function SectsAs(sections: seq<Sect>, o: Options): seq<Sect> {
    if sections == [] then []
    else [sections[0].(keys := KeysAs(sections[0].keys, None, o))] + SectsAs(sections[1..], o)
  }

  /** A nameless section without keys leaves no trace in the text. */
  function Written(sections: seq<Sect>): seq<Sect> {
    if sections != [] && sections[0].name == "" && sections[0].keys == [] then sections[1..] else sections
  }

  /** The comment of a nameless section is written without a header to go with. */
  predicate NamelessPlain(sections: seq<Sect>) { forall s :: s in sections && s.name == "" ==> s.comment.None? }

  function Uncommented(sections: seq<Sect>): seq<Sect> {
    if sections != [] && sections[0].name == "" then [sections[0].(comment := None)] + sections[1..] else sections
  }

  /** All values of a section in the order in which they are written. */
  function ValuesIn(keys: seq<Key>): seq<string> {
    if keys == [] then [] else ValueTexts(keys[0].vals) + ValuesIn(keys[1..])
  }

  function ValueTexts(vals: seq<Val>): seq<string> {
    if vals == [] then [] else [vals[0].value] + ValueTexts(vals[1..])
  }

  predicate EmptiesFirst(vs: seq<string>) { forall i, j :: 0 <= i < j < |vs| && vs[j] == "" ==> vs[i] == "" }

  /** In no section does an empty value follow one that is not empty. */
  predicate NoneTakesOver(sections: seq<Sect>) { forall s :: s in sections ==> EmptiesFirst(ValuesIn(s.keys)) }

  // What can be written and read back.

  predicate NoNul(s: string) { NUL !in s }

  predicate SectionNameOk(s: string) {
    s != "" && NoNul(s) && (forall c :: c in s ==> NameChar(c)) && !IsSpace(s[0]) && Trimmed(s)
  }

  predicate KeyNameOk(s: string) {
    s != "" && NoNul(s) && (forall c :: c in s ==> KeyChar(c))
    && !IsSpace(s[0]) && !IsComment(s[0]) && s[0] != '[' && Trimmed(s)
  }

  /** What follows the first line of a comment: its line break goes, with blanks all line breaks go. */
  function NextLines(s: string, blanks: bool): string
    requires Span(s, NotLF) < |s|
  {
    var n := Span(s, NotLF);
    if blanks then Skip(s[n + 1..], IsLF) else s[n + 1..]
  }

  /** Every line starts with a comment character, the first and the last included;
      with blanks, empty lines may stand between them. */
  predicate CommentOk(s: string, blanks: bool)
    decreases |s|
  {
    s != "" && IsComment(s[0]) && NoNul(s) && '\r' !in s &&
    (Span(s, NotLF) < |s| ==> CommentOk(NextLines(s, blanks), blanks))
  }

  /** No line of a here-document may pass for its closing tag. */
  predicate NoTagLine(s: string, moved: bool, nl: string)
    decreases |s|
  {
    var n := Span(s, NotLF);
    !ClosesHere(s[..n], TAG, moved) &&
    (n < |s| ==> NoTagLine(s[n + 1..], moved || |nl| == 2, nl))
  }

  predicate ValueOk(v: string, o: Options, nl: string) {
    NoNul(v) &&
    if o.quotes && IsSingleLineQuotedValue(v) then !HasNewLine(v)
    else if o.multiLine && IsMultiLineData(v) then '\r' !in v && NoTagLine(v, false, nl)
    else !IsMultiLineData(v) && !(o.multiLine && "<<<" <= v) && !(o.quotes && IsQuoted(v))
  }

  predicate OptionalCommentOk(c: Option<string>) { c.Some? ==> CommentOk(c.value, true) }

  predicate KeyOk(k: Key, o: Options, nl: string) {
    KeyNameOk(k.name) &&
    forall v :: v in k.vals ==> ValueOk(v.value, o, nl) && OptionalCommentOk(v.comment)
  }

  predicate SectOk(s: Sect, o: Options, nl: string) {
    (s.name == "" || SectionNameOk(s.name)) && OptionalCommentOk(s.comment) &&
    forall k :: k in s.keys ==> KeyOk(k, o, nl)
  }

  /** Everything but the rule about the comment of the first section. */
  predicate DocOk(d: Doc, o: Options, nl: string) {
    (d.fileComment.Some? ==> CommentOk(d.fileComment.value, false)) &&
    forall s :: s in d.sections ==> SectOk(s, o, nl)
  }

  /** The first comment of the text belongs to the file unless a section claims it. */
  predicate LeadOk(d: Doc) {
    d.fileComment.Some? || d.sections == [] || d.sections[0].comment.None?
  }

  /** The nameless section comes first, and every key has a value. */
  predicate Listed(sections: seq<Sect>) {
    && (forall i :: 0 <= i < |sections| && sections[i].name == "" ==> i == 0)
    && (forall s, k :: s in sections && k in s.keys ==> k.vals != [])
  }

  /** Moreover, the nameless section is not empty. */
  predicate WellShaped(sections: seq<Sect>) {
    && (forall i :: 0 <= i < |sections| && sections[i].name == "" ==> i == 0 && sections[i].keys != [])
    && (forall s, k :: s in sections && k in s.keys ==> k.vals != [])
  }
}
