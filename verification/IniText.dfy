/** Character classes and the scanning vocabulary of the INI reader. */
module IniText {
  const NUL: char := '\0'

  predicate IsNewLine(c: char) { c == '\n' || c == '\r' }

  predicate IsSpace(c: char) { c == ' ' || c == '\t' || c == '\r' || c == '\n' }

  predicate IsComment(c: char) { c == ';' || c == '#' }

  predicate IsBlank(c: char) { !IsNewLine(c) && IsSpace(c) }

  predicate NotNewLine(c: char) { !IsNewLine(c) }

  predicate NotLF(c: char) { c != '\n' }

  predicate IsLF(c: char) { c == '\n' }

  predicate NameChar(c: char) { c != ']' && !IsNewLine(c) }

  predicate KeyChar(c: char) { c != '=' && !IsNewLine(c) }

  /** Length of the longest prefix of s whose characters all satisfy p. */
  function Span(s: string, p: char -> bool): (n: nat)
    ensures n <= |s|
    ensures forall i :: 0 <= i < n ==> p(s[i])
    ensures n < |s| ==> !p(s[n])
  {
    if s == "" || !p(s[0]) then 0 else 1 + Span(s[1..], p)
  }

  function Take(s: string, p: char -> bool): string { s[..Span(s, p)] }

  function Skip(s: string, p: char -> bool): string { s[Span(s, p)..] }

  /** The three facts that Span ensures determine it. */
  lemma SpanIs(s: string, p: char -> bool, n: nat)
    requires n <= |s|
    requires forall i :: 0 <= i < n ==> p(s[i])
    requires n < |s| ==> !p(s[n])
    ensures Span(s, p) == n
  {
  }

  /** Scanning a block of p characters followed by something else splits there. */
  lemma ScanBlock(a: string, b: string, p: char -> bool)
    requires forall c :: c in a ==> p(c)
    requires b != "" ==> !p(b[0])
    ensures Span(a + b, p) == |a|
    ensures Take(a + b, p) == a && Skip(a + b, p) == b
  {
    SpanIs(a + b, p, |a|);
  }

  /** Leading p characters make no difference to what Skip leaves. */
  lemma SkipBlock(a: string, b: string, p: char -> bool)
    requires forall c :: c in a ==> p(c)
    ensures Skip(a + b, p) == Skip(b, p)
  {
    SpanIs(a + b, p, |a| + Span(b, p));
  }

  /** Length of s without its trailing white space. */
  function TrimLen(s: string): (n: nat)
    ensures n <= |s|
    ensures forall i :: n <= i < |s| ==> IsSpace(s[i])
    ensures n > 0 ==> !IsSpace(s[n - 1])
  {
    if s == "" || !IsSpace(s[|s| - 1]) then |s| else TrimLen(s[..|s| - 1])
  }

  function TrimRight(s: string): string { s[..TrimLen(s)] }

  predicate Trimmed(s: string) { s == "" || !IsSpace(s[|s| - 1]) }

  lemma TrimRightIs(s: string, n: nat)
    requires n <= |s|
    requires forall i :: n <= i < |s| ==> IsSpace(s[i])
    requires n > 0 ==> !IsSpace(s[n - 1])
    ensures TrimLen(s) == n && TrimRight(s) == s[..n]
  {
  }

  /** Everything up to the first newline character. */
  function LineOf(s: string): (line: string)
    ensures line <= s
  {
    Take(s, NotNewLine)
  }

  /** What is left after the newline at the front of s: "\r\n" counts as one. */
  function SkipNewLine(s: string): (r: string)
    requires s != ""
  {
    if s[0] == '\r' && |s| > 1 && s[1] == '\n' then s[2..] else s[1..]
  }

  /** The newline spellings a platform may use when writing. */
  predicate IsNewLineSpelling(nl: string) { nl == "\n" || nl == "\r\n" }

  lemma SkipNewLineSpelling(nl: string, rest: string)
    requires IsNewLineSpelling(nl)
    ensures nl + rest != "" && IsNewLine((nl + rest)[0])
    ensures SkipNewLine(nl + rest) == rest
  {
  }

  /** A written line is read back as that line. */
  lemma LineThen(line: string, nl: string, rest: string)
    requires forall c :: c in line ==> NotNewLine(c)
    requires IsNewLineSpelling(nl)
    ensures LineOf(line + nl + rest) == line
    ensures (line + nl + rest)[|line|..] == nl + rest
    ensures SkipNewLine(nl + rest) == rest
  {
    assert line + nl + rest == line + (nl + rest);
    ScanBlock(line, nl + rest, NotNewLine);
    SkipNewLineSpelling(nl, rest);
  }

  /** Number of line breaks in a stretch of white space, "\r\n" counting once. */
  function NewLineCount(s: string): nat {
    if s == "" then 0
    else if IsNewLine(s[0]) then 1 + NewLineCount(SkipNewLine(s))
    else NewLineCount(s[1..])
  }

  /** n line feeds. */
  function Feeds(n: nat): (s: string)
    ensures |s| == n && forall i :: 0 <= i < n ==> s[i] == '\n'
  {
    if n == 0 then "" else "\n" + Feeds(n - 1)
  }

  lemma NewLineCountBound(s: string)
    ensures NewLineCount(s) <= |s|
  {
  }
}
