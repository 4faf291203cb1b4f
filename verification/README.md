# Verification of the INI engine, the receive path and the queues

A Dafny model of three parts of the system and proofs of what they promise.

1. **The INI engine** (`CSimpleIniTempl`): the reader that works in place on a NUL-terminated buffer, the table (a sorted
   map of sorted multimaps with load orders), the writer, and the pool that owns copied strings.
2. **The receive path**: muduo's `Buffer`, the packet codec `CPacket`, and `CMuduoServer::onMessage`.
3. **The queues**: `BoundedBlockingQueue`, `BlockingQueue` and `CThreadSafeQueue` with the lock and condition protocol below them.

`dafny verify dfyconfig.toml` checks everything.

## How it is built

Code that changes state step by step is modelled as methods on arrays and classes, each proved against a pure
specification; the theorems are about the specifications.

| file | contents |
|---|---|
| `IniOrder` | the comparator, as a loop and as an order |
| `IniText`, `IniGrammar` | the grammar of the text: entries of a text, as pure functions |
| `IniDocument` | the pure printer, and which texts it can print |
| `IniScan`, `IniBlocks`, `IniParser` | the reader on `array<char>`: it refines the grammar, and strings it handed out stay |
| `IniTable`, `IniSearch`, `IniQueries`, `IniLaws`, `IniRuns` | the table, its loops over the sorted containers, what it answers, and its laws over runs |
| `IniView`, `IniBuild`, `IniBuildDocument` | what a table lists, and how a listing rebuilds a table |
| `IniReadBack`, `IniReadDocument`, `IniReadAs`, `IniRoundTrip` | the printed document is read back, and as which listing |
| `IniSyntax`, `IniSpelling`, `IniWhole` | the reader's lines, the printed lines, and whole calls, character by character |
| `IniComments`, `IniHeaders`, `IniReload`, `IniLimits` | what was read can be written, and exactly which values survive |
| `IniWriter`, `IniStore` | the writer's loops, and the class `SimpleIni` with all operations |
| `IniPool`, `IniOwnership` | the same operations on pointers, with an allocator |
| `Endian`, `GapBuffer`, `Buffers` | byte order, the buffer as a value, the buffer as a class |
| `Packets`, `MessageServer`, `StreamRuns` | the codec, one callback, and whole runs over chunks |
| `Threads`, `BoundedQueue`, `UnboundedQueue` | sums over threads, and the queues as state machines |

Main results: `IniStore.SimpleIni.LoadData`, `IniRoundTrip.LoadAfterSave`, `IniReload.ReloadIsStable`, `IniLimits.ValueRoundTrip`,
`IniRuns.EditRun`, `IniOwnership.StringsOwned`, `GapBuffer.SpaceBound`, `StreamRuns.StreamConserved`,
`BoundedQueue.NoLostWakeup`, `BoundedQueue.Linearizable`, `BoundedQueue.NoDeadlock`, `UnboundedQueue.NoLostWakeup`.

## Conventions

- Characters are `char` with the identity conversion, compared as signed bytes, as on x86. `NUL` ends the text. `nl` is the line break
  of the platform, "\n" or "\r\n".
- `std::map` and `std::multimap` are sorted sequences. `multimap::find` returns the first equivalent element and `insert`
  goes behind the last one, as the C++ standard library in use does. `list::sort` is a function: load orders are distinct,
  so its result is determined.
- `Next` has the result `Malformed` for the two inputs on which the reader loses its place: a `[` without `]` in its line, and
  a here-document whose first line closes it. Theorems about whole texts are about texts without them (`complete`);
  the reader's safety (cursor, buffer bounds, frame of `FindEntry`) is proved on all inputs.
- The class `SimpleIni` holds strings as values. That this is sound is proved twice: strings in the block stay as they
  were handed out (`AllInPlace`), and pointers into the pool are alive and unshared (`IniOwnership`).
- `LoadMultiLineText` is two methods, `LoadComment` and `LoadHere`, one for each mode.
- The byte that memory holds behind a received chunk is the parameter `beyond`: `FindHeadStart` reads one byte past the end
  when the last byte of the data is looked at.
- In the queue machines one action is one step of one thread: a lock operation, an access to the queue, or a part of
  `Condition::wait`. A signal wakes one waiting thread; that it may wake more is covered by spurious wakeups.

## Where the code differs from its comments

- A comment in `LoadMultiLineText` says that white space after the end tag is ignored. Once a CRLF of the text has been
  shortened, it is not (`IniLimits.HereWithTrailingSpace`).
- A comment says that values in quotes have no line breaks. A value with white space in front and a line break inside is
  written in quotes all the same, and is lost (`IniLimits.QuotedNewLineLost`).
- With multi-line values on, a raw value that starts with `<<<` is read as the start of a here-document and lost
  (`IniLimits.HereMarkLost`).
- With key-only on, an empty value is written as a key alone, and takes over the value in front of it when it is read. A
  listing comes back exactly when in no section an empty value follows one that is not empty (`IniReadAs.SectsKept`).
- A nameless section without keys leaves no trace in the text (`IniRoundTrip.NamelessListed`).
- A nameless section has no header in the text. Its comment is read back as that of the first key or header behind it, or
  not at all (`IniReadDocument.ReadSections`, `IniRoundTrip.NamelessCommentLost`).
- The comment of the first section written is read back as the file comment if there is none (`LeadOk`).
- A single byte that arrives on an empty buffer is dropped unless memory happens to hold 0xEF behind it
  (`StreamRuns.FirstByteDropped`).
- The size check of `ConstructData` wraps around when a head starts fewer than 34 bytes before the end, and only then
  (`Packets.CheckIsSafe`, `Packets.LateHead`). `onMessage` never gets there: it starts at a head (`MessageServer.FrontFits`).

## Model

| member | source | states |
|---|---|---|
| IniOrder.IsLess | include/simpleIni/SimpleIni.h:2876-2885 | the two-cursor loop computes the recursive order on lower-cased characters, compared as signed char |
| IniOrder.EquivIsFoldEquality | include/simpleIni/SimpleIni.h:2876-2885 | neither of two names is less than the other exactly when their lower-cased forms are equal |
| IniOrder.LessTransitive | include/simpleIni/SimpleIni.h:2876-2885 | the comparator is transitive |
| IniOrder.StrictWeakOrder | include/simpleIni/SimpleIni.h:2872-2886 | the comparator is a strict weak order: irreflexive, transitive, with a transitive equivalence |
| IniOrder.EquivIsNoCase | include/simpleIni/SimpleIni.h:2872-2886 | neither of two names is less than the other exactly when they have the same length and differ at most in capital and small forms of the letters A to Z |
| IniOrder.LessIs | include/simpleIni/SimpleIni.h:2876-2885 | on names without capitals the comparator is the order of a dictionary, with bytes above 127 in front |
| IniOrder.LessNoCase | include/simpleIni/SimpleIni.h:2876-2885 | the comparator gives the same answer whatever the case of the letters |
| IniScan.LookAhead | include/simpleIni/SimpleIni.h:1891-1903 | the read-ahead over white space finds where it ends and counts its line breaks, CRLF once, without touching the buffer |
| IniScan.TrimBack | include/simpleIni/SimpleIni.h:1654-1658 | walking back over white space finds the length of the trimmed text |
| IniScan.SkipBreak | include/simpleIni/SimpleIni.h:1717-1720 | CR, LF and CRLF are each passed over as one line break |
| IniScan.LessAt | include/simpleIni/SimpleIni.h:1938-1942 | the comparator run on two NUL-closed strings of the buffer gives the order of those strings |
| IniScan.MoveLine | include/simpleIni/SimpleIni.h:1919-1924 | memmove of a line to a lower, possibly overlapping place leaves the line there, closed by a NUL if it moved, and nothing else changed |
| IniBlocks.IsTagLine | include/simpleIni/SimpleIni.h:1933-1945 | a line is taken for the closing tag exactly when ClosesHere says so: compared without trailing white space as long as it has not been moved, with it afterwards; the character overwritten for the comparison is restored when it is not |
| IniBlocks.LoadComment | include/simpleIni/SimpleIni.h:1854-1982 | comment mode: the text normalised in place is the comment of the grammar on the original text, NUL-closed; only characters between the start and the new cursor change; the cursor stands where the grammar goes on |
| IniBlocks.LoadHere | include/simpleIni/SimpleIni.h:1854-1982 | tag mode: the text normalised in place is the here-document of the grammar, up to the tag or the end of data; nothing in front of its first character (but for the closing of the text before) and nothing behind the cursor changes |
| IniParser.SettledStays | include/simpleIni/SimpleIni.h:1605-1756 | a string handed out in front of the cursor is not altered by anything that only changes the buffer behind it |
| IniParser.FindHeader | include/simpleIni/SimpleIni.h:1633-1670 | a header line gives the trimmed name between the brackets, closed in place |
| IniParser.FindValue | include/simpleIni/SimpleIni.h:1700-1742 | the text behind "=": plain, quoted or here-document value, as the grammar gives it, in place |
| IniParser.KeyLine | include/simpleIni/SimpleIni.h:1672-1752 | a key line is passed over or yields the entry of the grammar, in place |
| IniParser.FindEntry | include/simpleIni/SimpleIni.h:1605-1756 | one call on the buffer finds exactly the next entry of the pure grammar on the unread text, with every string in place, and reports the end when the grammar does; it moves the cursor forward and changes nothing in front of where it started or behind where it stops (where the grammar says Malformed, only the cursor and frame claims) |
| IniStore.AllStandStay | include/simpleIni/SimpleIni.h:1541-1544 | all strings handed out so far stay in place while the reader goes on |
| IniStore.SimpleIni.AddEntries | include/simpleIni/SimpleIni.h:1541-1544 | the loop of FindEntry and AddEntry gives the table of all entries of a pure parse of the text as it was before; all strings handed out are still in place at the end, and nothing in front of where it started has changed |
| IniStore.SimpleIni.TakeFileComment | include/simpleIni/SimpleIni.h:1578-1601 | the comment at the front of the text, without blank lines, becomes the file comment and stands at the start of the block |
| IniStore.SimpleIni.LoadData | include/simpleIni/SimpleIni.h:1479-1556 | loading gives the pure result on what is there: file comment only if none was set, BOM and everything from the first NUL on ignored; the first block is kept, and at the end the file comment and all strings of the entries still read the same in it |
| IniGrammar.NextSkipsSpace | include/simpleIni/SimpleIni.h:1617-1624 | white space in front of the unread text makes no difference to the entries |
| IniGrammar.PreviousIrrelevant | include/simpleIni/SimpleIni.h:1743-1752 | unless keys may stand alone, the value of the entry before has no influence on the next one |
| IniGrammar.NextBare | include/simpleIni/SimpleIni.h:1617-1631 | apart from its own comment the next entry does not depend on the comment read before it |
| IniGrammar.TailBare | include/simpleIni/SimpleIni.h:1617-1631 | nor on the lines that a comment in front of it draws in |
| IniSyntax.CommentLine | include/simpleIni/SimpleIni.h:1247-1249 | a line that starts with ";" or with "#" is a comment: if no other follows, what comes behind it is read with exactly this text pending; it has no other effect |
| IniSyntax.CommentGoesOn | include/simpleIni/SimpleIni.h:1881-1931 | a comment goes on behind white space with the next line that starts with ";" or "#"; the white space is reduced to its line breaks, each a line feed |
| IniSyntax.BreaksAre | include/simpleIni/SimpleIni.h:1891-1903 | which these are: "\n", "\r" and "\r\n" count once each |
| IniSyntax.FileCommentLine | include/simpleIni/SimpleIni.h:1578-1601 | a line that starts with ";" or "#" at the front of a text, with no such line right behind it, is the file comment |
| IniSyntax.HeaderLine | include/simpleIni/SimpleIni.h:1633-1670 | a header line: spaces, tabs and line breaks behind "[", spaces and tabs in front of "]", and everything behind that in the line are dropped |
| IniSyntax.UnclosedHeader | include/simpleIni/SimpleIni.h:1648-1651 | a "[" without "]" in its line |
| IniSyntax.KeyLine | include/simpleIni/SimpleIni.h:1672-1753 | a key line: white space in front of the key, and spaces and tabs around "=" and behind the value are dropped; key and value are what is left |
| IniSyntax.QuotedLine | include/simpleIni/SimpleIni.h:1734-1741 | with quotes on, the quotes around a value are taken off and the blanks inside are kept |
| IniSyntax.KeyAlone | include/simpleIni/SimpleIni.h:1679-1683 | a line without "=" is passed over with the pending comment kept; with key-only on it is a key with the value of the entry before |
| IniSyntax.NoKeyLine | include/simpleIni/SimpleIni.h:1685-1691 | a line that starts with "=" is passed over with the pending comment kept |
| IniSyntax.NothingLeft | include/simpleIni/SimpleIni.h:1617-1624 | white space alone holds no entry |
| IniSyntax.HereLine | include/simpleIni/SimpleIni.h:1727-1732 | with multi-line on, "<<<" and a tag as value start a here-document in the next line |
| IniSyntax.HereDocument | include/simpleIni/SimpleIni.h:1854-1982 | its text is the lines in front of the one that closes it, joined by line feeds, and reading goes on behind that one |
| IniSyntax.HereToTheEnd | include/simpleIni/SimpleIni.h:1960-1982 | without a closing line its text is all the remaining lines |
| IniSyntax.ClosesIs | include/simpleIni/SimpleIni.h:1933-1945 | a line closes it when it is the tag up to the case of letters, blanks behind it ignored as long as no CRLF has been shortened |
| IniReadBack.ReadComment | include/simpleIni/SimpleIni.h:1854-1982 | a written comment, blank lines inside allowed or not, is read back exactly, whatever follows, and reading stops right behind it |
| IniReadBack.PassComment | include/simpleIni/SimpleIni.h:1854-1982 | behind a written comment, reading goes on where it would behind the lines that follow, even if these are comment lines themselves |
| IniReadBack.ReadHere | include/simpleIni/SimpleIni.h:1854-1982 | a text without CR and without a line that closes it survives writing and reading as a here-document, with either line break and whether or not lines have moved |
| IniReadDocument.ReadValue | include/simpleIni/SimpleIni.h:1700-1742 | a written value, raw, quoted or here-document, is read back exactly if ValueOk holds |
| IniReadDocument.ReadVal | include/simpleIni/SimpleIni.h:2636-2679 | one written key line with its comment is the next entry found, under all settings; with key-only on an empty value takes over the value of the entry before |
| IniReadDocument.ReadHeader | include/simpleIni/SimpleIni.h:2589-2616 | a written section header with its comment is the next entry found |
| IniReadDocument.ReadBehindComment | include/simpleIni/SimpleIni.h:1617-1631 | a written comment in front of any text changes the comment of the first entry and nothing else |
| IniReadDocument.ReadSections | include/simpleIni/SimpleIni.h:2586-2683 | all written sections read back as their entries in order, under all settings; the comment of a nameless section, which has no header, goes to the first of them |
| IniReadDocument.SectionsStart | include/simpleIni/SimpleIni.h:2586-2616 | the written sections start with a comment exactly when the first section has one |
| IniReadDocument.ReadDocument | include/simpleIni/SimpleIni.h:2541-2686 | under all settings the comment at the front of a written document reads back as its file comment if and only if it has a file comment or no comment on the section written first; then everything behind it reads back as its entries, the comment of a nameless section at the first of them |
| IniComments.ReadCommentOk | include/simpleIni/SimpleIni.h:1879-1981 | every comment the reader accepts, from any text, is one the writer can write: each line starts with a comment character, no CR, no trailing blank line |
| IniSpelling.CommentIs | include/simpleIni/SimpleIni.h:1247-1249 | which comments can be written, character by character: every line starts with ";" or "#", with empty lines in between where allowed, no CR and no NUL |
| IniSpelling.KeyNameIs | include/simpleIni/SimpleIni.h:1672-1698 | which keys: not empty, one line without "=", no blank at either end, not starting with ";", "#" or "[", no NUL |
| IniSpelling.SectionNameIs | include/simpleIni/SimpleIni.h:1641-1659 | which section names: not empty, one line without "]", no blank at either end, no NUL |
| IniTable.InsertPairSorted | include/simpleIni/SimpleIni.h:2104-2115 | a multimap stays sorted when a pair is inserted behind its equals |
| IniTable.CollapseOk | include/simpleIni/SimpleIni.h:2059-2081 | collapsing a key into one pair with the load order of one of them keeps order and distinctness |
| IniTable.AssignOk | include/simpleIni/SimpleIni.h:2051-2118 | every assignment keeps the pairs of a section sorted and their load orders distinct |
| IniTable.AddKeepsValid | include/simpleIni/SimpleIni.h:2013-2120 | after every AddEntry sections and pairs are sorted, live load orders are pairwise distinct over the whole table and at most m_nOrder |
| IniTable.DeleteKeepsValid | include/simpleIni/SimpleIni.h:2730-2799 | the same after every DeleteValue |
| IniSearch.FindKey | include/simpleIni/SimpleIni.h:2051-2054 | the search by comparator in a sorted multimap finds the first pair whose folded key is equal |
| IniSearch.FindSection | include/simpleIni/SimpleIni.h:2033-2034 | the search by comparator finds the section whose folded name is equal |
| IniSearch.Collect | include/simpleIni/SimpleIni.h:2375-2383 | the loop that stops at the first greater key collects all pairs of the key |
| IniSearch.ListKeys | include/simpleIni/SimpleIni.h:2469-2477 | the loop that compares with the key listed last lists every key once, under its first spelling |
| IniSearch.Erase | include/simpleIni/SimpleIni.h:2755-2775 | the erasing loop removes exactly the pairs of the key, or those among them with an equivalent value, and says whether there were any |
| IniSearch.OldestOf | include/simpleIni/SimpleIni.h:2060-2073 | the loop of the forced replacement finds the pair with the smallest load order |
| IniQueries.SectionFound | include/simpleIni/SimpleIni.h:2033-2034 | a section is found under every spelling of its name up to the case of letters, and under no other |
| IniQueries.KeysAre | include/simpleIni/SimpleIni.h:2469-2477 | the keys listed are spelling, comment and load order of the first pair of every key, in the order of the pairs |
| IniQueries.AllValues | include/simpleIni/SimpleIni.h:2375-2383 | the values listed with multi-key on are value, comment and load order of every pair of the key, in order |
| IniQueries.FirstValue | include/simpleIni/SimpleIni.h:2124-2157 | the value of a key is that of its first pair, and with multi-key off it is listed alone |
| IniStore.SimpleIni.constructor | include/simpleIni/SimpleIni.h:1344-1361 | a new object is empty |
| IniStore.SimpleIni.AddEntry | include/simpleIni/SimpleIni.h:2013-2120 | the new table is Add of the old one, and the result code says whether the section or key was new |
| IniStore.SimpleIni.AssignKey | include/simpleIni/SimpleIni.h:2051-2119 | the three ways of assigning a key: a further pair, a new value, or one pair in place of all |
| IniStore.SimpleIni.DeleteValue | include/simpleIni/SimpleIni.h:2730-2799 | the new table and the result are Delete of the old table |
| IniStore.SimpleIni.GetValue | include/simpleIni/SimpleIni.h:2124-2157 | the value is that of the first pair of the key, and the flag holds exactly when multi-key is on and there are at least two |
| IniStore.SimpleIni.GetAllValues | include/simpleIni/SimpleIni.h:2355-2386 | all pairs of the key in insertion order, or the first only; true exactly when the key exists |
| IniStore.SimpleIni.GetAllKeys | include/simpleIni/SimpleIni.h:2453-2480 | every key once, true exactly when the section exists |
| IniStore.SimpleIni.GetSectionSize | include/simpleIni/SimpleIni.h:2390-2421 | -1 without the section, the number of keys with multi-key on, the number of pairs with it off |
| IniLaws.AddLookup | include/simpleIni/SimpleIni.h:2013-2120 | an assignment changes the pairs of the section it names and of no other |
| IniLaws.AssignMatches | include/simpleIni/SimpleIni.h:2051-2118 | what an assignment does to the pairs of its key, in all four cases: with force they become one, with the smallest load order and that pair's comment if it has one; pairs of other keys are untouched |
| IniLaws.MultiKeyRun | include/simpleIni/SimpleIni.h:2096-2118 | over every run of additions with multi-key on, a key holds what it held and then every assignment to it in order |
| IniLaws.SingleKeyRun | include/simpleIni/SimpleIni.h:2051-2118 | over every run with multi-key off, the table is a map on folded names: the last assignment gives the value, the first one spelling and comment |
| IniLaws.DeleteLookup | include/simpleIni/SimpleIni.h:2730-2799 | deleting succeeds exactly when something goes; exactly the pairs asked for go, in that section only; the section goes exactly when it was deleted as a whole or became empty and removal was requested |
| IniQueries.SectionsAfterAdd | include/simpleIni/SimpleIni.h:2033-2049 | name, comment and load order of every section after an addition: unchanged, but for a new section, which has a comment only from a header; and the counter goes up by one for a new section and one for a key |
| IniQueries.SectionsAfterDelete | include/simpleIni/SimpleIni.h:2730-2799 | the same after a deletion: unchanged, but for the section that goes |
| IniLaws.SizeIsKeyCount | include/simpleIni/SimpleIni.h:2404-2421 | with one pair per key the number of pairs is the number of keys listed |
| IniRuns.EditRun | include/simpleIni/SimpleIni.h:2013-2120 | over every run of assignments with and without force and of deletions, with multi-key switched at will, the values, spellings and comments of a key are what the calls for that key make of them on their own, in load order |
| IniRuns.OnePairPerKey | include/simpleIni/SimpleIni.h:2390-2408 | over every such run with multi-key off from an empty table, no section has two pairs of one key, so that the number of pairs, which GetSectionSize returns, is the number of keys |
| IniView.ByOrderIs | include/simpleIni/SimpleIni.h:2553-2562 | sorting by load order keeps the members and makes distinct orders strictly increasing |
| IniView.IncreasingUnique | include/simpleIni/SimpleIni.h:2553-2562 | so the sorted list does not depend on how it was sorted |
| IniWriter.WriteLines | include/simpleIni/SimpleIni.h:2690-2715 | the loop writes every line, the last one too, with the line break of the platform |
| IniWriter.CheckMultiLineData | include/simpleIni/SimpleIni.h:1773-1806 | the scan says whether there is white space at either end or a line break inside |
| IniWriter.CheckSingleLineQuoted | include/simpleIni/SimpleIni.h:1810-1841 | the scan says whether there is white space in front, or white space behind and no line break |
| IniWriter.WriteVals | include/simpleIni/SimpleIni.h:2636-2679 | the values of a key as the printer gives them, each in the form the settings ask for |
| IniWriter.MoveNamelessFirst | include/simpleIni/SimpleIni.h:2566-2575 | the nameless section is moved to the front and the others keep their order |
| IniQueries.NamelessMoves | include/simpleIni/SimpleIni.h:2566-2575 | exactly the nameless section moves, to the front |
| IniWriter.WriteVal | include/simpleIni/SimpleIni.h:2618-2680 | one value; written raw, the line is key, " = " with the option for spaces and "=" without it, value and line break, or the key alone |
| IniSpelling.RawLine | include/simpleIni/SimpleIni.h:2652-2679 | the printed line of a raw value, in the three cases |
| IniSpelling.QuotedLine | include/simpleIni/SimpleIni.h:2660-2664 | with quotes on, a value with white space in front, or behind and no line break, stands in quotes |
| IniSpelling.HereLines | include/simpleIni/SimpleIni.h:2665-2674 | with multi-line on, any other value with white space at an end or a line break stands between "<<<END_OF_TEXT" and "END_OF_TEXT", every line with the line break of the platform |
| IniSpelling.CommentAbove | include/simpleIni/SimpleIni.h:2636-2645 | a comment stands above its value behind an empty line, every line with the line break of the platform |
| IniSpelling.EmptyComment | include/simpleIni/SimpleIni.h:2690-2715 | of a comment without text only the empty line is written |
| IniSpelling.SectionLines | include/simpleIni/SimpleIni.h:2586-2616 | two line breaks set a section off; its comment and its name in brackets follow |
| IniSpelling.FileLines | include/simpleIni/SimpleIni.h:2577-2585 | the file comment comes first, and only behind it is the first section set off |
| IniStore.SimpleIni.WriteKeys | include/simpleIni/SimpleIni.h:2618-2680 | all keys of a section in load order with all their values |
| IniStore.SimpleIni.GetAllSections | include/simpleIni/SimpleIni.h:2440-2449 | every section once, in table order |
| IniStore.SimpleIni.Save | include/simpleIni/SimpleIni.h:2541-2686 | the output of the imperative writer is the pure print of the object |
| IniBuild.KeysNew | include/simpleIni/SimpleIni.h:2096-2118 | a new key with the largest load order is listed last with its one value; all other listings stay |
| IniBuild.KeysMore | include/simpleIni/SimpleIni.h:2096-2118 | with multi-key on a further value of the key listed last goes to the end of its values |
| IniBuildDocument.EnsureDoc | include/simpleIni/SimpleIni.h:2036-2049 | a section that did not exist is listed last, empty |
| IniBuildDocument.BuildDocument | include/simpleIni/SimpleIni.h:1541-1544 | adding the entries of a document to an empty table gives a table that lists exactly that document |
| IniRoundTrip.ListingIsCanonical | include/simpleIni/SimpleIni.h:2553-2645 | what any well-formed table lists has no section or key twice, the nameless section first, and no key without values |
| IniRoundTrip.PrintNoNul | include/simpleIni/SimpleIni.h:2541-2686 | what is written holds no NUL, so that the reader sees all of it |
| IniRoundTrip.LoadAfterSave | include/simpleIni/SimpleIni.h:2541-2686 | whole-document round trip: for every well-formed table whose texts can be written, and under all settings, loading what was saved into a fresh object lists the same sections, keys, values and comments in the same order if and only if there is a file comment or the section written first has no comment, a nameless section has keys and no comment of its own, and with key-only on no empty value follows a non-empty one in its section; and which listing comes back otherwise, where only the first of these holds and a nameless section has no comment |
| IniRoundTrip.ReadsPlain | include/simpleIni/SimpleIni.h:2609-2616 | whatever listing was written, the nameless section of the table built from its text has no comment |
| IniRoundTrip.NamelessCommentLost | include/simpleIni/SimpleIni.h:2586-2616 | a table that does not come back: its nameless section has nothing but a comment |
| IniRoundTrip.MarkTakenOff | include/simpleIni/SimpleIni.h:1488-1496 | the bytes of a byte order mark at the front of a text are not read, whether or not they were meant as one |
| IniWhole.ReceivedText | include/simpleIni/SimpleIni.h:1488-1496 | the bytes EF BB BF in front and everything from the first NUL on are not read |
| IniWhole.SavedMark | include/simpleIni/SimpleIni.h:2541-2552 | a signature is these three bytes in front of the same text |
| IniWhole.LeadingComment | include/simpleIni/SimpleIni.h:1578-1601 | the first text that starts with a comment gives the file comment; with one already there, the comment goes to the first entry of the text |
| IniWhole.ConfigLoaded | include/simpleIni/SimpleIni.h:1479-1556 | a text with one section, a comment and one key: asked for under any case of letters, the key has exactly its value and its comment |
| IniWhole.SetThenSaved | include/simpleIni/SimpleIni.h:2541-2686 | a new object with one key set is saved as "[section]", and the key, " = " and the value in the next line |
| IniRoundTrip.NamelessListed | include/simpleIni/SimpleIni.h:2566-2616 | the nameless section is empty exactly when it is listed without keys, and so leaves no trace in the text |
| IniReadAs.SectionReadsAre | include/simpleIni/SimpleIni.h:1743-1749 | the entries read stand for the listing in which every empty value is replaced by the value in front of it |
| IniReadAs.SectsKept | include/simpleIni/SimpleIni.h:2652-2653 | that listing is the one written exactly when, with key-only on, no empty value follows a non-empty one in its section |
| IniRoundTrip.BuildsReadAs | include/simpleIni/SimpleIni.h:1541-1544 | the table built from a written listing lists it without an empty nameless section and with those replacements |
| IniReload.TurnRead | include/simpleIni/SimpleIni.h:1617-1753 | under all settings every entry read from any text without NUL has a section name, key and comment that can be written, and in single-line mode a plain value |
| IniReload.AddStaysOk | include/simpleIni/SimpleIni.h:2013-2120 | adding such an entry keeps all names, keys and comments of the table writable, and in single-line mode all values |
| IniReload.LoadedIsWritable | include/simpleIni/SimpleIni.h:1479-1556 | from any text, under all settings, the table loaded is well formed, and it can be written exactly when every value can; in single-line mode every value can |
| IniReload.ReloadIsStable | include/simpleIni/SimpleIni.h:2541-2686 | under all settings, for every text that is read through and whose values can be written: loading what was saved gives the same listing again if and only if what was loaded meets the condition of the round trip |
| IniReload.SingleLineReload | include/simpleIni/SimpleIni.h:2541-2686 | in single-line mode, with or without multi-key, this holds for every text whose headers are closed; if they are also named, the condition is that there is a file comment or no comment on the first section |
| IniHeaders.ParseHeaders | include/simpleIni/SimpleIni.h:1633-1670 | in single-line mode the reader gets through a text if and only if its lines satisfy HeadersOk: behind every "[" there is a name, closed by "]" in its line; with the flag set, none of the names is empty and no header without a name is found |
| IniHeaders.BodyHeaders | include/simpleIni/SimpleIni.h:1578-1601 | that does not depend on whether the file comment has been taken off |
| IniLimits.HereRoundTrip | include/simpleIni/SimpleIni.h:1854-1982 | a here-document gives back what was written into it if and only if that has no CR and no line that closes it |
| IniLimits.ValueRoundTrip | include/simpleIni/SimpleIni.h:2652-2678 | a written value is read back if and only if ValueOk holds: the exact domain over all settings of quotes and multi-line |
| IniLimits.TagWithTrailingSpace | include/simpleIni/SimpleIni.h:1933-1945 | a single comparison: white space behind a closing tag is ignored exactly as long as no line has been moved |
| IniLimits.HereWithTrailingSpace | include/simpleIni/SimpleIni.h:1875-1945 | a text comes back from a here-document whose closing tag has white space behind it if and only if the lines end in a single line feed |
| IniLimits.HereMarkLost | include/simpleIni/SimpleIni.h:1727-1732 | with multi-line on a plain value that starts with "<<<" is never read back |
| IniLimits.QuotedNewLineLost | include/simpleIni/SimpleIni.h:1810-1841 | a value with white space in front and a line break inside is written in quotes and never read back |
| IniLimits.QuotesAreLost | include/simpleIni/SimpleIni.h:1734-1741 | a value that carries its own quotes loses them when quotes are parsed |
| IniPool.CopyOk | include/simpleIni/SimpleIni.h:1986-2009 | a copy is a live pool member that no slot had, and reads what was copied |
| IniPool.DropOk | include/simpleIni/SimpleIni.h:2803-2820 | deleting a copy that one slot holds leaves what all other slots read unchanged |
| IniPool.EraseOk | include/simpleIni/SimpleIni.h:2755-2775 | the deleting loop on pointers: what is left reads as the table without those pairs, and no remaining pointer dangles |
| IniPool.AssignSlotsOk | include/simpleIni/SimpleIni.h:2051-2118 | assigning through pointers, with the comment of the oldest pair copied before that pair is deleted, reads as Assign and leaves no pointer dangling or shared |
| IniPool.KeepCopies | include/simpleIni/SimpleIni.h:1986-2009 | what is to be copied gets a place of its own, and what is not stays where it is |
| IniPool.EraseFrees | include/simpleIni/SimpleIni.h:2755-2775 | the deleting loop deletes the copies of key and value of every pair it removes, and no other |
| IniPool.ForcedFrees | include/simpleIni/SimpleIni.h:2060-2081 | a forced assignment deletes these copies, and that of the comment given if the old one is kept; the new pair has its own |
| IniPool.AssignHolds | include/simpleIni/SimpleIni.h:2083-2118 | any other assignment deletes none, and adds those of the value and of the key of a new pair |
| IniOwnership.AddEntryOk | include/simpleIni/SimpleIni.h:2013-2120 | AddEntry through pointers on arguments that are not strings of the object reads as Add and keeps every pointer alive and unshared |
| IniOwnership.DeleteValueOk | include/simpleIni/SimpleIni.h:2730-2799 | the same for DeleteValue |
| IniOwnership.DeleteValueFrees | include/simpleIni/SimpleIni.h:2730-2799 | exactly the copies of key and value of the pairs that go, and of the name of a section that goes, are deleted; comments stay in the pool |
| IniOwnership.BeginHolds | include/simpleIni/SimpleIni.h:2026-2049 | the comment given is copied even if it is not used, and so is the name of a new section |
| IniOwnership.LoadDataOk | include/simpleIni/SimpleIni.h:1531-1556 | the same for LoadData on a text that is read through, with the strings of the first block kept and those of later ones copied |
| IniOwnership.FirstBlockIsShared | include/simpleIni/SimpleIni.h:1531-1556 | the first text that is loaded is kept, and no string of it is copied |
| IniOwnership.StringsOwned | include/simpleIni/SimpleIni.h:1986-2009 | over every run of LoadData, SetValue, DeleteValue and Reset whose texts are read through, every string that table and file comment point to is in the block, the empty constant or a live pool member that no other slot points to, and what they read is the value-level table |
| IniOwnership.RunsFromNew | include/simpleIni/SimpleIni.h:1344-1361 | the same from a new object |
| Endian.NetworkImage | src/muduo/net/Endian.h:29-42 | on hosts of either byte order a converted value lies in memory most significant byte first |
| Endian.NetworkValue | src/muduo/net/Endian.h:44-57 | on hosts of either byte order converting back gives the value of the bytes |
| Endian.FromBigOfBig | src/muduo/net/Endian.h:29-57 | the big-endian bytes of a value have that value |
| Endian.BigOfFromBig | src/muduo/net/Endian.h:29-57 | bytes are determined by their value and number |
| Endian.BytesAre | src/muduo/net/Endian.h:29-42 | the bytes of integers of 8, 16, 32 and 64 bits in network order |
| Endian.HostBytesAre | src/muduo/net/Endian.h:29-42 | how hosts of either byte order lay out 16 and 32 bits |
| Endian.ValuesAre | src/muduo/net/Endian.h:44-57 | the values of one, two and four bytes in network order |
| Endian.HighAndLow | src/muduo/net/Endian.h:44-57 | the value of eight bytes from that of its halves |
| Endian.SignedAre | src/muduo/net/Buffer.h:290-323 | two's complement of 8, 16, 32 and 64 bits |
| GapBuffer.StepRefines | src/muduo/net/Buffer.h:113-219 | every operation whose preconditions hold keeps readerIndex <= writerIndex <= size and acts on the readable bytes as on a plain sequence |
| GapBuffer.RunRefines | src/muduo/net/Buffer.h:113-219 | the same over every run: the indices stay in order and the readable bytes are those of a plain sequence |
| GapBuffer.SpaceBound | src/muduo/net/Buffer.h:390-409 | over every run in which readable bytes plus requested space never exceed M, the vector never exceeds max(1032, 2M + 8) bytes |
| GapBuffer.NewZones | src/muduo/net/Buffer.h:48-57 | a new buffer has 8 bytes in front, nothing to read and room for 1024 |
| GapBuffer.RoomMade | src/muduo/net/Buffer.h:390-409 | after room was asked for it is there; readable bytes move down behind the first 8 exactly when that is enough, and otherwise the vector gets exactly as large as needed |
| GapBuffer.AppendZones | src/muduo/net/Buffer.h:182-187 | bytes are added behind the others; front and size stay if there is room, and otherwise are as above |
| GapBuffer.FrontAfterRetrieve | src/muduo/net/Buffer.h:113-135 | the front moves by as many bytes as were taken, and back to 8 when none is left |
| GapBuffer.OthersStay | src/muduo/net/Buffer.h:215-219 | taking the last bytes off, or putting some in front, moves no other |
| GapBuffer.ShrinkZones | src/muduo/net/Buffer.h:362-369 | after shrinking there are 8 bytes in front and at least the reserve behind, in a vector of exactly that size or of a new one |
| Buffers.Buffer.constructor | src/muduo/net/Buffer.h:48-57 | a new buffer is empty with 8 bytes in front and 1024 behind |
| Buffers.Buffer.MoveDown | src/muduo/net/Buffer.h:399-407 | the overlapping copy of the compaction leaves the readable bytes in their new place as they were |
| Buffers.Buffer.MakeSpace | src/muduo/net/Buffer.h:390-409 | growing or compacting, the three zones afterwards are those of the value model |
| Buffers.Buffer.EnsureWritableBytes | src/muduo/net/Buffer.h:194-201 | afterwards there is room for what was asked, and the readable bytes are the same |
| Buffers.Buffer.Append | src/muduo/net/Buffer.h:182-187 | the bytes are added at the end |
| Buffers.Buffer.Prepend | src/muduo/net/Buffer.h:354-360 | the bytes are added in front, in the prependable zone |
| Buffers.Buffer.Retrieve | src/muduo/net/Buffer.h:113-124 | the first bytes go, and both indices return to the start when nothing is left |
| Buffers.Buffer.RetrieveAsString | src/muduo/net/Buffer.h:164-170 | the bytes handed out are the ones taken off the front |
| Buffers.Buffer.Unwrite | src/muduo/net/Buffer.h:215-219 | the last bytes go |
| Buffers.Buffer.Shrink | src/muduo/net/Buffer.h:362-369 | a fresh vector holds the readable bytes and the reserve |
| Buffers.Buffer.AppendInt | src/muduo/net/Buffer.h:224-248 | the big-endian image of a signed integer is added at the end, on hosts of either byte order |
| Buffers.Buffer.PrependInt | src/muduo/net/Buffer.h:328-352 | the big-endian image of a signed integer is added in front |
| Buffers.Buffer.PeekInt | src/muduo/net/Buffer.h:290-323 | the signed integer whose big-endian image is in front |
| Buffers.Buffer.ReadInt | src/muduo/net/Buffer.h:254-285 | the same, and its bytes are taken off |
| Buffers.IntRoundTrip | src/muduo/net/Buffer.h:224-352 | an integer written is the one read, for every width and value |
| Packets.HeaderFields | src/data/Packet/Packet.cpp:224-247 | the fields of a header are found at their offsets, whatever follows |
| Packets.DecodeImage | src/data/Packet/Packet.cpp:209-257 | an image at the front of any bytes decodes to its packet and its own length |
| Packets.PartOfImage | src/data/Packet/Packet.cpp:209-257 | from a proper part of an image nothing is decoded |
| Packets.HeaderBytes | src/data/Packet/Packet.cpp:152-177 | the image, byte by byte: eight fields most significant byte first, payload, check field |
| Packets.CPacket.FromText | src/data/Packet/Packet.cpp:69-81 | the packet around any text: its length field has 32 bits, and the packet is valid exactly when the size of the text fits |
| Packets.CPacket.Data | src/data/Packet/Packet.cpp:152-177 | whenever the payload fits the size that follows from the length field, the moving pointer writes exactly the image of the packet; behind a shorter payload the output keeps what it held or zeros |
| Packets.CPacket.FindHeadStart | src/data/Packet/Packet.cpp:183-204 | the loop finds the first place that reads 0xEFEF, where the last place is read together with the byte behind the data |
| Packets.CPacket.ConstructData | src/data/Packet/Packet.cpp:209-257 | the advancing index yields return code, bytes used and all fields as the pure decoder gives them |
| Packets.CPacket.ReadHeader | src/data/Packet/Packet.cpp:229-242 | the advancing index reads every fixed field at its offset |
| Packets.CheckIsMeant | src/data/Packet/Packet.cpp:243-249 | when the fixed fields fit, the 64-bit size check says that payload and check field fit |
| Packets.CheckIsSafe | src/data/Packet/Packet.cpp:243-249 | the 64-bit size check keeps every payload within the data if and only if the fixed fields behind the head fit; otherwise it wraps around |
| Packets.LateHead | src/data/Packet/Packet.cpp:209-249 | an input on which it wraps around: the head stands in the last two of 34 bytes |
| MessageServer.CMuduoServer.OnMessage | src/server/MuduoNet.cpp:49-82 | one callback: the buffer afterwards and the packet handed over are those of Receive on the readable bytes |
| MessageServer.CMuduoServer.OnChunk | src/server/MuduoNet.cpp:49-82 | the same when a chunk is appended first |
| MessageServer.HeadBehindGarbage | src/data/Packet/Packet.cpp:183-204 | the head is found right behind garbage in which and at whose end no head starts |
| MessageServer.Resynchronises | src/server/MuduoNet.cpp:56-81 | for every such garbage, every valid packet and everything behind it, one callback drops the garbage, hands over the packet with all its fields and leaves exactly the rest |
| MessageServer.ConstructBehind | src/data/Packet/Packet.cpp:209-257 | with garbage in front, return code and bytes used of the decoder count from the start of the data |
| MessageServer.NoHeadDropsAll | src/server/MuduoNet.cpp:58-64 | bytes without EF EF are all dropped |
| MessageServer.PartIsKept | src/server/MuduoNet.cpp:65-76 | of garbage in front of a part of an image exactly the part is left, and nothing is handed over |
| MessageServer.WhatIsHanded | src/server/MuduoNet.cpp:56-81 | whatever arrived: a packet handed over is valid, in front of its image there was garbage, and exactly what follows it is left |
| MessageServer.WhatIsKept | src/server/MuduoNet.cpp:56-81 | whatever arrived: if nothing is handed over, no image of a packet was there behind garbage; what is left starts with EF EF behind garbage, and is empty exactly when there is no EF EF |
| StreamRuns.ReceiveFront | src/server/MuduoNet.cpp:49-82 | on the front of a stream a callback hands over exactly one packet if its whole image is there, and otherwise keeps all bytes |
| StreamRuns.ArriveInStep | src/server/MuduoNet.cpp:49-82 | one arriving chunk keeps the connection in step with the stream |
| StreamRuns.ServeHeld | src/server/MuduoNet.cpp:49-82 | no callback ever accounts for more bytes than arrived, and for fewer once a byte was dropped |
| StreamRuns.StreamConserved | src/server/MuduoNet.cpp:49-82 | for every stream of packets and every chunking of a part of it: the packets handed over are the first ones sent, in order and in exactly the number HandedOver gives, and the buffer holds exactly the bytes received after them, if and only if no single byte arrived on an empty buffer and was dropped; otherwise this holds for no number |
| StreamRuns.HandedAtLeast | src/server/MuduoNet.cpp:49-82 | one callback hands over at most one packet, so at least m packets have been handed over exactly when there were m callbacks and, j callbacks before the end, at least m - j packets had arrived completely |
| StreamRuns.AllHandedOver | src/server/MuduoNet.cpp:49-82 | so all packets have been handed over exactly when this holds of their number; two packets in one chunk need a further callback |
| StreamRuns.FirstByteDropped | src/server/MuduoNet.cpp:58-64 | a stream that starts with a chunk of one byte loses it |
| BoundedQueue.StepInv | src/muduo/base/BoundedBlockingQueue.h:30-66 | every step of every thread keeps the invariant |
| BoundedQueue.NoLostWakeup | src/muduo/base/BoundedBlockingQueue.h:30-66 | over every run of any number of threads, with spurious wakeups: while consumers (producers) wait, queue size (free slots) is at most the woken ones not yet rerun, plus one while the owner of the mutex is about to use or announce one; so with capacity at least 1 both kinds never wait with nobody on the way |
| BoundedQueue.FirstInFirstOut | src/muduo/base/BoundedBlockingQueue.h:30-66 | over every run the elements put are those taken followed by the queue, the size never exceeds the capacity, and both assertions hold |
| BoundedQueue.Linearizable | src/muduo/base/BoundedBlockingQueue.h:30-66 | over every run the calls, in the order of their steps on the queue, put and get exactly what a plain queue of that capacity would; the elements put are the arguments of the put calls |
| BoundedQueue.GotStays | src/muduo/base/BoundedBlockingQueue.h:40-54 | what a call got is what it returns, whatever other threads do |
| BoundedQueue.HolderSound | src/muduo/base/Mutex.h:149-195 | over every run, also across Condition::wait, a holder_ other than 0 names the owner of the mutex, and the owner finds itself named between lock and unlock |
| BoundedQueue.AnswerStays | src/muduo/base/Mutex.h:136-140 | isLockedByThisThread reads holder_ without the lock; whatever other threads do over a whole run, the answer for a thread that makes no step stays the same |
| BoundedQueue.NoDeadlock | src/muduo/base/BoundedBlockingQueue.h:30-66 | no call can move if and only if every call under way waits; then there is no room for those that wait, and with capacity at least 1 they are all of one kind |
| BoundedQueue.StepsDecrease | src/muduo/base/BoundedBlockingQueue.h:30-66 | every step of a call under way, including the wakeups it causes, brings the whole system closer to rest |
| BoundedQueue.RunsEnd | src/muduo/base/BoundedBlockingQueue.h:30-66 | without new calls and spurious wakeups every run ends within a number of steps known beforehand |
| UnboundedQueue.StepInv | src/muduo/base/BlockingQueue.h:31-69 | every step of put, take and drain keeps the invariant, for both orders of unlock and notify |
| UnboundedQueue.NoLostWakeup | src/tools/ThreadSafeQueue.h:18-40 | over every run, while a consumer waits, the queue size is at most the consumers on the way to take plus the producers that have yet to notify; when the mutex is free these are the woken consumers and, only if producers notify after unlocking, those that have unlocked and not yet notified |
| UnboundedQueue.FirstInFirstOut | src/muduo/base/BlockingQueue.h:31-69 | over every run the elements put are those taken or drained followed by the queue |
| UnboundedQueue.Linearizable | src/muduo/base/BlockingQueue.h:31-69 | the same for put, take and drain: a drain gets the whole queue and leaves it empty |
| UnboundedQueue.GotStays | src/muduo/base/BlockingQueue.h:44-69 | what a call got is what it returns |
| UnboundedQueue.NoDeadlock | src/tools/ThreadSafeQueue.h:18-40 | no call can move if and only if every call under way is a waiting consumer; then the queue is empty |
| UnboundedQueue.RunsEnd | src/tools/ThreadSafeQueue.h:18-40 | without new calls and spurious wakeups every run ends within a number of steps known beforehand |

## Left out

- IniRoundTrip.LoadAfterSave: an output without signature that starts with the bytes of a byte order mark is excluded; the loader takes them for a signature (`IniRoundTrip.MarkTakenOff`).
- IniReload.ReloadIsStable: as for `LoadAfterSave`, an output that starts with the bytes of a byte order mark is excluded; so are texts that are not read through, and outside single-line mode values that were read but cannot be written (`IniLimits.ValueRoundTrip`).
- IniBlocks.LoadHere: a here-document that its first line closes has no text of its own; the value then runs on to wherever the next string of the buffer is closed, and only the cursor and the frame are claimed.
- IniParser.FindValue: nothing is said of that value.
- IniParser.KeyLine: nothing is said of that value.
- IniParser.FindEntry: nothing is said of that value, nor of the entry found behind a "[" without "]" in its line; cursor and frame are claimed.
- IniStore.SimpleIni.AddEntries: for a text that holds such a line the table is only known to be well formed.
- IniOrder.IsLess: where `char` is unsigned, the order of characters above 127 differs; which names are equal does not depend on it.
- IniStore.SimpleIni.LoadData: for a text on which the reader loses its place the table is only known to be well formed; what the source reads there depends on which strings of the buffer happen to be closed later.
- IniOwnership.AddEntryOk: arguments that are strings of the object itself are excluded, as the source does not expect them.
- IniOwnership.LoadDataOk: texts that are not read through are excluded, as in `IniStore.SimpleIni.LoadData`; the section pointer of entries before the first header is the constant empty string in the source and a string of the block here, and both last equally long.
- IniOwnership.StringsOwned: the same texts are excluded.
- IniOwnership.RunsFromNew: the same texts are excluded.
- Packets.CPacket.Data: a payload longer than the output string is excluded; the source writes behind the string.
- Packets.CPacket.ConstructData: data whose head starts fewer than 34 bytes before the end is excluded; there the source reads behind its data (`Packets.CheckIsSafe`).
- UnboundedQueue.StepInv: the steps of `holder_` are those of BoundedQueue and are not repeated.
- UnboundedQueue.NoDeadlock: `CThreadSafeQueue::destroy` is left out; a `pop` that wakes on an empty destroyed queue has no defined result.
- `size`, `empty`, `full` and `capacity` of the queues, and the timed wait of `Condition`: they change nothing.
- Overflow of the load-order counter and of sizes, and failing allocations.
- File input and output, wide characters, the other converters, and the typed getters and setters, which go through `strtol`, `strtod` and `snprintf`.
- The setters of the options and `GetSection`: easy members only.
- The constructor of `CPacket` from raw bytes, which uses an old head and old bounds, its copy and move members, and the log output of the server.
- `Buffer::findCRLF`, `findEOL`, `retrieveUntil`, `swap` and `readFd`.
- Database, FTP, HTTP, logging and SQL code: calls into libraries that are not visible, or flat string building.
