# JMdict entry extraction, modelled in Dafny

This project models the core of the JMdict database generator in jisho-lens:
`JmdictSource`, the class that turns a parsed JMdict document into a sequence
of dictionary entry records. It has three parts.

- **The source object.** It is created with the path of the compressed
  dictionary. A null or empty path is rejected.
- **The entity table builder (`ParseEntities`).** It splits the text of the
  document type declaration on line feeds and keeps the lines that start with
  `<!ENTITY`. It matches each kept line against the pattern
  `<!ENTITY (?<key>.+) "(?<definition>.+)">` and writes `definition -> key`
  into a dictionary, so a later line with the same definition replaces an
  earlier one. The loop never looks at whether the match succeeded. A kept
  line that does not match therefore writes the empty definition with the
  empty key.
- **The entry query in `GetEntries`.** The document must have a root element
  and a document type. Each `entry` child of the root then becomes one
  record, numbered from 1 in document order:
  - the sequence number is `int.Parse` of the first `ent_seq` value, or of
    `"0"` when there is none;
  - kanji come from `k_ele`, using the `keb` text and the `ke_pri` values;
  - a reading from `r_ele` is kept only if it has no `re_nokanji` child
    **and** the entry has at most one `r_ele`;
  - senses keep their `gloss` and `xref` values verbatim, and every `pos`
    value is looked up in the entity table. A value missing from the table
    is an error.

The model is built from these files:

- `wrappers.dfy`: `Option` and `Result`.
- `lines.dfy`: `string.Split("\n")` and its inverse `Join`.
- `number_parsing.dfy`: the part of `int.Parse` the sequence number goes
  through.
- `xml.dfy`: the element tree, `Elements(n)`, `Element(n)` and `Value`.
- `entity_regex.dfy`: a deterministic matcher for the one entity pattern. It
  takes the leftmost start, then the longest key that still leaves room for
  a definition, then the longest definition, as a backtracking engine does
  with greedy `.+`. `.` does not match a line feed, and the pattern is not
  anchored at the end.
- `entity_table.dfy`: `ParseEntities` as a method with a loop that updates a
  `map`, proved equal to the specification function `EntityTable`, plus the
  lemmas about that table. `TableOf` and its lemmas about writes are stated
  for any way `groups` of reading the two groups from a line. The builder
  instantiates it with `Groups`, the regular-expression groups.
- `jmdict_entries.dfy`: the records and the LINQ query, as pure functions
  returning `Result`.
- `jmdict_source.dfy`: the `JmdictSource` class, its path check, `GetEntries`
  and the whole-extraction specification `Extract`.

The source handles every failure by throwing an exception. Each one is an
`Error` value here:

- `EmptyPath` is the constructor's `ArgumentException`.
- `MissingRoot` and `MissingEntities` are the two structural checks.
- `MalformedEntrySequence` is the `FormatException` or `OverflowException`
  from `int.Parse`.
- `UnknownPartOfSpeech` is the dictionary lookup's `KeyNotFoundException`.

Some behaviour of the code is easy to miss, and the model keeps it as written:

- A kept line that the pattern does not match is not skipped. It writes
  `"" -> ""` (see `Entities.MalformedDeclarationWritesEmpty`).
- Only an absent document type fails. A document type with no `<!ENTITY`
  line gives an empty table.
- A declaration closed with `"/>` does not match the pattern (see
  `EntityRegex.SelfClosingDeclarationFails`), so it writes `"" -> ""`.
- The comment above the reading filter (DbGenerator/Business/JmdictDomain/JmdictSource.cs:92-93)
  says a no-kanji reading is dropped only when it is not the only reading.
  The predicate at line 94 drops every reading of an entry that has more than
  one. The model keeps the predicate as written (see
  `JmdictEntries.ReadingFilterRule`).

## Model

| member | source | states |
|---|---|---|
| `JmdictSource.JmdictSource.Create` | DbGenerator/Business/JmdictDomain/JmdictSource.cs:31-39 | A null or empty path fails with the argument error. Any other path succeeds and is stored unchanged. |
| `JmdictSource.JmdictSource.constructor` | DbGenerator/Business/JmdictDomain/JmdictSource.cs:38 | The stored archive path is the given path. |
| `JmdictSource.JmdictSource.GetEntries` | DbGenerator/Business/JmdictDomain/JmdictSource.cs:56-111 | A missing root fails first, then a missing document type. Otherwise the result is `Extract(doc)`, with the entity table built by the imperative `ParseEntities` before any entry is mapped. |
| `JmdictSource.Extract` | DbGenerator/Business/JmdictDomain/JmdictSource.cs:68-79 | A missing root gives `MissingRoot`. A root without a document type gives `MissingEntities`. A success implies both were present. |
| `JmdictSource.ExtractEntries` | DbGenerator/Business/JmdictDomain/JmdictSource.cs:79-108 | Extraction succeeds iff every entry's sequence number parses and every part of speech is in the table. On success there is one record per `entry` child of the root, in order, and the ids are 1, 2, 3, ... |
| `JmdictEntries.SelectFrom` | DbGenerator/Business/JmdictDomain/JmdictSource.cs:79 | The indexed `Select`, enumerated to the end, succeeds iff every element's projection succeeds. Result `i` is then the projection of element `i` at index `i`. A failure carries the error of the first failing element, and every earlier element succeeds. |
| `JmdictEntries.MapEntriesSpec` | DbGenerator/Business/JmdictDomain/JmdictSource.cs:79-85 | The entry query succeeds iff each entry's sequence number parses and its parts of speech resolve. It then gives exactly one record per entry element, in document order, with `id == index + 1`. A failure carries the error of the first entry that fails, in document order. |
| `JmdictEntries.EntryOutcome` | DbGenerator/Business/JmdictDomain/JmdictSource.cs:84-85 | An entry fails iff its sequence number does not parse or one of its senses has an unresolvable part of speech. Otherwise its id is its position plus one and its sequence number is the parsed `ent_seq`. |
| `JmdictEntries.EntryFailure` | DbGenerator/Business/JmdictDomain/JmdictSource.cs:84-106 | A sequence number that does not parse is the entry's error, before any part of speech is looked up. Otherwise the error is that of the first sense with a part of speech missing from the table. |
| `JmdictEntries.MapEntry` | DbGenerator/Business/JmdictDomain/JmdictSource.cs:80-107 | The projection of one `entry` element. It has no contract of its own: `EntryOutcome`, `EntryFailure`, `EntryKanji`, `EntryReadings` and `EntrySenses` state what it gives. |
| `JmdictEntries.MapEntries` | DbGenerator/Business/JmdictDomain/JmdictSource.cs:79 | The whole entry query: `SelectFrom` over the `entry` elements with `MapEntry`. It has no contract of its own: `MapEntriesSpec` states what it gives. |
| `JmdictEntries.EntrySequence` | DbGenerator/Business/JmdictDomain/JmdictSource.cs:85 | With no `ent_seq` child the value is 0. With one, the value is `int.Parse` of the first child's value, and a parse failure is an error carrying that text. A success is within the 32-bit range. |
| `JmdictEntries.EntrySequenceRoundTrip` | DbGenerator/Business/JmdictDomain/JmdictSource.cs:85 | An `ent_seq` holding the decimal text of any 32-bit integer gives exactly that integer. |
| `JmdictEntries.EntrySequenceNotNumeral` | DbGenerator/Business/JmdictDomain/JmdictSource.cs:85 | A present `ent_seq` fails with a format error, and does not default to 0, exactly when its value is not a numeral (an optional sign and digits) padded with white space. |
| `JmdictEntries.EntryKanji` | DbGenerator/Business/JmdictDomain/JmdictSource.cs:86-90 | There is one kanji record per `k_ele`, in order. Its text is the first `keb` value, or `""` if there is none. Its priorities are all its `ke_pri` values in order. |
| `JmdictEntries.KanjiElements` | DbGenerator/Business/JmdictDomain/JmdictSource.cs:86-90 | The kanji query. It has no contract of its own: `EntryKanji` states what it gives. |
| `JmdictEntries.MapKanji` | DbGenerator/Business/JmdictDomain/JmdictSource.cs:87-90 | One kanji record. It has no contract of its own: `EntryKanji` states its text and priorities. |
| `JmdictEntries.EntryReadings` | DbGenerator/Business/JmdictDomain/JmdictSource.cs:91-98 | The readings are `[the only r_ele, mapped]` when the entry has exactly one `r_ele` and it has no `re_nokanji` child. Otherwise they are empty. A kept reading has the first `reb` value (or `""`) and all its `re_pri` values. |
| `JmdictEntries.ReadingElements` | DbGenerator/Business/JmdictDomain/JmdictSource.cs:91-98 | The reading query. It has no contract of its own: `EntryReadings` and `ReadingFilterRule` state what it gives. |
| `JmdictEntries.MapReading` | DbGenerator/Business/JmdictDomain/JmdictSource.cs:95-98 | One reading record. It has no contract of its own: `EntryReadings` states its text and priorities. |
| `JmdictEntries.KeepReading` | DbGenerator/Business/JmdictDomain/JmdictSource.cs:94 | The `where` predicate. It has no contract of its own: `ReadingFilterRule` states which readings it keeps. |
| `JmdictEntries.FilterReadings` | DbGenerator/Business/JmdictDomain/JmdictSource.cs:91-94 | The `where` filter keeps no more readings than it is given. When the entry has more than one reading element it keeps none. |
| `JmdictEntries.ReadingFilterRule` | DbGenerator/Business/JmdictDomain/JmdictSource.cs:91-94 | With two or more readings the output is empty. With one reading, it is kept iff it has no `re_nokanji` child. With none, the output is empty. So there is never more than one reading. |
| `JmdictEntries.EntrySenses` | DbGenerator/Business/JmdictDomain/JmdictSource.cs:99-106 | There is one sense per `sense` element, in order, each the successful `MapSense` of that element. |
| `JmdictEntries.MapSense` | DbGenerator/Business/JmdictDomain/JmdictSource.cs:99-106 | A sense succeeds iff every `pos` value is in the table. Its glossaries and cross-references are the `gloss` and `xref` values verbatim and in order. Its parts of speech have the length of the `pos` children, and element `i` is `table[pos_i.Value]`. A failure names the first `pos` value missing from the table. |
| `JmdictEntries.MapSenses` | DbGenerator/Business/JmdictDomain/JmdictSource.cs:99-106 | The sense query succeeds iff every sense resolves. It then has one sense per element, each the projection of that element. A failure carries the error of the first sense that does not resolve. |
| `JmdictEntries.ResolvePartsOfSpeech` | DbGenerator/Business/JmdictDomain/JmdictSource.cs:104 | Lookup succeeds iff every value is a key of the table, giving `table[v_i]` position by position. A failure names the first missing value. |
| `Entities.ParseEntities` | DbGenerator/Business/JmdictDomain/JmdictSource.cs:113-129 | The dictionary the loop builds is `EntityTable(dtd)`: one write per `<!ENTITY` line of `dtd.Split("\n")`, in order, each `definition -> key`. |
| `Entities.DefinitionGroup` | DbGenerator/Business/JmdictDomain/JmdictSource.cs:124 | The definition group is empty iff the line does not match the pattern. |
| `Entities.KeyGroup` | DbGenerator/Business/JmdictDomain/JmdictSource.cs:123 | The key group is empty iff the line does not match the pattern, and it never contains a line feed. |
| `Entities.IsDeclaration` | DbGenerator/Business/JmdictDomain/JmdictSource.cs:120 | An ordinal prefix test for `<!ENTITY`. It has no contract of its own: `TableDomain` states that only such lines write to the table. |
| `Entities.TableOf` | DbGenerator/Business/JmdictDomain/JmdictSource.cs:117-126 | The dictionary after a prefix of the lines, one write per declaration line in order. It has no contract of its own: `TableDomain`, `LastWriteWins` and `EntryHasLastWriter` state what it holds. |
| `Entities.EntityTable` | DbGenerator/Business/JmdictDomain/JmdictSource.cs:113-128 | The dictionary `ParseEntities` returns, as a function of the document type text. It has no contract of its own: `ParseEntities` is proved equal to it, and `MalformedDeclarationWritesEmpty` and `DoctypeRoundTrip` state what it holds. |
| `Entities.TableDomain` | DbGenerator/Business/JmdictDomain/JmdictSource.cs:117-125 | A definition is in the table iff some line starting with `<!ENTITY` has it as its definition group. No other line writes. |
| `Entities.LastWriteWins` | DbGenerator/Business/JmdictDomain/JmdictSource.cs:123-125 | The table maps a definition to the key of the last declaration line that writes it. |
| `Entities.EntryHasLastWriter` | DbGenerator/Business/JmdictDomain/JmdictSource.cs:117-125 | Every table entry comes from the last declaration line that writes its definition, and holds that line's key. |
| `Entities.MalformedDeclarationWritesEmpty` | DbGenerator/Business/JmdictDomain/JmdictSource.cs:118-125 | `""` is in the table iff some `<!ENTITY` line fails the pattern, and then it maps to `""`. Such lines are not skipped. |
| `Entities.DeclarationInTable` | DbGenerator/Business/JmdictDomain/JmdictSource.cs:118-131 | The line `<!ENTITY k "d">`, with `d` free of ` "`, puts `d -> k` in the table unless a later line writes `d`. |
| `Entities.DoctypeRoundTrip` | DbGenerator/Business/JmdictDomain/JmdictSource.cs:118-131 | The same round trip stated on the document type text: the lines are joined with line feeds, then split again by the builder. |
| `EntityRegex.MatchEntity` | DbGenerator/Business/JmdictDomain/JmdictSource.cs:121 | The match is none iff the pattern matches nowhere in the line. Otherwise it is the leftmost-start, longest-key, longest-definition match. |
| `EntityRegex.FirstStart` | DbGenerator/Business/JmdictDomain/JmdictSource.cs:131 | Gives the first start position with a match, and no earlier one has a match. Its key and definition ends are the greedy ones for that start. |
| `EntityRegex.LastKeyEnd` | DbGenerator/Business/JmdictDomain/JmdictSource.cs:131 | Gives the longest key that admits a definition, with no longer one admitting any. It comes with the longest definition for that key. |
| `EntityRegex.LastDefinitionEnd` | DbGenerator/Business/JmdictDomain/JmdictSource.cs:131 | Gives the longest definition for a fixed start and key end, and no longer one matches. |
| `EntityRegex.DeclarationRoundTrip` | DbGenerator/Business/JmdictDomain/JmdictSource.cs:131 | On `<!ENTITY k "d">`, with non-empty `k` and `d` free of line feeds and `d` free of ` "`, the key group is `k` and the definition group is `d`. |
| `EntityRegex.NoSeparatorAfterKey` | DbGenerator/Business/JmdictDomain/JmdictSource.cs:131 | In such a declaration, no ` "` after the key leaves room for a definition and `">`. So the greedy key stops at `k`. |
| `EntityRegex.SelfClosingDeclarationFails` | DbGenerator/Business/JmdictDomain/JmdictSource.cs:131 | A declaration closed with `"/>` and no other `>` does not match the pattern. |
| `Lines.Split` | DbGenerator/Business/JmdictDomain/JmdictSource.cs:119 | The split gives at least one piece, and no piece contains a line feed. |
| `Lines.JoinSplit` | DbGenerator/Business/JmdictDomain/JmdictSource.cs:119 | Joining the pieces with line feeds gives back the original text. |
| `Lines.SplitJoin` | DbGenerator/Business/JmdictDomain/JmdictSource.cs:119 | Splitting the join of line-feed-free pieces gives back the same pieces. |
| `NumberParsing.ParseInt32` | DbGenerator/Business/JmdictDomain/JmdictSource.cs:85 | A success lies in the 32-bit range, and the text contains a digit. `ParseInt32Format` states exactly which texts fail with a format error. |
| `NumberParsing.ParseInt32Format` | DbGenerator/Business/JmdictDomain/JmdictSource.cs:85 | The format error happens exactly when the text is not a numeral (an optional `-` or `+`, then at least one digit) with only white space before and after it. Every other text parses or overflows. |
| `NumberParsing.ParseDigits` | DbGenerator/Business/JmdictDomain/JmdictSource.cs:85 | A non-empty all-digit text parses to its decimal value, or overflows above 2147483647. |
| `NumberParsing.ParseSigned` | DbGenerator/Business/JmdictDomain/JmdictSource.cs:85 | After trimming, a success lies in the 32-bit range and the text contains a digit. `ParseSignedFormat` states exactly which texts fail with a format error. |
| `NumberParsing.ParseSignedFormat` | DbGenerator/Business/JmdictDomain/JmdictSource.cs:85 | On the trimmed text, the format error happens exactly when the text is not an optional `-` or `+` followed by at least one digit. |
| `NumberParsing.TrimmedNumeral` | DbGenerator/Business/JmdictDomain/JmdictSource.cs:85 | Trimming the white space leaves a numeral exactly when the text is a numeral with only white space around it. |
| `NumberParsing.ParseNegativeDigits` | DbGenerator/Business/JmdictDomain/JmdictSource.cs:85 | `-` followed by a non-empty all-digit text parses to minus its decimal value, or overflows below -2147483648. |
| `NumberParsing.ParseShow` | DbGenerator/Business/JmdictDomain/JmdictSource.cs:85 | Every 32-bit integer written in decimal parses back to itself. |
| `NumberParsing.ParseZero` | DbGenerator/Business/JmdictDomain/JmdictSource.cs:85 | The default text `"0"` parses to 0. |
| `Xml.FirstNamed` | DbGenerator/Business/JmdictDomain/JmdictSource.cs:85 | `Element(n)` is none iff no child is named `n`. Otherwise it is the first of `Elements(n)`. |
| `Xml.FirstElement` | DbGenerator/Business/JmdictDomain/JmdictSource.cs:85 | `Element(n)` of an element. It has no contract of its own: `FirstNamed` states what it gives. |
| `Xml.TextOf` | DbGenerator/Business/JmdictDomain/JmdictSource.cs:88 | `Element(n)?.Value ?? ""` is the first named child's value, or `""` if there is none. |
| `Xml.Elements` | DbGenerator/Business/JmdictDomain/JmdictSource.cs:81 | `Elements(n)` of an element. It has no contract of its own: `NamedMembers` and `NamedAppend` state what it holds. |
| `Xml.Values` | DbGenerator/Business/JmdictDomain/JmdictSource.cs:89 | `Select(p => p.Value)`, also used at lines 97, 101 and 105. It has no contract of its own: `EntryKanji`, `EntryReadings` and `MapSense` state the values it gives. |
| `Xml.NamedMembers` | DbGenerator/Business/JmdictDomain/JmdictSource.cs:81 | `Elements(n)` holds exactly the children named `n`. |
| `Xml.NamedAppend` | DbGenerator/Business/JmdictDomain/JmdictSource.cs:81 | `Elements(n)` keeps document order: it distributes over concatenation. |

## Left out

- Gzip decompression, the file and memory streams and the seek back to the
  start (lines 41-54). These are file I/O and a foreign compression library.
- `XmlReader`, `XDocument.Load` and the DTD-processing settings (lines
  59-67). Instead, the parsed document is an input: an optional root element
  and the optional text of `DocumentType.ToString()`. Each element's `Value`
  is taken as the XML library computes it.
- The `Console.WriteLine` progress messages. They have no effect on the
  result.
- `async`/`await` and lazy evaluation. The result is built eagerly. In the
  source, sequence-number and part-of-speech failures surface only when the
  caller enumerates the records, and only for the parts it enumerates. The
  model reports a failure if any entry would fail. It reports the first
  failing entry in document order (`MapEntriesSpec`), checking its sequence
  number before its senses (`EntryFailure`).
- The regular-expression engine in general. Only this one pattern is
  modelled.
- Culture-sensitive string comparison in `StartsWith("<!ENTITY")`. The model
  uses an ordinal prefix test, so characters that a culture comparison
  ignores are not ignored.
- `NumberParsing.ParseInt32`: the model accepts only ASCII `-` and `+` as
  signs and does not accept trailing NUL characters. The source's culture
  may have other signs, and `int.Parse` allows trailing NULs.
- `JmdictEntries.MapEntry`: the `Id` is `index + 1` as an unbounded integer.
  A document with more than 2147483647 entries would overflow the source's
  `int`. The model does not capture this.
- `JmdictSource.JmdictSource.constructor`: requires a non-empty path,
  because a Dafny constructor cannot fail. The rejection of a null or empty
  path with an argument error is modelled by `JmdictSource.JmdictSource.Create`.
