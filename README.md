# free-dictionary-api: the dictionary file conversion, modelled in Dafny

The service turns a GCIDE dictionary file into dictionary entries. The model
covers three parts of it.

- **Processing** (`XmlProcessor.processAndPersistXml` and `countOccurrences`):
  - The file text is cut into paragraph blocks. A block starts at a `<p>` and runs to the first `</p>` after it.
  - The block is then extended, `</p>` by `</p>`, until its `<p>` and `</p>` counts are equal.
  - Each block goes through fifteen regular-expression replacements.
  - A block that still holds a comment that is never closed is skipped.
  - Every other block is parsed. A block with an `<ent>` tag starts a new entry. Any other block adds quotes, definitions and synonyms to the previous entry.
- **Extraction** (`XmlParserDOMImpl`): `parseDefinition`, `parseQuote`,
  `parseMoreDefinition`, `parseMoreSynonyms`, `normalizeHeadword` and
  `isInsideDef`. Each works on the parsed tree of one block.
- **Mapping** (`DictionaryEntryMapper`): `toEntity` and `toPojo`, the
  field-by-field copy between the parser's entry and the storage record.

The model has the same form as the code:

- **Value specifications.** The work of each part is stated as functions on values:
  - `Normalizer.Normalize`, the replacement chain;
  - `Processor.NextCut`, `NextStep` and `ConvertFrom`, the loop;
  - `Extractor.DefinitionEntry`, `WithQuote`, `WithMoreDefinition` and `WithMoreSynonyms`, the extractor;
  - `Mapper.Mapped`, the mapper.
- **The entry is an object.** `Entities.Entry` is a class whose lists the parse methods append to in place.
- **Loops become methods.** The loops of the code are methods with loop invariants: `CountOccurrences`, `BalancedBlock`, `ProcessFile`, `IsInsideDef`, `AddPartsOfSpeech`, `AddLabels`, `AddVerbMorphology`, `ToEntity` and `ToPojo`.
- **Each method is proved against its function.** For example, `ProcessFile` returns the entries that `Convert` computes, or the failure that stops it. Separate lemmas then state what those functions guarantee.

Modules:

| module | contents |
|---|---|
| `Text` | the `String` operations: `indexOf`, `replaceAll` with a literal pattern, `trim` and `split`, with Java's `\s` and `\w` classes |
| `Dom` | the parsed tree, `getElementsByTagName` in document order, `getTextContent` and `isInsideDef` |
| `Entities` | the entry and its records |
| `Normalizer` | the replacement chain and the unclosed-comment test |
| `Extractor` | what each parse method takes from a tree, as functions |
| `DomParser` | the parse methods that fill in an `Entry` |
| `Processor` | the segmentation, the dispatch and the whole loop |
| `Mapper` | the mapper |

These points of behaviour come out of the model:

- **Normalization is not idempotent.** `<<?/?/` normalizes to `<?/`, which normalizes to the empty string.
- **Ampersands.** Every `&` in a normalized block starts an entity reference.
- **`<lt/` and `<gt/`.** They become `&lt` and `&gt` without a semicolon, so the next replacement turns them into `&amp;lt` and `&amp;gt`.
- **Part-of-speech labels.** The labels added to an entry are always values of the abbreviation table. A `<pos>` inside a `<def>` adds none.
- **Entries only grow.** Earlier entries are never changed by later blocks. The last entry only grows, and every entry of a finished run has an entry word.
- **The mapper loses the etymology.** Mapping in either direction keeps every field except the etymology, which it leaves unset. So `toPojo(toEntity(e))` loses exactly the etymology.

Two points of the code's control flow shape the model:

- **Parser errors abort the whole file.** A block the XML parser rejects raises `XmlParserException` out of `processAndPersistXml`, because only `IOException` and `URISyntaxException` are caught (XmlProcessor.java line 131). The whole file is therefore abandoned and nothing is saved: `Aborted(ParseFailed(block))`.
- **The unclosed-comment test runs on the normalized block** (XmlProcessor.java lines 86-104).

## Model

| member | source | states |
|---|---|---|
| Processor.CountOccurrences | src/main/java/cc/suvankar/dictionaryapi/services/XmlProcessor.java:163-172 | the count the `indexOf` scan returns equals the number of non-overlapping occurrences of `sub` taken left to right |
| Text.OccurrencesZero | src/main/java/cc/suvankar/dictionaryapi/services/XmlProcessor.java:163-172 | the count is zero exactly when `sub` does not occur in the string |
| Text.CountFromNone | src/main/java/cc/suvankar/dictionaryapi/services/XmlProcessor.java:166 | counting from `k` finds nothing exactly when `sub` does not occur at or after `k` |
| Text.OccurrencesFrom | src/main/java/cc/suvankar/dictionaryapi/services/XmlProcessor.java:166-169 | from index `k`: no match means no occurrence is left; a match counts one and the count resumes after the match's end |
| Text.IndexOf | src/main/java/cc/suvankar/dictionaryapi/services/XmlProcessor.java:63-64 | `indexOf` returns the first occurrence at or after `from`, or -1 when there is none after `from` |
| Processor.Extend | src/main/java/cc/suvankar/dictionaryapi/services/XmlProcessor.java:78-83 | the extended block ends at a `</p>` at or after the first one |
| Processor.ExtendBalanced | src/main/java/cc/suvankar/dictionaryapi/services/XmlProcessor.java:78-83 | the block the extension ends with has as many `<p>` as `</p>` |
| Processor.ExtendFirst | src/main/java/cc/suvankar/dictionaryapi/services/XmlProcessor.java:78-83 | the extension stops at the first balancing `</p>`: every `</p>` before it leaves the block unbalanced |
| Processor.BalancedBlock | src/main/java/cc/suvankar/dictionaryapi/services/XmlProcessor.java:68-83 | the inner loop finds the end `Extend` specifies, and the block is the substring from the `<p>` through that `</p>` |
| Processor.NextCut | src/main/java/cc/suvankar/dictionaryapi/services/XmlProcessor.java:63-83 | a block found from `start` opens at or after `start`, at least three characters before its last `</p>`, which lies inside the file |
| Processor.NextCutBlock | src/main/java/cc/suvankar/dictionaryapi/services/XmlProcessor.java:63-83 | a cut block starts at the first `<p>` from `start`, ends with a `</p>`, and `countOccurrences` finds as many `<p>` as `</p>` in it |
| Processor.FindBlock | src/main/java/cc/suvankar/dictionaryapi/services/XmlProcessor.java:63-83 | the search for `<p>`, then `</p>`, then the balancing `</p>` gives `NextCut`, and the block is the substring it delimits |
| Processor.NextStep | src/main/java/cc/suvankar/dictionaryapi/services/XmlProcessor.java:63-122 | after a skipped or parsed block the loop resumes strictly past `start`, inside the file, so the loop ends |
| Processor.ConvertNoParagraph | src/main/java/cc/suvankar/dictionaryapi/services/XmlProcessor.java:63 | with no `<p>` at or after `start` the loop ends with the entries gathered so far |
| Processor.ConvertNoClose | src/main/java/cc/suvankar/dictionaryapi/services/XmlProcessor.java:63-66 | when no `</p>` follows the next `<p>`, the loop breaks with the entries gathered so far |
| Processor.ConvertSkipsUnclosedComment | src/main/java/cc/suvankar/dictionaryapi/services/XmlProcessor.java:101-107 | a cut block whose normalized text matches the unclosed-comment pattern is passed over: the run resumes at its closing `</p>` with the same entries |
| Processor.ConvertAbsorbsBlock | src/main/java/cc/suvankar/dictionaryapi/services/XmlProcessor.java:109-122 | any other cut block goes to the parser: a rejection aborts the run with the normalized block, a tree is absorbed into the entries and the run resumes at the block's closing `</p>` |
| Processor.AbsorbSpec | src/main/java/cc/suvankar/dictionaryapi/services/XmlProcessor.java:110-120 | a block adds one entry exactly when it has an `<ent>`, and that entry carries the block's entry word; entries before the last are untouched and the last only grows |
| Processor.ContinueGrows | src/main/java/cc/suvankar/dictionaryapi/services/XmlProcessor.java:115-119 | a continuation block keeps the word, headword, etymology, parts of speech and verb forms, and only appends quotes, definitions and synonyms |
| Processor.ConvertKeeps | src/main/java/cc/suvankar/dictionaryapi/services/XmlProcessor.java:63-123 | over a whole run, every entry gathered so far keeps its place and only grows |
| Processor.ConvertNamed | src/main/java/cc/suvankar/dictionaryapi/services/XmlProcessor.java:110-113 | every entry of a completed run has an entry word |
| Processor.Dispatch | src/main/java/cc/suvankar/dictionaryapi/services/XmlProcessor.java:110-120 | succeeds exactly when the block parses; then the entry list becomes `Absorb` of the old one, with the new entry as the previous one, or the previous entry continued in place |
| Processor.ContinueLast | src/main/java/cc/suvankar/dictionaryapi/services/XmlProcessor.java:115-119 | a block without a new entry adds its quote, definitions and synonyms to the last entry in place; every earlier entry keeps its value |
| Processor.Visit | src/main/java/cc/suvankar/dictionaryapi/services/XmlProcessor.java:86-122 | one block normalized, tested and dispatched; the run from `start` equals the run from the block's end with the new entries, or aborts with the normalized block |
| Processor.Turn | src/main/java/cc/suvankar/dictionaryapi/services/XmlProcessor.java:63-122 | one turn of the outer loop: it resumes further on with the same result of the run, or ends it with the entries or the failure `ConvertFrom` gives |
| Processor.ProcessFile | src/main/java/cc/suvankar/dictionaryapi/services/XmlProcessor.java:52-134 | the entry objects built in place have exactly the values `Convert` computes for the file; otherwise the failure is the one that stops `Convert` |
| Normalizer.RemoveCommentsNone | src/main/java/cc/suvankar/dictionaryapi/services/XmlProcessor.java:87 | a block without `<!--` is left unchanged by the comment removal |
| Normalizer.RemoveCommentsCuts | src/main/java/cc/suvankar/dictionaryapi/services/XmlProcessor.java:87 | the first `<!--` up to the nearest `-->` is removed, and removal continues after it |
| Normalizer.CommentAtStart | src/main/java/cc/suvankar/dictionaryapi/services/XmlProcessor.java:87 | a leading comment is removed, up to its nearest `-->` |
| Normalizer.QuoteMarksEliminated | src/main/java/cc/suvankar/dictionaryapi/services/XmlProcessor.java:89-92 | no `<ldquo/`, `<rdquo/`, `<lsquo/` or `<rsquo/` survives the quote rules |
| Normalizer.AngleEntitiesEliminated | src/main/java/cc/suvankar/dictionaryapi/services/XmlProcessor.java:93-94 | no `<lt/` or `<gt/` survives |
| Normalizer.GeneralizeEliminates | src/main/java/cc/suvankar/dictionaryapi/services/XmlProcessor.java:95 | after the rewrite of `<word/` into `{word/}` no `<`, word characters, `/` sequence is left |
| Normalizer.BreakMarkerFound | src/main/java/cc/suvankar/dictionaryapi/services/XmlProcessor.java:96 | a break marker recognised at the start of a text is spelled `{`, `b`/`B`, `r`/`R`, a run of `\s`, an optional `/`, then `}`, and its length is that spelling's |
| Normalizer.BreakMarkerRecognised | src/main/java/cc/suvankar/dictionaryapi/services/XmlProcessor.java:96 | every text that starts with such a spelling is recognised as a marker of exactly that length |
| Normalizer.StripBreaksCuts | src/main/java/cc/suvankar/dictionaryapi/services/XmlProcessor.java:96 | a break marker is removed and the text around it is kept |
| Normalizer.EscapeAmpEscapes | src/main/java/cc/suvankar/dictionaryapi/services/XmlProcessor.java:97 | after escaping, every `&` is followed by word characters and a `;` |
| Normalizer.EscapeAmpFixes | src/main/java/cc/suvankar/dictionaryapi/services/XmlProcessor.java:97 | a text whose every `&` already starts an entity is left unchanged |
| Normalizer.EscapeAmpIdempotent | src/main/java/cc/suvankar/dictionaryapi/services/XmlProcessor.java:97 | escaping twice is escaping once |
| Normalizer.EscapeBareLt | src/main/java/cc/suvankar/dictionaryapi/services/XmlProcessor.java:93-97 | `&lt` with no semicolon, as the `<lt/` rule leaves it, is escaped to `&amp;lt` |
| Normalizer.StripFormattingPlain | src/main/java/cc/suvankar/dictionaryapi/services/XmlProcessor.java:98-99 | text without `<` is not changed by the `<cs>`/`<note>` removal |
| Normalizer.StripFormattingKeepsInner | src/main/java/cc/suvankar/dictionaryapi/services/XmlProcessor.java:98-99 | `<cs>x</cs>` and `<note>x</note>` become `x` |
| Normalizer.RemoveTagKeepsEscapes | src/main/java/cc/suvankar/dictionaryapi/services/XmlProcessor.java:97-99 | removing a tag after the `&` escape keeps every `&` an entity start |
| Normalizer.NormalizeStages | src/main/java/cc/suvankar/dictionaryapi/services/XmlProcessor.java:86-99 | the fifteen replacements, in order, are the composition of the eight stages the lemmas above describe |
| Normalizer.NormalizeEscapesAmps | src/main/java/cc/suvankar/dictionaryapi/services/XmlProcessor.java:86-99 | in a normalized block every `&` starts an entity reference |
| Normalizer.NormalizeNotIdempotent | src/main/java/cc/suvankar/dictionaryapi/services/XmlProcessor.java:86-99 | the chain is not idempotent: `<<?/?/` gives `<?/`, which gives the empty string |
| Normalizer.HasUnclosedCommentMeans | src/main/java/cc/suvankar/dictionaryapi/services/XmlProcessor.java:101-104 | the test succeeds exactly when the pattern `<p>.*?<!--(?!.*?-->).*?</p>` finds a match: a `<p>`, a later `<!--` with no `-->` anywhere after it, and a `</p>` after that |
| Normalizer.UnclosedCommentSeen | src/main/java/cc/suvankar/dictionaryapi/services/XmlProcessor.java:101-104 | any such `<p>`, `<!--`, `</p>` triple makes the test succeed |
| Text.ReplaceAllAbsent | src/main/java/cc/suvankar/dictionaryapi/services/XmlProcessor.java:86-99 | a replacement whose pattern does not occur changes nothing |
| Text.ReplaceAllSameLength | src/main/java/cc/suvankar/dictionaryapi/parser/XmlParserDOMImpl.java:64 | a replacement as long as its pattern, such as a line feed by a space, keeps the length of the text |
| Text.ReplaceAllEliminates | src/main/java/cc/suvankar/dictionaryapi/services/XmlProcessor.java:86-99 | when pattern and replacement cannot overlap, no occurrence of the pattern is left |
| Text.ReplaceAllCreatesNone | src/main/java/cc/suvankar/dictionaryapi/services/XmlProcessor.java:86-99 | a text that cannot overlap the replacement occurs in the result only if it occurred in the input |
| Text.TrimSpec | src/main/java/cc/suvankar/dictionaryapi/parser/XmlParserDOMImpl.java:63-65 | `trim` leaves no character up to U+0020 at either end and removes only such characters |
| Text.SplitJoin | src/main/java/cc/suvankar/dictionaryapi/parser/XmlParserDOMImpl.java:121 | joining the pieces of `split` gives back the text, minus separators at the end that only trailing empty pieces held |
| Text.SplitPieces | src/main/java/cc/suvankar/dictionaryapi/parser/XmlParserDOMImpl.java:138 | no piece contains the separator, and every character of a piece comes from the text |
| Dom.IsInsideDef | src/main/java/cc/suvankar/dictionaryapi/parser/XmlParserDOMImpl.java:292-301 | the walk up the ancestors answers true exactly when some ancestor is named `def` in any letter case |
| Dom.DefNameCases | src/main/java/cc/suvankar/dictionaryapi/parser/XmlParserDOMImpl.java:295 | a name matches `def` ignoring case exactly when it has three letters, `d`/`D`, `e`/`E`, `f`/`F` |
| Dom.ByTagSound | src/main/java/cc/suvankar/dictionaryapi/parser/XmlParserDOMImpl.java:62 | `getElementsByTagName` yields only elements of that name, each found in the tree |
| Dom.ByTagRoot | src/main/java/cc/suvankar/dictionaryapi/parser/XmlParserDOMImpl.java:62 | the root comes first when it has the name asked for (document order) |
| Extractor.FoldSpec | src/main/java/cc/suvankar/dictionaryapi/parser/XmlParserDOMImpl.java:64 | replacing line feeds by spaces leaves none, keeps the length, and keeps every other character in its place |
| Extractor.CleanQuotesSpec | src/main/java/cc/suvankar/dictionaryapi/parser/XmlParserDOMImpl.java:87-88 | the `{ldquo/}`/`{rdquo/}` conversion leaves neither marker, brings in no line feed and keeps a trimmed text trimmed |
| Extractor.CleanSpec | src/main/java/cc/suvankar/dictionaryapi/parser/XmlParserDOMImpl.java:63-65 | a folded and trimmed text has no line feed and no trimmable character at either end |
| Extractor.CollapseSpacesSpec | src/main/java/cc/suvankar/dictionaryapi/parser/XmlParserDOMImpl.java:288 | every run of `\s` becomes one space: no two adjacent whitespace characters, and every other character comes from the input |
| Extractor.RespellRemoves | src/main/java/cc/suvankar/dictionaryapi/parser/XmlParserDOMImpl.java:284-287 | no `"`, `*` or backquote survives the headword replacements |
| Extractor.NormalizeHeadwordClean | src/main/java/cc/suvankar/dictionaryapi/parser/XmlParserDOMImpl.java:282-290 | a normalized headword has no `"`, `*` or backquote and no whitespace at its ends; inside, whitespace is single plain spaces |
| Extractor.Lookup | src/main/java/cc/suvankar/dictionaryapi/parser/XmlParserDOMImpl.java:123 | the abbreviation table gives a label exactly for the abbreviations it holds |
| Extractor.ResolvedLabels | src/main/java/cc/suvankar/dictionaryapi/parser/XmlParserDOMImpl.java:120-127 | every label added from a `<pos>` is a value of the abbreviation table |
| Extractor.ResolvedUnknown | src/main/java/cc/suvankar/dictionaryapi/parser/XmlParserDOMImpl.java:122-126 | tokens the table does not know add nothing |
| Extractor.ResolvedKnown | src/main/java/cc/suvankar/dictionaryapi/parser/XmlParserDOMImpl.java:122-126 | known tokens add their labels one for one, in order, looked up after trimming |
| Extractor.ResolveOne | src/main/java/cc/suvankar/dictionaryapi/parser/XmlParserDOMImpl.java:120-127 | a single trimmed abbreviation adds its label when known and nothing otherwise |
| Extractor.PosLabelsAreLabels | src/main/java/cc/suvankar/dictionaryapi/parser/XmlParserDOMImpl.java:110-128 | the entry's parts of speech are values of the abbreviation table |
| Extractor.PosLabelsSkipsDef | src/main/java/cc/suvankar/dictionaryapi/parser/XmlParserDOMImpl.java:115-118 | a `<pos>` inside a `<def>` contributes no label |
| Extractor.SynDashesLead | src/main/java/cc/suvankar/dictionaryapi/parser/XmlParserDOMImpl.java:136 | `Syn`, any non-line-terminator, ` --` and the spaces after it are removed |
| Extractor.SynDashSpaceLead | src/main/java/cc/suvankar/dictionaryapi/parser/XmlParserDOMImpl.java:266 | `Syn`, any non-line-terminator, then ` -- ` is removed |
| Extractor.SynMarkersAbsent | src/main/java/cc/suvankar/dictionaryapi/parser/XmlParserDOMImpl.java:136 | a text without `S` is left unchanged by both synonym-marker removals |
| Extractor.Slots | src/main/java/cc/suvankar/dictionaryapi/parser/XmlParserDOMImpl.java:152-154 | a verb form gets one label slot per token, unknown ones included |
| Extractor.MorphEntries | src/main/java/cc/suvankar/dictionaryapi/parser/XmlParserDOMImpl.java:146-157 | one morphology entry per `<conjf>` |
| Extractor.MorphPairing | src/main/java/cc/suvankar/dictionaryapi/parser/XmlParserDOMImpl.java:146-157 | the i-th `<conjf>` is paired with the i-th `<pos>`: its form, one slot per token, filled exactly for known tokens, no slots past the last `<pos>` |
| Extractor.FirstDefinition | src/main/java/cc/suvankar/dictionaryapi/parser/XmlParserDOMImpl.java:82-101 | a new entry gets one definition exactly when the block has a `<def>` |
| Extractor.FirstDefinitionContent | src/main/java/cc/suvankar/dictionaryapi/parser/XmlParserDOMImpl.java:82-101 | that definition's text is the folded, trimmed `<def>` text with the quote markers converted: no line feed, no trimmable end, no marker; no mark; a source exactly with a `<source>`, each line feed a space and nothing trimmed |
| Extractor.DefinitionEntry | src/main/java/cc/suvankar/dictionaryapi/parser/XmlParserDOMImpl.java:59-160 | no entry exactly when the block has no `<ent>`; otherwise its word is the cleaned `<ent>` text, with at most one definition, no quotes and no synonym source |
| Extractor.WithQuote | src/main/java/cc/suvankar/dictionaryapi/parser/XmlParserDOMImpl.java:179-198 | only the quotes change, by one appended quote exactly when the block has a `<q>` |
| Extractor.WithQuoteContent | src/main/java/cc/suvankar/dictionaryapi/parser/XmlParserDOMImpl.java:179-196 | the appended quote's text is the `<q>` text trimmed but not folded; an author exactly with a `<qau>` and a source exactly with a `<source>`, each folded and trimmed |
| Extractor.WithMoreDefinition | src/main/java/cc/suvankar/dictionaryapi/parser/XmlParserDOMImpl.java:216-242 | only the definitions change, by one appended definition exactly when the block has `<sn>` and `<def>` |
| Extractor.WithMoreDefinitionContent | src/main/java/cc/suvankar/dictionaryapi/parser/XmlParserDOMImpl.java:216-242 | the appended definition's text is folded, trimmed and quote-converted: no line feed, no trimmable end, no marker; a mark exactly with a `<mark>` and a source exactly with a `<source>`, each folded and trimmed |
| Extractor.WithMoreSynonyms | src/main/java/cc/suvankar/dictionaryapi/parser/XmlParserDOMImpl.java:261-275 | only the synonym changes, and only with a `<syn>`: pieces without `.` are appended; the source changes only when there is a `<source>` |
| Extractor.WithMoreSynonymsContent | src/main/java/cc/suvankar/dictionaryapi/parser/XmlParserDOMImpl.java:261-275 | with a `<syn>`, exactly the pieces of its text are appended, none holding a `.` or `"; "`; the source becomes the trimmed `<source>` text when there is one and is kept otherwise |
| Extractor.ContinueAppends | src/main/java/cc/suvankar/dictionaryapi/services/XmlProcessor.java:115-119 | the three continuation calls change only the quotes, definitions and synonyms, and only by appending |
| Entities.Entry.constructor | src/main/java/cc/suvankar/dictionaryapi/parser/XmlParserDOMImpl.java:59 | a new entry has no scalar field set and every list empty |
| DomParser.ParseDefinition | src/main/java/cc/suvankar/dictionaryapi/parser/XmlParserDOMImpl.java:48-166 | error exactly when the parser rejects the block, null exactly when there is no `<ent>`, otherwise a new entry whose value is `DefinitionEntry` |
| DomParser.FillEntry | src/main/java/cc/suvankar/dictionaryapi/parser/XmlParserDOMImpl.java:59-158 | the fields filled in place are exactly `DefinitionEntry` |
| DomParser.SetScalars | src/main/java/cc/suvankar/dictionaryapi/parser/XmlParserDOMImpl.java:59-107 | entry word, headword, etymology and first definition set as the tags give them |
| DomParser.SetHeadword | src/main/java/cc/suvankar/dictionaryapi/parser/XmlParserDOMImpl.java:74-78 | the headword is the normalized first `<hw>` text, if any, and nothing else changes |
| DomParser.SetEtymology | src/main/java/cc/suvankar/dictionaryapi/parser/XmlParserDOMImpl.java:104-107 | the etymology is the cleaned first `<ety>` text, if any, and nothing else changes |
| DomParser.SetFirstDefinition | src/main/java/cc/suvankar/dictionaryapi/parser/XmlParserDOMImpl.java:82-101 | the definitions become `FirstDefinition` and nothing else changes |
| DomParser.AddPartsOfSpeech | src/main/java/cc/suvankar/dictionaryapi/parser/XmlParserDOMImpl.java:110-128 | the labels of every `<pos>` outside a `<def>` are appended in order, and nothing else changes |
| DomParser.AddHitLabels | src/main/java/cc/suvankar/dictionaryapi/parser/XmlParserDOMImpl.java:113-127 | one `<pos>` appends its labels, or none inside a `<def>` |
| DomParser.AddLabels | src/main/java/cc/suvankar/dictionaryapi/parser/XmlParserDOMImpl.java:121-127 | the `forEach` appends the label of each known token, in order |
| DomParser.AddVerbMorphology | src/main/java/cc/suvankar/dictionaryapi/parser/XmlParserDOMImpl.java:142-158 | the morphology entries of the `<vmorph>` are appended, and nothing else changes |
| DomParser.LabelSlots | src/main/java/cc/suvankar/dictionaryapi/parser/XmlParserDOMImpl.java:152-154 | the slots of a verb form are `Slots` of its tokens |
| DomParser.ParseQuote | src/main/java/cc/suvankar/dictionaryapi/parser/XmlParserDOMImpl.java:169-203 | succeeds exactly when the block parses, then the entry becomes `WithQuote`; on failure it is unchanged |
| DomParser.ParseMoreDefinition | src/main/java/cc/suvankar/dictionaryapi/parser/XmlParserDOMImpl.java:206-248 | succeeds exactly when the block parses, then the entry becomes `WithMoreDefinition`; on failure it is unchanged |
| DomParser.ParseMoreSynonyms | src/main/java/cc/suvankar/dictionaryapi/parser/XmlParserDOMImpl.java:251-280 | succeeds exactly when the block parses, then the entry becomes `WithMoreSynonyms`; on failure it is unchanged |
| Mapper.StoredEntry.constructor | src/main/java/cc/suvankar/dictionaryapi/utils/DictionaryEntryMapper.java:25 | a new storage record has no scalar field set and every list empty |
| Mapper.ToEntity | src/main/java/cc/suvankar/dictionaryapi/utils/DictionaryEntryMapper.java:24-60 | a new record whose fields are the entry's fields, list by list and in order, with no etymology |
| Mapper.ToPojo | src/main/java/cc/suvankar/dictionaryapi/utils/DictionaryEntryMapper.java:62-98 | a new entry whose fields are the record's fields, list by list and in order, with no etymology |
| Mapper.MappedDropsEtymology | src/main/java/cc/suvankar/dictionaryapi/utils/DictionaryEntryMapper.java:24-60 | the mapping leaves the etymology unset and keeps every other field |
| Mapper.MappedRoundTrip | src/main/java/cc/suvankar/dictionaryapi/utils/DictionaryEntryMapper.java:24-98 | `toPojo(toEntity(e))` equals `e` without its etymology, and mapping twice equals mapping once |
| Mapper.MappedEqual | src/main/java/cc/suvankar/dictionaryapi/utils/DictionaryEntryMapper.java:24-60 | two entries map to the same record exactly when they differ at most in their etymology |
| Mapper.CopyVerbKeeps | src/main/java/cc/suvankar/dictionaryapi/utils/DictionaryEntryMapper.java:44-49 | a verb form copied into a new object, with its label list refilled by `addAll`, equals the original |

## Left out

- `saveIntoDatabaseMultiThread` (XmlProcessor.java lines 136-161): the thread pool, the database writes and the 60-minute wait are not modelled. `ProcessFile` returns the entries it would hand over.
- Reading the file (XmlProcessor.java line 55) and the `IOException`/`URISyntaxException` path: the file text is a parameter.
- Logging is not modelled.
- The XML parser (`DocumentBuilder`) is a parameter: a function from the block text to a tree, or None when it throws.
  - Its configuration is assumed: comments are ignored and entities are not expanded.
  - The tree has only elements and text. Attributes, CDATA and processing instructions are not modelled.
- `Abbreviations.ABBREVIATION_MAP` is a parameter map. Its contents are not part of this model.
- The inner loop when no later `</p>` balances a block (XmlProcessor.java lines 79-80): `indexOf` returns -1, so the next `substring` ends at index 3. The model stops the run with `UnclosedParagraph(open)` in all three cases the code then has:
  - a `<p>` at index 0: the block becomes `<p>`, which never balances, and the search restarts at index 3, so the loop never ends;
  - a `<p>` at index 1 to 3: the block becomes a fragment of 0 to 2 characters, which balances trivially and goes to the parser, which rejects it and aborts the file;
  - a `<p>` after index 3: `substring` throws and the file is abandoned.
- `countOccurrences` with an empty `sub` never terminates, because the index advances by 0. Processor.CountOccurrences therefore requires a non-empty `sub`; both calls pass `<p>` or `</p>`.
- `equalsIgnoreCase` folds only ASCII letters.
- `\s`, `\w` and `.` have java.util.regex's default (non-Unicode) meanings.
- Processor.Dispatch: when the parser rejects a block, the contract does not say what the entry list holds. The run is abandoned then and nothing is saved. The same holds for Processor.Visit and Processor.Turn.
- Mapper.ToEntity: the source passes `partsOfSpeech` and `synonymList` by reference, so the two objects share those lists. The model copies values, so a later change made through one object and seen through the other is not captured. The same holds for Mapper.ToPojo.
- Mapper.ToEntity: a null synonym object or a null list makes the source throw. The model has no nulls inside an entry. The same holds for Mapper.ToPojo.
- The storage classes (`data.DictionaryEntry`, `data.Definition`, `data.Quote`, `data.VerbMorphologyEntry`) and the parser's model classes are not part of this model. They are assumed to have the fields and the empty initial lists the code uses. The identity of the copied records is not modelled.
