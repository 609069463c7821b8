# HED string, tag and BIDS TSV validation core, modelled in Dafny

This project models the core of the HED (Hierarchical Event Descriptors)
JavaScript validator and proves properties of that model. The core covers:

- the character-level splitter and tree sorter of HED strings
  (`validator/stringParser.js`);
- the older tokenizer and formatter (`validators/hed.js`);
- the tag-path algebra and unit matcher of a parsed HED tag
  (`parser/parsedHedTag.js`);
- the row assembly, column splicing and staged validation of BIDS TSV files
  (`src/bids/validator/tsvValidator.js`);
- the parsing of BIDS schema-version strings (`validator/bids/schema.js`);
- dataset-level aggregation of per-string results (`validator/dataset.js`).

| file | module | models |
|---|---|---|
| `wrappers.dfy` | `Wrappers` | `Option` and `Result` |
| `js_strings.dfy` | `JsStrings` | the JavaScript string built-ins the core relies on: `trim` with the ECMAScript white-space set, `toLowerCase` restricted to the ASCII letters, `indexOf`/`lastIndexOf`, first-match `replace` (with `$` patterns), `split`/`join`, and the repository's `getCharacterCount` |
| `string_parser.dfy` | `StringParser` | `validator/stringParser.js`. The scanner of `splitHedString` is specified by a fold `Scan` over the characters, and the method runs the source's loop against it. `Parse` builds the tag tree that `findTopLevelTags` and `findTagGroups` walk. `ParsedHedTag` and `ParsedHedString` are classes, because `tags.includes` compares objects and `formatHedTag` updates fields in place. |
| `legacy_hed.dfy` | `LegacyHed` | `validators/hed.js`. The caller's issue array is the class `IssueList`. |
| `parsed_hed_tag.dfy` | `HedTag` | `parser/parsedHedTag.js`. A constructed tag is a value, the schema an abstract record, and the tag converter a parameter. |
| `tsv_splices.dfy` | `TsvSplices` | the regular expressions of the TSV parser, written out as scanners: splice substitution and `_spliceCleanup` |
| `tsv_parser.dfy` | `TsvParser` | `BidsHedTsvParser`: `_generateHedRows`, `_getColumnMapping`, `spliceValues`, `_parseHedRow(s)`, `_parseElementStrings`, `parse` |
| `tsv_validator.dfy` | `TsvValidator` | `BidsHedTsvValidator`: `validate` and its stages |
| `bids_schema.dfy` | `BidsSchema` | `parseSchemaSpec`, `parseSchemasSpec`, `validateSchemasSpec`, `buildBidsSchemas` |
| `dataset.dfy` | `Dataset` | `validateHedEvents`, `validateHedDataset` and the two stubs |

The code is followed where it differs from the documented intent:

- `validateSchemasSpec` returns a bare issue, not an array of issues. So
  `buildBidsSchemas` finds `issues.length > 0` false and asks to build schemas
  from `null`.
- `parseSchemasSpec` drops the issues of a malformed version, because the
  result of `issues.concat` is discarded.
- In `validators/hed.js`, `formatHedTag` does not trim, because the result of
  `hedTag.trim()` is discarded.
- `parseHedString` formats a top-level tag twice: once in `tags` and once in
  `topLevelTags`. So two newlines of such a tag are replaced.

## Model

| member | source | states |
|---|---|---|
| StringParser.ParsedHedTag.constructor | validator/stringParser.js:15-53 | the tag keeps its text and bounds and has an empty `formattedTag`; with a HED-3 schema its canonical form and issues come from the long-form converter, otherwise the canonical form is the text and there are no issues |
| StringParser.ParsedHedString.constructor | validator/stringParser.js:61-87 | a parsed string starts with the four lists empty |
| StringParser.ConversionIssues | validator/stringParser.js:34-52 | every conversion issue is a converter issue, and there are none without a HED-3 schema |
| StringParser.SplitHedString | validator/stringParser.js:118-197 | the loop creates one fresh, unformatted tag object per span of `Scan`, in order and never the same object twice; the issues are those the scan records, with each invalid character in place and each tag's conversion issues after it |
| StringParser.SplitCharacter | validator/stringParser.js:130-185 | one iteration advances the scanner state exactly as `Scan` does, pushing at most one new tag |
| StringParser.PushTag | validator/stringParser.js:147-155 | pushing a cut adds one fresh, unformatted tag built from that span and appends its conversion issues |
| StringParser.ScanSound | validator/stringParser.js:118-197 | the whole scan yields well-formed spans in order, one tag note per span, the invalid characters as character notes, and the depth the parentheses leave |
| StringParser.SplitTagsWellFormed | validator/stringParser.js:147-195 | every tag is non-empty and trimmed, is the quote-free text of its source range, has bounds `start <= end <= |s|`, and ends at the end of the string, at an invalid character or at a depth-0 comma; tags come in source order |
| StringParser.SplitTextsShorter | validator/stringParser.js:148-152 | no tag text is longer than the string |
| StringParser.SplitTagsHaveNoQuotes | validator/stringParser.js:136-177 | no tag contains a double quote or an invalid character |
| StringParser.SplitCutsOnlyAtBoundaries | validator/stringParser.js:139-179 | inside a tag's range there is no invalid character and no comma at depth 0, so a parenthesised group with its nested commas stays one tag |
| StringParser.InvalidNotesExact | validator/stringParser.js:158-166 | the invalid characters are recorded once each, in increasing index order, each with its character and index |
| StringParser.InvalidNotesSound | validator/stringParser.js:158-166 | every recorded note is an invalid character at its index |
| StringParser.InvalidNotesOrdered | validator/stringParser.js:158-166 | the notes come in strictly increasing index order |
| StringParser.InvalidNotesComplete | validator/stringParser.js:158-166 | every invalid character has its note |
| StringParser.SplitReportsInvalidCharacters | validator/stringParser.js:158-166 | the invalid-character issues of the split are exactly one per invalid character, at any depth, in order |
| StringParser.SplitIssuesWithoutHed3 | validator/stringParser.js:34-52 | without a HED-3 schema the only issues are the invalid characters |
| StringParser.SeparatorsYieldNothing | validator/stringParser.js:145-183 | a string of white space, commas and quotes yields no tag and no issue |
| StringParser.GroupShape | validator/stringParser.js:94-100 | a string is a group exactly when its trimmed form is some text in parentheses |
| StringParser.RemoveGroupParentheses | validator/stringParser.js:107-109 | the result is the string without its first and last character, and empty for a string shorter than two |
| StringParser.GroupInside | validator/stringParser.js:94-109 | a trimmed group is `(` + its inside + `)`, and the inside is two characters shorter |
| StringParser.GroupLength | validator/stringParser.js:107-109 | removing the parentheses of a group shortens it, so the recursion into groups ends |
| StringParser.NodeOf | validator/stringParser.js:207-230 | a tag's tree node carries the tag's text |
| StringParser.Parse | validator/stringParser.js:207-230 | the tree of a string has one node per split tag |
| StringParser.ParseBuilt | validator/stringParser.js:207-230 | each node of the tree is the node of the tag split at its place, and a group's children are the tree of its inside |
| StringParser.LeavesPartition | validator/stringParser.js:207-251 | the top-level tags and the nested non-group tags together are all non-group tags of the tree |
| StringParser.GroupsPairUp | validator/stringParser.js:217-223 | there is one group string per group at any depth, and the i-th group list is the split of the i-th group string's inside |
| StringParser.NonGroupsMembers | validator/stringParser.js:240-251 | a tag is kept as top-level exactly when it is in the list and is not a group |
| StringParser.PushAbsentMembers | validator/stringParser.js:225-247 | after the `includes`-guarded pushes the list holds what it held and what was pushed |
| StringParser.PushAbsentNoDup | validator/stringParser.js:225-247 | the guarded pushes only append, and never put an object in the list twice |
| StringParser.PushAbsentFresh | validator/stringParser.js:245-247 | objects new to the list and distinct from each other are all pushed |
| StringParser.FindTopLevelTags | validator/stringParser.js:240-251 | the result is the non-group tags in order; `tags` gets each of them unless already there; the other lists are unchanged |
| StringParser.TopLevelTexts | validator/stringParser.js:240-251 | the texts of the top-level tags are the first-level leaves of the tree |
| StringParser.TopLevelFacts | validator/stringParser.js:240-251 | for a list fresh from the split, the top-level tags have no repeats, are the first-level leaves of its tree, and are exactly its non-group tags |
| StringParser.NonGroupsNoDup | validator/stringParser.js:240-251 | a list without repeated objects gives top-level tags without repeats |
| StringParser.SplitGroup | validator/stringParser.js:210-216 | a group's inside is split into fresh tags with the split texts and the split issues of the inside, each shorter than the group |
| StringParser.FindTagGroups | validator/stringParser.js:207-230 | the method only appends to `tags`, `tagGroups` and `tagGroupStrings`; what it appends and the issues it returns are the tree's nested leaves, group lists, group strings and group issues; `tags` stays free of repeats |
| StringParser.FindTagGroup | validator/stringParser.js:210-224 | the group branch: the inside's tree is sorted, then the group's own list and string are pushed, and the issues are the inside's split issues followed by the nested ones |
| StringParser.GroupFlatUnseen | validator/stringParser.js:225-227 | with no tag seen before, every non-group tag at every depth is pushed |
| StringParser.GroupFlatSeen | validator/stringParser.js:225-247 | once the top-level tags are in `tags`, only the tags below groups are pushed |
| StringParser.SortTags | validator/stringParser.js:303-308 | `findTopLevelTags` then `findTagGroups` fill the parsed string as the tree prescribes, and return the group issues |
| StringParser.SortHedString | validator/stringParser.js:300-312 | splitting and sorting leave the parsed string sorted as its tree, with the split issues followed by the group issues |
| StringParser.FormatHedTag | validator/stringParser.js:275-291 | the first newline of `originalTag` becomes a space, and `formattedTag` is the formatted canonical tag |
| StringParser.FormattedTagShape | validator/stringParser.js:277-290 | the formatted tag is the lower case of the trimmed canonical tag with at most a quote and then a slash cut from each end |
| StringParser.FormattedPlainTag | validator/stringParser.js:277-290 | a tag without quotes or slashes at its ends is only trimmed and lower-cased |
| StringParser.FormattedStrips | validator/stringParser.js:278-289 | a quote and then a slash at each end are all removed |
| StringParser.FormattedStripsOneSlash | validator/stringParser.js:284-289 | only one slash is removed from each end |
| StringParser.FormattedLowerCase | validator/stringParser.js:290 | the formatted tag has no upper-case ASCII letter |
| StringParser.NewlinesCompose | validator/stringParser.js:276 | `m` formats followed by `n` more replace as many newlines as `m + n` formats |
| StringParser.NewlinesCount | validator/stringParser.js:276 | each format replaces one newline while any is left, and the length never changes |
| StringParser.FirstNewlineOnly | validator/stringParser.js:276 | one format of `a\nb\n` gives `a b\n`, and a second gives `a b ` |
| StringParser.FormatHedTagsInList | validator/stringParser.js:259-268 | each tag of the list is formatted once per occurrence: its newline count and `formattedTag` follow from how often it has been visited |
| StringParser.FormatCounted | validator/stringParser.js:265 | one call formats one tag and leaves the other tags' counts as they were |
| StringParser.FormatHedTagGroups | validator/stringParser.js:259-268 | the recursion into the lists of `tagGroups` formats their tags in turn |
| StringParser.FormatParsedString | validator/stringParser.js:309-311 | after formatting `tags`, `tagGroups` and `topLevelTags`, every tag has its formatted form and one newline replaced per occurrence in those lists |
| StringParser.ParseHedString | validator/stringParser.js:300-314 | the parsed string is sorted as the tree of the string, and the issues are the split issues followed by the group issues; every sorted tag carries its schema conversion and its formatted form, and one newline replaced per use |
| LegacyHed.IssueList.constructor | validators/hed.js:7 | the caller's issue array starts empty |
| LegacyHed.HedStringIsEmpty | validators/hed.js:3-5 | a string is empty exactly when it is all white space |
| LegacyHed.SplitHedString | validators/hed.js:7-58 | the loop returns the tokens of the specification `Tokens`, and pushes one `Unsupported character` per brace |
| LegacyHed.TokensClean | validators/hed.js:19-56 | every token is `~` or a non-empty trimmed text without quotes, parentheses or braces |
| LegacyHed.UnsupportedCountIsBraces | validators/hed.js:44-45 | the number of issues pushed is the number of `{` plus the number of `}` |
| LegacyHed.UnsupportedCounts | validators/hed.js:44-45 | after any prefix, the issue count is the braces of that prefix |
| LegacyHed.NoParenthesesCuts | validators/hed.js:27-43 | without parentheses the counts stay equal, so every comma cuts and every tilde becomes a token of its own |
| LegacyHed.NoParenthesesTokens | validators/hed.js:27-43 | without parentheses no token holds a comma, and there are exactly as many `~` tokens as tildes |
| LegacyHed.CommaInsideParentheses | validators/hed.js:23-51 | inside unbalanced counts a comma stays in the tag: `(a,b)` gives `a,b` |
| LegacyHed.TildeInsideParentheses | validators/hed.js:27-51 | inside unbalanced counts a tilde stays in the tag: `(a~b)` gives `a~b` |
| LegacyHed.TildeToken | validators/hed.js:27-35 | at equal counts a tilde ends the pending tag and is a token: `a,~b` gives `a`, `~`, `b` |
| LegacyHed.BlankHasNoTokens | validators/hed.js:31-56 | a blank string has no tokens |
| LegacyHed.ParenthesesOnly | validators/hed.js:3-26 | `()` has no tokens but is not blank |
| LegacyHed.FindTopLevelTags | validators/hed.js:60-64 | the result is a copy of the list |
| LegacyHed.FormatOnlyNewLine | validators/hed.js:66-70 | asked only to remove the newline, a tag without one comes back unchanged |
| LegacyHed.FormatFirstNewLine | validators/hed.js:67 | only the first newline is replaced |
| LegacyHed.FormatLowerCase | validators/hed.js:84 | a fully formatted tag is already lower case |
| LegacyHed.FormatStrips | validators/hed.js:72-83 | one quote and then one slash are removed from each end, and no more |
| LegacyHed.FormatKeepsSpaces | validators/hed.js:71 | the surrounding white space is kept, because the trimmed value is discarded |
| LegacyHed.ValidateHedTag | validators/hed.js:87-90 | every tag fails and one `Not yet implemented` is pushed |
| LegacyHed.ValidateHedString | validators/hed.js:92-99 | the string is valid exactly when it has no tokens; the pushed issues are the split's, plus one `Not yet implemented` when there is a token, because `&&` short-circuits |
| HedTag.TagName | parser/parsedHedTag.js:209-216 | the result is the suffix after the last `/`, holds no `/`, and is the whole string exactly when there is no `/` |
| HedTag.ParentTag | parser/parsedHedTag.js:257-264 | the result is a prefix of the tag, the whole tag exactly when there is no `/`, and strictly shorter otherwise |
| HedTag.TagPathJoin | parser/parsedHedTag.js:257-264 | parent, `/` and name put back together give the tag |
| HedTag.TagNameHash | parser/parsedHedTag.js:209-250 | the tag name is `#` exactly for `#` and the tags ending in `/#` |
| HedTag.AncestorIterator | parser/parsedHedTag.js:305-311 | the loop yields the ancestors of the tag, in order |
| HedTag.AncestorsCount | parser/parsedHedTag.js:305-311 | there are as many ancestors as `/` characters, plus one |
| HedTag.AncestorsChain | parser/parsedHedTag.js:305-311 | the tag comes first, and each later ancestor is the strictly shorter parent of the one before |
| HedTag.AncestorsLast | parser/parsedHedTag.js:305-311 | the last ancestor has no `/` |
| HedTag.AncestorsIff | parser/parsedHedTag.js:305-311 | the ancestors are the tag and exactly its prefixes that a `/` follows |
| HedTag.AncestorsTransitive | parser/parsedHedTag.js:305-311 | an ancestor of an ancestor is an ancestor |
| HedTag.IsDescendantOf | parser/parsedHedTag.js:319-332 | the method answers `DescendsFrom`: false for a tag of another schema, otherwise whether the parent's text is an ancestor |
| HedTag.DescendsFromString | parser/parsedHedTag.js:319-332 | descent from a string means being the tag or a prefix of it that a `/` follows; a tag descends from itself |
| HedTag.DescendsFromTag | parser/parsedHedTag.js:319-332 | a tag of another schema is never an ancestor, and descent is transitive |
| HedTag.EquivalentLaws | parser/parsedHedTag.js:362-364 | equivalence is reflexive, symmetric and transitive on tags, and never holds for a string |
| HedTag.EquivalentDescent | parser/parsedHedTag.js:319-364 | equivalent tags have the same ancestors and the same descendants |
| HedTag.NewParsedHedTag | parser/parsedHedTag.js:76-113 | a missing schema fails with `unmatchedLibrarySchema` for a non-empty library and `unmatchedBaseSchema` otherwise; a failed conversion fails with the converter's own issue; on success `schemaTag` and `remainder` are the converter's result, the text and bounds are the tag's, the canonical tag is `longExtend` of the two, and `formattedTag` is its lower case |
| HedTag.ConstructedForms | parser/parsedHedTag.js:112-113 | a constructed tag's formatted form is already lower case, and its long format is its canonical form |
| HedTag.WithPrefix | parser/parsedHedTag.js:153-182 | `prefix:` is prepended exactly when the schema has a prefix |
| HedTag.Format | parser/parsedHedTag.js:153-168 | without a schema entry the result is `toString()`; otherwise it is the long or short form with the schema prefix |
| HedTag.ToString | parser/parsedHedTag.js:175-182 | the result is the original tag when the schema has no prefix, and otherwise the prefix, `:` and the original tag |
| HedTag.AllowsExtensionsFacts | parser/parsedHedTag.js:339-350 | a tag written `#` or `.../#` never allows extensions; one whose own entry allows them does |
| HedTag.SchemaTagOf | parser/parsedHedTag.js:382-395 | there is a schema tag exactly when the tag has an entry |
| HedTag.TakesValueTag | parser/parsedHedTag.js:397-410 | a value tag is returned only when the entry is one |
| HedTag.UnitClasses | parser/parsedHedTag.js:437-450 | there are unit classes exactly when `hasUnitClass` holds |
| HedTag.GettersAgree | parser/parsedHedTag.js:382-465 | `takesValue` means a value-tag entry; `schemaTag` is that entry's parent or the entry itself; unit classes imply `takesValue`; `defaultUnit` is `''` without unit classes, the tag's own default when truthy, and otherwise the first class's default |
| HedTag.ClassUnitsMember | parser/parsedHedTag.js:472-490 | a unit is gathered exactly when one of the classes has it |
| HedTag.ValidUnits | parser/parsedHedTag.js:472-490 | the loop collects the units of all the tag's unit classes |
| HedTag.InsertElements | parser/parsedHedTag.js:496-499 | one insertion step of the sort adds exactly the inserted entry |
| HedTag.InsertSorted | parser/parsedHedTag.js:496-499 | an insertion step keeps the list longest-first |
| HedTag.InsertStable | parser/parsedHedTag.js:496-499 | an insertion step keeps names of equal length in order |
| HedTag.SortPermutes | parser/parsedHedTag.js:496-499 | the sort of the unit names is a permutation |
| HedTag.SortOrders | parser/parsedHedTag.js:496-499 | the sort puts longer names first |
| HedTag.SortStable | parser/parsedHedTag.js:496-499 | names of equal length keep their order, as with the stable `Array.prototype.sort` |
| HedTag.LongerIsEarlier | parser/parsedHedTag.js:496-499 | in the sorted list a longer name comes earlier |
| HedTag.TryDerivative | parser/parsedHedTag.js:512-527 | one derivative form finds the unit for a prefix unit the value starts with, for the exact unit word, or for another case of a non-symbol; another case of a symbol only marks a wrong-case unit |
| HedTag.ScanUnit | parser/parsedHedTag.js:511-535 | the inner loop agrees with `UnitOutcome`: it stops at the first form that finds the unit, otherwise reports a wrong-case symbol |
| HedTag.ValidateUnits | parser/parsedHedTag.js:492-538 | the method returns the triple `UnitValidation` prescribes for the tag and its valid units |
| HedTag.DerivativeScanMatched | parser/parsedHedTag.js:511-531 | a unit is matched exactly when one of its derivative forms hits, and the match names that unit |
| HedTag.DerivativeScanWrongCase | parser/parsedHedTag.js:520-535 | a unit is decided as wrong-case exactly when no form hits and a symbol form matches in another case |
| HedTag.FirstDecidedAt | parser/parsedHedTag.js:507-536 | the search settles on its first deciding unit, and no unit before it decides anything |
| HedTag.FirstDecidedNone | parser/parsedHedTag.js:507-537 | the search finds nothing exactly when no unit decides anything |
| HedTag.ValidateUnitsLongestFirst | parser/parsedHedTag.js:496-536 | the unit the search settles on is a unit of the schema, and no unit with a longer name decides anything |
| HedTag.UnitValidationCases | parser/parsedHedTag.js:500-537 | a match gives `(true, unit in validUnits, stripped)`; a wrong-case symbol gives `(true, false, value before its last space)`; otherwise `(value contains a space, false, value)` |
| TsvSplices.NextBrace | src/bids/validator/tsvValidator.js:255 | the result is the first brace at or after the index, or the end |
| TsvSplices.Resolve | src/bids/validator/tsvValidator.js:461-466 | a splice resolves to `''` exactly when the column is absent or its value is in the null set, and to the column's value otherwise |
| TsvSplices.SpliceAt | src/bids/validator/tsvValidator.js:255 | a splice starts with `{` and ends at the next brace when that brace is `}`, with no brace between |
| TsvSplices.SubstituteNoSplice | src/bids/validator/tsvValidator.js:461-466 | a string without `{` is left as it is |
| TsvSplices.SubstituteSplice | src/bids/validator/tsvValidator.js:461-466 | a leading `{name}` with a brace-free name is replaced by its resolution |
| TsvSplices.SubstituteAppend | src/bids/validator/tsvValidator.js:461-466 | substitution works piecewise across a cut made before a `{` |
| TsvSplices.SubstituteBetween | src/bids/validator/tsvValidator.js:461-466 | a splice anywhere in a string is replaced by its resolution, and the text around it is substituted on its own |
| TsvSplices.SkipSeparators | src/bids/validator/tsvValidator.js:256 | the result ends the run of commas and white space |
| TsvSplices.SkipInnerGroups | src/bids/validator/tsvValidator.js:256 | the run of inner empty groups holds only punctuation |
| TsvSplices.EmptyGroupAt | src/bids/validator/tsvValidator.js:256 | an empty-group match holds only parentheses, commas and white space |
| TsvSplices.RemoveShrinks | src/bids/validator/tsvValidator.js:481 | one global replacement never lengthens the string, and shortens it when the pattern matches |
| TsvSplices.RemoveNoMatch | src/bids/validator/tsvValidator.js:481 | without a match the replacement changes nothing |
| TsvSplices.RemoveEmptyGroups | src/bids/validator/tsvValidator.js:480-482 | after the loop the pattern no longer matches |
| TsvSplices.NoGroupUnchanged | src/bids/validator/tsvValidator.js:480-482 | without a `(` nothing is removed |
| TsvSplices.RemoveEmptyGroupsContent | src/bids/validator/tsvValidator.js:480-482 | removing empty groups deletes only parentheses, commas and white space |
| TsvSplices.StripTrailingRemovesTail | src/bids/validator/tsvValidator.js:487 | what the trailing pattern removes is white space, commas, white space |
| TsvSplices.StripTrailingLeftmost | src/bids/validator/tsvValidator.js:487 | the removed tail is the longest one the pattern can match |
| TsvSplices.StripTrailingKept | src/bids/validator/tsvValidator.js:487 | when something is removed, the kept text does not end in white space; nothing is removed exactly when no suffix matches |
| TsvSplices.StripLeadingFacts | src/bids/validator/tsvValidator.js:484 | the leading pattern removes a prefix of white space, commas, white space, and removes nothing exactly when no prefix matches |
| TsvSplices.StripTrailingContent | src/bids/validator/tsvValidator.js:487 | the trailing strip keeps all content |
| TsvSplices.StripLeadingContent | src/bids/validator/tsvValidator.js:484 | the leading strip keeps all content |
| TsvSplices.CollapseContent | src/bids/validator/tsvValidator.js:490 | collapsing `,<ws>,` keeps all content |
| TsvSplices.CollapseNoComma | src/bids/validator/tsvValidator.js:490 | without commas nothing is collapsed |
| TsvSplices.CollapseSinglePass | src/bids/validator/tsvValidator.js:490 | the replacement is a single pass: `,,,` becomes `,,` |
| TsvSplices.CleanupContent | src/bids/validator/tsvValidator.js:476-491 | the cleanup deletes only parentheses, commas and white space |
| TsvParser.KeyIndex | src/bids/validator/tsvValidator.js:336-337 | the result is the position of the first entry with the key, or -1 exactly when there is none |
| TsvParser.HedColumns | src/bids/validator/tsvValidator.js:329-331 | only columns of the file are kept |
| TsvParser.HedColumnsMembers | src/bids/validator/tsvValidator.js:329-331 | a column is kept exactly when its header has sidecar HED data or is `HED` or `onset` |
| TsvParser.HedColumnsDistinct | src/bids/validator/tsvValidator.js:329-331 | keeping some columns keeps the headers distinct |
| TsvParser.AddColumn | src/bids/validator/tsvValidator.js:335-338 | spreading a column gives as many rows as the longer of the rows and the column |
| TsvParser.TransposeRows | src/bids/validator/tsvValidator.js:328-341 | there are as many rows as the longest column has cells, and row `i` holds cell `i` of every column that has one, in column order |
| TsvParser.RowAtBeyond | src/bids/validator/tsvValidator.js:335-338 | past the longest column there is no cell |
| TsvParser.MapColumnsValues | src/bids/validator/tsvValidator.js:400-431 | with distinct sidecar column names, the column map holds `''` for a row cell that is empty or `n/a`, the value template with its first `#` replaced for a value column, the level's string for a categorical column, and the `HED` cell verbatim |
| TsvParser.NoHedDataOnlyHed | src/bids/validator/tsvValidator.js:403-409 | without sidecar HED data only `HED` is mapped, verbatim |
| TsvParser.MapColumnsFails | src/bids/validator/tsvValidator.js:425-426 | the mapping throws exactly when a categorical cell has no level |
| TsvParser.MapColumnsStops | src/bids/validator/tsvValidator.js:412-428 | once the mapping has thrown on some column, the later columns change nothing |
| TsvParser.Spliced | src/bids/validator/tsvValidator.js:440-450 | splicing keeps the set of mapped columns |
| TsvParser.SplicedOthers | src/bids/validator/tsvValidator.js:440-450 | columns without splices keep their value |
| TsvParser.RowParts | src/bids/validator/tsvValidator.js:374-385 | no part is in the null set |
| TsvParser.RowPartsMembers | src/bids/validator/tsvValidator.js:374-385 | a part is taken exactly from a column that is not a splice target, whose cell and mapped value are outside the null set |
| TsvParser.JoinedRowString | src/bids/validator/tsvValidator.js:386-389 | the joined string is empty exactly when there are no parts, and is never `n/a` |
| TsvParser.RowDropped | src/bids/validator/tsvValidator.js:369-391 | a row yields no element exactly when it contributes no part |
| TsvParser.HedRowsOrdered | src/bids/validator/tsvValidator.js:350-359 | the TSV lines are row index plus two, and increase: elements come out in row order |
| TsvParser.HedRowsStops | src/bids/validator/tsvValidator.js:350-359 | once a row has thrown, the later rows change nothing |
| TsvParser.ParseErrorsMembers | src/bids/validator/tsvValidator.js:308-318 | an error of the file is an error of one of its strings, and every error of every string is reported |
| TsvParser.TsvElement.constructor | src/bids/validator/tsvValidator.js:390 | an element holds its string, line and row, takes its onset from the row, and has no parsed string yet |
| TsvParser.ColumnMap.constructor | src/bids/validator/tsvValidator.js:401 | a column map holds the given cells |
| TsvParser.BidsHedTsvParser.constructor | src/bids/validator/tsvValidator.js:277-280 | the parser holds the file and the string parser |
| TsvParser.BidsHedTsvParser.GenerateHedRows | src/bids/validator/tsvValidator.js:328-341 | the loop builds the transposition of the HED columns, and with distinct headers each row is the reference `RowAt` |
| TsvParser.BidsHedTsvParser.GetColumnMapping | src/bids/validator/tsvValidator.js:400-431 | the loop builds a fresh map equal to `ColumnMapping`, or throws the same error |
| TsvParser.BidsHedTsvParser.SpliceValues | src/bids/validator/tsvValidator.js:440-450 | the map is updated in place to `Spliced` of its old value |
| TsvParser.BidsHedTsvParser.ReplaceSplices | src/bids/validator/tsvValidator.js:460-468 | substitution of every splice, then cleanup |
| TsvParser.BidsHedTsvParser.SpliceCleanup | src/bids/validator/tsvValidator.js:476-491 | the loop computes `Cleanup`, and keeps all content of the string |
| TsvParser.BidsHedTsvParser.ParseHedRow | src/bids/validator/tsvValidator.js:369-391 | the row throws, yields nothing, or yields a fresh element with its joined string, line and cells, exactly as `RowHedString` says |
| TsvParser.BidsHedTsvParser.ParseHedRows | src/bids/validator/tsvValidator.js:350-359 | the elements are those of `HedRows`, in order, or the first error thrown |
| TsvParser.BidsHedTsvParser.ParseElementStrings | src/bids/validator/tsvValidator.js:300-320 | every element gets its parsed string, and the errors and warnings are those of each string, in order |
| TsvParser.BidsHedTsvParser.Parse | src/bids/validator/tsvValidator.js:287-292 | rows, elements, then their parsed strings and issues, or the error row assembly throws |
| TsvValidator.Views | src/bids/validator/tsvValidator.js:125-247 | each element is seen as its string, line, onset and parsed string |
| TsvValidator.SplitErrorsPartition | src/bids/validator/tsvValidator.js:40-42 | every issue lands in exactly the list of its severity |
| TsvValidator.HedColumnStringIssues | src/bids/validator/tsvValidator.js:87-120 | an empty string adds nothing; otherwise the warnings are the parser's |
| TsvValidator.HedColumnSplices | src/bids/validator/tsvValidator.js:96-119 | a parsed string with column splices adds exactly one `curlyBracesInHedColumn` after the parser's errors and skips the definition checks; one without adds the definition issues |
| TsvValidator.HedColumnBlank | src/bids/validator/tsvValidator.js:72-90 | empty cells of the `HED` column never produce an issue |
| TsvValidator.FlaggedMembers | src/bids/validator/tsvValidator.js:215-247 | an issue is reported exactly for the flagged elements, with the element's string |
| TsvValidator.FlaggedCount | src/bids/validator/tsvValidator.js:215-247 | at most one issue per element, and none exactly when no element is flagged |
| TsvValidator.BadTags | src/bids/validator/tsvValidator.js:217-218 | the bad tags are exactly the top-level tags with the top-level-tag-group attribute |
| TsvValidator.OnsetKeysDistinct | src/bids/validator/tsvValidator.js:194-207 | each onset is a key of the onset map once |
| TsvValidator.OnsetKeysMembers | src/bids/validator/tsvValidator.js:194-207 | the keys are exactly the onsets of the elements with a non-empty HED string |
| TsvValidator.StringsWithOnsetMembers | src/bids/validator/tsvValidator.js:194-207 | every element with a non-empty HED string is in the list of its onset, and in no other |
| TsvValidator.WithOnsetEmpty | src/bids/validator/tsvValidator.js:194-207 | an onset that is not a key has no elements |
| TsvValidator.GroupIndex | src/bids/validator/tsvValidator.js:200-204 | the result is the position of the group with the onset, or the number of groups |
| TsvValidator.OnsetGroupsFacts | src/bids/validator/tsvValidator.js:194-207 | the groups are keyed by the onsets in order of first appearance, and each holds the elements with its onset in row order |
| TsvValidator.WithOnsetStrings | src/bids/validator/tsvValidator.js:179-207 | the HED strings of a group are the strings with its onset, in row order |
| TsvValidator.DuplicateGroupStep | src/bids/validator/tsvValidator.js:174-183 | one group re-parses the comma-join of its strings when it has two or more elements, and adds nothing otherwise |
| TsvValidator.DuplicatesNeedSharedOnsets | src/bids/validator/tsvValidator.js:175-177 | onsets that only one element has are never re-parsed |
| TsvValidator.DistinctOnsetsNoDuplicates | src/bids/validator/tsvValidator.js:172-185 | when no two elements with HED strings share an onset, the check finds nothing |
| TsvValidator.DatasetStageKinds | src/bids/validator/tsvValidator.js:125-138 | a file that is not a timeline gets the top-level check and then, only without errors, the temporal-tag check; a timeline file without top-level errors gets the temporal checks |
| TsvValidator.ExpectedViewsParsed | src/bids/validator/tsvValidator.js:300-318 | once parsing reports no error, every element has its parsed string |
| TsvValidator.ParsedElements | src/bids/validator/tsvValidator.js:300-320 | the parsed elements are seen as the rows' strings, lines, onsets and parse results |
| TsvValidator.ValidateThrows | src/bids/validator/tsvValidator.js:36-60 | row assembly throws only when the sidecar and the `HED` column left no error, and then the thrown error is that of the row |
| TsvValidator.BidsHedTsvValidator.constructor | src/bids/validator/tsvValidator.js:27-30 | a validator starts with no errors and no warnings |
| TsvValidator.BidsHedTsvValidator.Validate | src/bids/validator/tsvValidator.js:36-65 | the stages run in order, and each only when the ones before left no error: sidecar, `HED` column, row assembly and parsing, dataset checks |
| TsvValidator.BidsHedTsvValidator.ParseRows | src/bids/validator/tsvValidator.js:54-57 | the parser's elements, with the errors and warnings of their strings added, or the error row assembly throws |
| TsvValidator.BidsHedTsvValidator.ValidateHedColumn | src/bids/validator/tsvValidator.js:72-78 | the issues of every string of the `HED` column, in order |
| TsvValidator.BidsHedTsvValidator.ValidateHedColumnString | src/bids/validator/tsvValidator.js:87-120 | the issues `HedColumnStringIssues` gives the string are added |
| TsvValidator.BidsHedTsvValidator.ValidateDataset | src/bids/validator/tsvValidator.js:125-138 | top-level tags first; then the temporal checks of a timeline file, or the temporal-tag ban elsewhere |
| TsvValidator.BidsHedTsvValidator.ValidateTemporal | src/bids/validator/tsvValidator.js:146-159 | the event manager's issues stop it; otherwise the duplicate check runs, and the event validation only when no error is left |
| TsvValidator.BidsHedTsvValidator.CheckDuplicatesAcrossRows | src/bids/validator/tsvValidator.js:172-185 | the loop over the onset map adds the issues of re-parsing each shared onset's joined strings |
| TsvValidator.BidsHedTsvValidator.GetOnsetMap | src/bids/validator/tsvValidator.js:194-207 | the loop builds the onset groups: keys in order of first appearance, each group the elements with that onset in row order |
| TsvValidator.BidsHedTsvValidator.CheckNoTopTags | src/bids/validator/tsvValidator.js:215-229 | one error per element with a bad top-level tag, in order |
| TsvValidator.BidsHedTsvValidator.CheckNoTime | src/bids/validator/tsvValidator.js:236-247 | one error per element with a timeline tag, in order |
| BidsSchema.ParseSchemaSpec | validator/bids/schema.js:54-83 | a failure is no spec with exactly one issue; more than one `:` or `_` is `invalidSchemaSpecification`; a leading `:` is `invalidSchemaNickname`; an invalid version is `invalidSchemaSpecification` |
| BidsSchema.SplitAtMostOne | validator/bids/schema.js:58-77 | with at most one separator the split gives one part without it, or the two sides of it |
| BidsSchema.ParseSpecString | validator/bids/schema.js:54-83 | round trip: a string built from a nickname, a library and a valid version without separators parses back into them |
| BidsSchema.ParsedSpecRebuilds | validator/bids/schema.js:54-83 | converse: a spec that parses has pieces without separators, a nickname exactly when the string has a `:`, and rebuilds the string |
| BidsSchema.ProcessVersion | validator/bids/schema.js:34-39 | a single version is a one-element list |
| BidsSchema.ParseSchemasSpec | validator/bids/schema.js:32-52 | the loop computes `Collect` over the versions |
| BidsSchema.WellFormed | validator/bids/schema.js:42-43 | at most one spec per version |
| BidsSchema.CollectCounts | validator/bids/schema.js:41-50 | every version that parses is stored or reported once, every issue is a duplicate nickname, and malformed versions leave no trace |
| BidsSchema.CollectStep | validator/bids/schema.js:41-50 | a version stores its spec only when it parses and its nickname is new |
| BidsSchema.CollectNicknames | validator/bids/schema.js:41-50 | the nicknames stored are those of the versions that parse |
| BidsSchema.CollectFirstWins | validator/bids/schema.js:45-48 | each nickname is stored with the first spec that carried it |
| BidsSchema.DuplicateReported | validator/bids/schema.js:45-46 | a version repeated under one nickname is stored once and reported once |
| BidsSchema.ValidateSchemasSpec | validator/bids/schema.js:24-30 | a `SchemasSpec` passes unchanged; anything else gives no spec and one bare issue |
| BidsSchema.BuildBidsSchemas | validator/bids/schema.js:7-22 | schemas are built exactly when no issue is collected; with neither a definition nor a truthy version there is one `invalidSchemaSpecification`; a `SchemasSpec` definition requests building from that spec; a definition that is not a `SchemasSpec` requests building from `null` |
| Dataset.AllIssuesAppend | validator/dataset.js:38-46 | the issues of a concatenation are the issues of its parts |
| Dataset.AllIssuesMembers | validator/dataset.js:38-46 | an issue is reported exactly when some string reports it |
| Dataset.AllIssuesAt | validator/dataset.js:38-46 | the issues of one string sit, in place, between those of the strings before and after it |
| Dataset.ValidateHedEvents | validator/dataset.js:36-49 | every string is validated; the result is valid exactly when every string is, and the issues are all issues in string order |
| Dataset.ParseDefinitions | validator/dataset.js:10-13 | no definitions, and the strings unchanged |
| Dataset.ValidateDataset | validator/dataset.js:23-26 | every dataset passes with no issues |
| Dataset.ValidateHedDataset | validator/dataset.js:59-75 | valid exactly when every string is; an invalid dataset returns all string issues, a valid one none |

## Left out

- `validator/schema/hed3.js`, the schema construction from XML, is not part of this model. The schema is an abstract record (`HedTag.Schema`, `StringParser.Schemas`).
- The test files are not modelled. The newer tokenizer their error cases describe is not part of this model.
- Collaborators this model does not see are parameters of the model:
  - `convertHedStringToLong`;
  - `TagConverter.convert`, `longExtend`/`extend`, `tagHasAttribute` and `getTagLevels`;
  - `semver.valid`;
  - the sidecar's `validate`, `validateDefs` and `validateDefExpands`;
  - `parseHedString`, `EventManager` and `ReservedChecker`;
  - `validateHedEvent`.
- `utils.string.stringIsEmpty` is taken to mean "trims to the empty string".
- `getTagName` and `getParentTag` of `utils/hedStrings`, called with the `' '` separator, are taken to behave like the local static versions.
- The memo cache of the getters is not modelled; the getters are pure functions. The cache has a key collision: `schemaTag` reuses the key `'takesValueTag'` (parser/parsedHedTag.js:383 and 398), so real results depend on call order. The model computes each getter afresh.
- `_handleRemainder` and `_handleExtension` do nothing the constructor relies on, so they are not modelled. Neither are the name getters other than `originalTagName`, nor `existsInSchema`, `hasAttribute` and `parentHasAttribute`.
- JavaScript `RegExp` objects and their `lastIndex` state are not modelled. Each pattern is a scanner function with the same matches. `replace` with a global pattern resets `lastIndex`, so every `test` in `_spliceCleanup` starts at 0.
- Promises and asynchronous schema loading are not modelled. `BidsSchema.BuildBidsSchemas` stops at the request to build.
- File and sidecar I/O, issue message texts, file attribution, `tsvLine` and row indices on issues, and `BidsHedIssue` wrapping are not modelled. Issues carry a code, a severity and the string.
- `TsvValidator.BidsHedTsvValidator.Validate`: the merged sidecar is taken to be present. The check `if (this.bidsFile.mergedSidecar)` is not modelled.
- `TsvValidator.BidsHedTsvValidator.Validate` requires that the parser never returns no parsed string without an error. The source relies on this too: `_checkNoTime` reads `parsedHedString.tags` of every element.
- `TsvParser.BidsHedTsvParser.GetColumnMapping`: a categorical cell without a level throws a `TypeError` in the source. It is modelled as the error result `MissingLevel`, which `Parse` and `Validate` pass on as thrown.
- Cells that are `null` or `undefined` are not told apart from absent cells. Row cells are strings.
- The column map of a row is a Dafny `map`. Its insertion order is never observed, because the map is only looked up.
- `TsvValidator.BidsHedTsvValidator.ParseRows` is a helper that runs the parser inside `validate`. It has no source function of its own.
- `StringParser.FormatHedTag`: `formattedTag` lowercases only the ASCII letters `A`-`Z`. JavaScript `toLowerCase` lowercases every Unicode letter, so `Label/É` gives `label/É` here and `label/é` in JavaScript. Some letters, such as `İ`, even grow longer in JavaScript. Unicode case tables are not part of this model.
- `StringParser.FormattedTagShape`: "lower case" means ASCII lowercasing only, for the reason given under `StringParser.FormatHedTag`.
- `StringParser.FormattedPlainTag`: "lower-cased" means ASCII lowercasing only, for the reason given under `StringParser.FormatHedTag`.
- `LegacyHed.FormatLowerCase`: the lowercasing is ASCII-only, as for `StringParser.FormatHedTag`.
- `HedTag.NewParsedHedTag`: `formattedTag` is the ASCII lowercasing of `canonicalTag`. Tags that differ only in the case of a non-ASCII letter are therefore not `equivalent` here, although they are in JavaScript.
- `HedTag.TryDerivative`: the other-case comparison of a unit lowercases both sides in ASCII only. A unit written `É` for the symbol `é` is no match here, but a wrong-case unit in JavaScript.
- `HedTag.DerivativeScanWrongCase`: "matches in another case" means equal after ASCII lowercasing, for the reason given under `HedTag.TryDerivative`.
- `StringParser.SplitHedString`: strings are sequences of Unicode code points. JavaScript indexes UTF-16 code units, so after a character outside the Basic Multilingual Plane the model's indices are smaller than JavaScript's. `"😀,{"` reports the invalid character at index 2 here and at 3 in JavaScript. The same applies to `originalBounds` and to the length order of the unit sort, `HedTag.SortByLength`.
- `BidsSchema.ParseSchemasSpec`: the class `SchemasSpec` is not part of this model. Its `isDuplicate` and `addSchemaSpec` are taken to keep one spec per nickname: `isDuplicate` asks whether the nickname is present, and `addSchemaSpec` stores the spec under it. `BidsSchema.CollectCounts`, `BidsSchema.CollectFirstWins` and `BidsSchema.DuplicateReported` hold under that reading.
- `HedTag.ValidUnits`: requires that every unit class of the tag is registered in the schema's unit classes. Without that, `getEntry(unitClass.name)` is undefined and the source throws a `TypeError`. The schema builder rules this out, and it is not part of this model.
