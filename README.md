# Salesforce package manifest extension: a verified model

This project models the logic at the core of a VS Code extension for Salesforce
developers. The user selects parts of an XML document, and the extension
builds a `package.xml` manifest from them. It runs the Salesforce CLI (`sf`)
on that manifest and reports what the CLI answered. The model covers five
parts:

- `buildPackageFromText` (`src/buildPackage.ts`). It finds the `<types>` blocks and
  `<members>` tags inside the selections and resolves each loose member's type
  name. It then merges the groups by type name and prints the manifest text.
  - `BuildPackage` holds the specification functions (`Build` and its stages)
    and the imperative methods. The methods follow the source's loops and are
    proved to compute `Build`.
  - `BuildPackageProperties` and `BuildPackageLayout` prove what the source
    promises about the result.
- `cleanCliOutput` and the command line handed to the CLI (`src/runSf.ts`,
  module `RunSf`).
- `validateEditorExists` and `validateManifestFolder` (`src/validators.ts`,
  module `Validators`).
- `stripStack` (`src/presentHelpers.ts`, module `PresentHelpers`). It drops
  every `"stack"` entry from a JSON tree. It is a method over a `Json` datatype,
  proved against the function `Stripped`.
- The decisions of `presentSfResult` (`src/extension.ts`, module `Present`). It
  decides what is written to the output channel and which notification is
  shown. It is a function returning the list of effects in source order.

Module `Text` holds the string operations the source borrows from JavaScript:
`trim`, `split`, `join`, and case-insensitive matching of literal text.

Regular expressions are modelled by hand as the scans they perform:

- `<types>[\s\S]*?</types>` and `<members>\s*([\s\S]*?)\s*</members>` with the
  `g` and `i` flags. A match starts at an opening tag and ends at the first
  closing tag after it. The next search starts at the end of that match.
- `<name>\s*([^<]*)\s*</name>`. It matches where the first `<` after `<name>`
  begins `</name>`.
- `\x1B\[[0-9;]*[A-Za-z]`, `\r+` and `\n{2,}`.
- `[\\/]manifest([\\/]|$)` with the `i` flag.

With `i` and without `u`, a pattern folds non-ASCII letters among themselves
but never matches a non-ASCII character against an ASCII one. Every pattern here
is ASCII, so folding the ASCII capitals alone (`Text.Lower`) decides each match
exactly.

## Model

| member | source | states |
|---|---|---|
| Text.Trim | src/buildPackage.ts:25 | `trim()`: the result has no white space at either end, is no longer than the input, and uses only the input's characters |
| Text.TrimSlice | src/buildPackage.ts:25 | the trimmed text is exactly the slice of the input that starts after its leading white space and is followed only by white space |
| Text.TrimOfTrimmed | src/buildPackage.ts:83 | trimming text that has no white space at either end changes nothing |
| Text.Lower | src/validators.ts:25 | the `i` flag without `u` changes exactly the ASCII capitals, each to the letter 32 code points on, its lower-case form |
| Text.FindCI | src/extension.ts:74 | the first offset at or after `from` where the pattern occurs without regard to case, or none exists |
| Text.FindChar | src/buildPackage.ts:24 | the first offset holding the character, with none before it, or the character does not occur |
| Text.FindCharAt | src/buildPackage.ts:24 | `FindChar` answers exactly the first occurrence |
| Text.Split | src/buildPackage.ts:102 | `split` yields at least one piece, and no piece contains the separator |
| Text.JoinSplit | src/buildPackage.ts:101-104 | joining the pieces of a split with the separator restores the text |
| Text.SplitJoin | src/buildPackage.ts:101-104 | splitting a join of separator-free pieces gives back the pieces |
| BuildPackage.MatchAt | src/buildPackage.ts:6 | a lazy match begins at the opening tag and ends just after a closing tag, inside the text |
| BuildPackage.NextMatch | src/buildPackage.ts:31-33 | one `exec`: the leftmost match at or after `lastIndex`, or no match at or after it |
| BuildPackage.MatchesFrom | src/buildPackage.ts:6-13 | `matchAll`: every reported span is a match, and the matches are disjoint and in increasing order |
| BuildPackage.MatchesComplete | src/buildPackage.ts:6-13 | `matchAll` misses nothing: every offset at or after `from` where the pattern matches lies inside a reported match |
| BuildPackage.MatchesFit | src/buildPackage.ts:6-13 | every match lies inside the text and holds both delimiters |
| BuildPackage.TypeBlocks | src/buildPackage.ts:6 | the `<types>` blocks lie inside the document, hold both tags, and are disjoint and in document order |
| BuildPackage.TypeBlocksComplete | src/buildPackage.ts:6 | every offset where a `<types>` block matches lies inside a reported block |
| BuildPackage.MemberTags | src/buildPackage.ts:31-35 | the `<members>` tags lie inside the document and hold both tags |
| BuildPackage.MemberTagsComplete | src/buildPackage.ts:31-35 | every offset where a `<members>` tag matches lies inside a reported tag |
| BuildPackage.NameAt | src/buildPackage.ts:24-25 | a name read at an offset holds no `<` and no surrounding white space |
| BuildPackage.FirstNameFrom | src/buildPackage.ts:52-53 | the search reads the name at the first offset at or after `from` where the pattern matches: a name found is trimmed, holds no `<`, and no offset before it matches; none is found only when no offset matches |
| BuildPackage.NameValue | src/buildPackage.ts:76-77 | the name is the one read at the first offset where the pattern matches, trimmed and without `<`, or `""` when the pattern matches nowhere |
| BuildPackage.FirstEnclosing | src/buildPackage.ts:46 | `find`: a block that encloses the tag, or no block encloses it |
| BuildPackage.ScanAll | src/buildPackage.ts:31-33 | the `exec` loop that advances `lastIndex` reports exactly the matches of `matchAll` |
| BuildPackage.WholeBlockGroups | src/buildPackage.ts:19-30 | the loop pushes one group per block the selection wholly contains, in document order |
| BuildPackage.LooseGroups | src/buildPackage.ts:31-70 | the member loop and the per-selection map give the loose tags grouped by resolved name, in first-seen order |
| BuildPackage.EmitGroups | src/buildPackage.ts:62-70 | iterating the map's entries gives one group per name in insertion order |
| BuildPackage.FileMember | src/buildPackage.ts:55-59 | `get ?? []`, `push`, `set` extends the map by exactly one filed member |
| BuildPackage.CollectCandidates | src/buildPackage.ts:5-71 | the selection loop collects exactly the candidates of every selection, in order |
| BuildPackage.KeepValues | src/buildPackage.ts:80-85 | re-reading the members keeps exactly the non-empty values without `<`, in order |
| BuildPackage.AppendNew | src/buildPackage.ts:86-89 | pushing each value not yet included keeps the list free of repeats, in first-occurrence order |
| BuildPackage.MergeGroups | src/buildPackage.ts:73-90 | `nameOrder` and `membersByName` end up describing the merge of all candidates |
| BuildPackage.Serialise | src/buildPackage.ts:91-107 | the text printed from `nameOrder` and `membersByName` is the rendering of the merged groups |
| BuildPackage.BuildPackageFromText | src/buildPackage.ts:1-109 | the whole function returns `Build(doc, ranges)`: absent, or the package of the merged candidates |
| BuildPackageProperties.ValuesOfMem | src/buildPackage.ts:86-88 | a value is filed under a name exactly when some candidate of that name holds it |
| BuildPackageProperties.KeptValuesMem | src/buildPackage.ts:80-84 | a value survives the re-read exactly when it is non-empty and holds no `<` |
| BuildPackageProperties.DedupDistinct | src/buildPackage.ts:88 | the `includes` check leaves no value twice |
| BuildPackageProperties.DedupOrder | src/buildPackage.ts:88 | values kept by the `includes` check come from the input, ordered by first occurrence |
| BuildPackageProperties.DedupAbsorb | src/buildPackage.ts:88 | pushing values that are already present changes nothing |
| BuildPackageProperties.MergeNames | src/buildPackage.ts:73-78 | the merged groups have pairwise distinct names, all names of candidates, ordered by first appearance |
| BuildPackageProperties.MergeHasName | src/buildPackage.ts:91-98 | a merged group carries a name exactly when some candidate carries it |
| BuildPackageProperties.MergeMembers | src/buildPackage.ts:80-89 | a merged group holds a value exactly when it is kept and some candidate of the same name holds it |
| BuildPackageProperties.MergeMembersOrder | src/buildPackage.ts:86-89 | a merged group's values never repeat, and they follow their first occurrences |
| BuildPackageProperties.MergeAbsorbs | src/buildPackage.ts:73-90 | candidates that repeat earlier ones leave the merge unchanged |
| BuildPackageProperties.WholeBlocksEmpty | src/buildPackage.ts:19-20 | a selection yields no whole-block group exactly when it wholly contains no block |
| BuildPackageProperties.WholeBlocksMem | src/buildPackage.ts:19-28 | every block the selection wholly contains yields its group |
| BuildPackageProperties.InsideIncludedIff | src/buildPackage.ts:37-43 | `some` holds exactly when a block wholly inside the selection encloses the tag |
| BuildPackageProperties.LooseMembersEmpty | src/buildPackage.ts:36-44 | a selection yields no loose member exactly when no tag lies inside it outside its whole blocks |
| BuildPackageProperties.LooseMembersMem | src/buildPackage.ts:36-59 | every such tag is filed under its resolved name with its value |
| BuildPackageProperties.LooseMembersFrom | src/buildPackage.ts:36-59 | every loose group comes from a tag inside the selection and outside its whole blocks |
| BuildPackageProperties.GroupByNameHolds | src/buildPackage.ts:55-69 | the map's group for a name holds every value filed under it |
| BuildPackageProperties.RangeGroupsEmpty | src/buildPackage.ts:15-70 | a selection yields no group exactly when no block and no tag record lies wholly inside it; with `end <= start` none can |
| BuildPackageProperties.SelectionEmpty | src/buildPackage.ts:15-71 | a selection yields no candidate exactly when it wholly contains no block and no member tag |
| BuildPackageProperties.BuildAbsent | src/buildPackage.ts:72 | the result is absent exactly when no selection wholly contains a block or a member tag |
| BuildPackageProperties.ShortSelectionsAbsent | src/buildPackage.ts:18-20 | selections shorter than `<types></types>`, and so than any tag, give no package; this covers an empty list and selections with `end <= start` |
| BuildPackageProperties.CandidateListed | src/buildPackage.ts:72-98 | every candidate appears in the package under its name with each of its kept values |
| BuildPackageProperties.SelectedBlockListed | src/buildPackage.ts:19-28 | a wholly selected block always appears, under its name or `""`, even without members |
| BuildPackageProperties.LooseTagListed | src/buildPackage.ts:31-59 | a selected tag outside the selection's whole blocks appears under its resolved name with its kept value |
| BuildPackageProperties.PackageGroupsClean | src/buildPackage.ts:76-84 | names and members in the package hold no `<` and no surrounding white space, and members are non-empty |
| BuildPackageProperties.RepeatedSelections | src/buildPackage.ts:15-90 | selecting again what is already selected gives the same package |
| BuildPackageProperties.DoubledSelections | src/buildPackage.ts:88 | every selection given twice gives the package it gives once |
| BuildPackageProperties.ResolveNameCases | src/buildPackage.ts:45-54 | a loose tag takes its enclosing block's name, else the first name after the tag |
| BuildPackageLayout.IndentIndented | src/buildPackage.ts:99-106 | every line of an indented block starts with four spaces |
| BuildPackageLayout.BuildLayout | src/buildPackage.ts:91-108 | the package starts with the declaration and `<Package>` lines, ends with the version line, `</Package>` and a newline, and every line between is indented |
| BuildPackageLayout.GroupLayout | src/buildPackage.ts:94-104 | for a group whose name and members hold no line break, the group prints as its lines: `<types>`, one `<members>` line per member or eight spaces, `<name>` (`<name></name>` when empty), `</types>` |
| RunSf.ParamRun | src/runSf.ts:7 | `[0-9;]*` consumes the longest run of digits and semicolons |
| RunSf.EscapeAt | src/runSf.ts:7 | a match at the front is a whole control sequence |
| RunSf.EscapeAtIs | src/runSf.ts:7 | a control sequence at the front matches for exactly its length |
| RunSf.StripAnsiEscape | src/runSf.ts:7 | a control sequence at the front is deleted |
| RunSf.StripAnsiLoneEsc | src/runSf.ts:7 | an ESC that begins no whole control sequence is kept |
| RunSf.StripAnsiSpec | src/runSf.ts:7 | text before the first ESC is copied, a control sequence after it is deleted, and a lone ESC after it is kept; these cases determine the result for every input |
| RunSf.StripAnsiPlain | src/runSf.ts:7 | text without ESC is left as it is |
| RunSf.StripAnsiSub | src/runSf.ts:7 | the characters that remain keep their order |
| RunSf.CollapseRunsChars | src/runSf.ts:8-9 | every character of the result is the replacement or an input character other than the one collapsed, so no `\r` survives line 8 |
| RunSf.CollapseRunsNoDouble | src/runSf.ts:9 | after collapsing, no two line breaks are adjacent |
| RunSf.CollapseRunsFixed | src/runSf.ts:9 | text without a run of two is left as it is |
| RunSf.CollapseRunsOthers | src/runSf.ts:8-9 | every other character keeps its place in order |
| RunSf.CollapseRunsRun | src/runSf.ts:8-9 | a maximal run of one or more of the collapsed character becomes exactly one replacement, and the text before it is copied |
| RunSf.CleanProperties | src/runSf.ts:5-11 | empty in gives empty out; the result has no `\r`, no two adjacent `\n`, no surrounding white space, and is no longer than the input |
| RunSf.CleanFixed | src/runSf.ts:5-11 | cleaning text that is already clean changes nothing |
| RunSf.NonEmpty | src/runSf.ts:33 | `filter(Boolean)` keeps exactly the non-empty strings of the input |
| RunSf.NonEmptyAppend | src/runSf.ts:33 | filtering keeps the order: the kept strings of two lists are those of the first followed by those of the second |
| RunSf.WordsSpec | src/runSf.ts:33 | a space separates words however many spaces there are, a space-free non-empty line is one word, and the empty line has none |
| RunSf.WordsUnspaced | src/runSf.ts:33 | the words are non-empty and space-free, and together they are the command line without its spaces |
| RunSf.WordsJoin | src/runSf.ts:33 | words written with single spaces between them are read back |
| RunSf.SfInvocationShape | src/runSf.ts:33-37 | the command and leading arguments are the words of the command line; the arguments end with `--manifest`, the quoted path and `--json`; there is no command exactly when the line is all spaces |
| Validators.ValidateEditorExists | src/validators.ts:11-22 | valid exactly when there is an editor; invalid carries the fixed message, valid none |
| Validators.MatchesFrom | src/validators.ts:25 | the pattern matches at or after `from` exactly when such a match offset exists |
| Validators.ValidateManifestFolder | src/validators.ts:24-32 | valid exactly when a separator, `manifest` in any case, then a separator or the end occur; invalid carries the fixed message, valid none |
| Validators.NoLeadingSeparator | src/validators.ts:25 | `manifest/x.xml` is rejected |
| Validators.LongerFolderName | src/validators.ts:25 | `/manifests/x` is rejected |
| Validators.MixedCaseFolder | src/validators.ts:25 | a mixed-case folder name between backslashes is accepted |
| Validators.FolderAtEnd | src/validators.ts:25 | a folder name that ends the path, after a slash, is accepted |
| PresentHelpers.StrippedItems | src/presentHelpers.ts:3-5 | an array keeps its length and order, and each element is processed |
| PresentHelpers.StrippedFields | src/presentHelpers.ts:7-8 | no entry left is `"stack"`, and no entry is added |
| PresentHelpers.StrippedKeys | src/presentHelpers.ts:7-8 | the keys left are the old keys without `"stack"`, in their old order |
| PresentHelpers.StrippedFieldsFrom | src/presentHelpers.ts:8 | each entry left is an old entry with its value processed |
| PresentHelpers.StrippedNoStack | src/presentHelpers.ts:1-9 | afterwards no object at any depth has a `"stack"` entry |
| PresentHelpers.StrippedFixed | src/presentHelpers.ts:1-9 | a tree without `"stack"` entries, including any primitive, is left unchanged |
| PresentHelpers.StrippedUnchanged | src/presentHelpers.ts:1-9 | the tree changes exactly when it has a `"stack"` entry somewhere |
| PresentHelpers.StrippedIdempotent | src/presentHelpers.ts:1-9 | stripping twice is the same as stripping once |
| PresentHelpers.StripStack | src/presentHelpers.ts:1-9 | the recursive walk over arrays and entries returns the stripped tree |
| Present.FirstTruthy | src/extension.ts:63-67 | `a \|\| b \|\| …` yields the first truthy operand, all before it falsy, or none is truthy |
| Present.ContainsCIIff | src/extension.ts:74 | the `i` pattern test holds exactly when the word occurs at some offset without regard to case |
| Present.StatusPrecedence | src/extension.ts:63-73 | the status is the first truthy of `status`, `result.status`, `result.statusMessage`, `statusMessage` |
| Present.NoStatus | src/extension.ts:63-73 | with no truthy source there is no status text |
| Present.JsonOutcome | src/extension.ts:57-89 | the stripped JSON is written and shown before exactly one toast: error iff the status says failed or error, else warning iff `result.messages` is non-empty, else info; failMsg or successMsg plus ` (status)` |
| Present.TextFailure | src/extension.ts:90-96 | text saying failed or error, even when it also says success, is written, then the output is shown, then an error toast of failMsg follows, and nothing else |
| Present.TextSuccess | src/extension.ts:97-98 | otherwise text saying success gives only an info toast of successMsg |
| Present.TextOther | src/extension.ts:99-110 | any other text gives an info toast of its snippet first, only when the snippet is non-empty, then is written and the output shown, and nothing else |
| Present.NonBlankLines | src/extension.ts:100-103 | the lines kept are non-empty and trimmed, and hold no line break |
| Present.NonBlankMem | src/extension.ts:100-103 | a text is kept exactly when it is non-empty and is some line trimmed |
| Present.NonBlankAppend | src/extension.ts:100-103 | lines are kept in order: those of two runs of lines are the first run's followed by the second's |
| Present.NonBlankEnds | src/extension.ts:100-105 | the kept lines begin with the first line that is not all white space and end with the last one, trimmed |
| Present.SnippetEnds | src/extension.ts:100-106 | the snippet is the first non-blank line trimmed, followed by " ... " and the last one when the two differ |
| Present.SnippetEmpty | src/extension.ts:100-107 | the snippet is empty exactly when the text is all white space |
| Present.SnippetLine | src/extension.ts:100-106 | the snippet is one line with no surrounding white space |

## Left out

- Spawning the CLI, collecting its streams, `JSON.parse` and the promise wiring (`src/runSf.ts:39-76`) are process I/O. The model takes `parsed` and `cleaned` as given.
- `getWorkspaceRoot` and the working directory (`src/runSf.ts:21-32`) depend on the VS Code host.
- `validateWorkspaceExists` (`src/validators.ts:34-46`) only asks the VS Code host whether a workspace is open.
- `writeTempManifest`, command registration, progress UI and opening documents in `src/extension.ts` are host and filesystem glue.
- `src/fileUtils.ts`, `src/config.ts`, `src/notifications.ts` and `src/messages.ts` are not part of this model. They are filesystem calls, configuration lookups, toasts and message constants.
- `prettyJson` (`src/presentHelpers.ts:11-13`) wraps `JSON.stringify`, which is not modelled. The effect `AppendJson(value)` stands for writing `prettyJson(value)`.
- `Present.PresentSfResult`: a chosen status that is not a string is rendered with `String(parsed.status)`. That rendering is a parameter, `stringOf`, because number and object formatting is not modelled.
- JSON numbers are integers, because floating point is not modelled. Objects are their entries in order, and duplicate keys are assumed absent, as `JSON.parse` produces.
- `PresentHelpers.StripStack` works on values and returns the new tree; it does not delete in place. Shared or aliased sub-objects are therefore not modelled. Its loop over an object's entries drops `"stack"` as it walks. The source deletes first and then walks the remaining keys, which gives the same tree.
- `BuildPackage.BuildPackageFromText` requires that no candidate's type name be a name objects inherit from `Object.prototype` (`constructor`, `__proto__`, `toString`, …). The source keeps `membersByName` in a plain object (`src/buildPackage.ts:74,86,93`), and such names make it misbehave or throw. The model uses a real map and does not model that failure.
- The `__memberGroups` map that the source stores on the caller's selection objects (`src/buildPackage.ts:55-62`) is modelled as a fresh map per selection. Reusing selection objects across calls would otherwise carry stale groups into a later call, and callers always build fresh selections.
- `BuildPackage.Merge` treats candidates as records, not re-parsed text. This is exact unless a member's inner text itself contains a literal `<members>` or `<name>` tag, which would change what the re-read at `src/buildPackage.ts:76-84` sees.
- Offsets count characters, whereas JavaScript counts UTF-16 code units; surrogate pairs are not modelled.
- White space (JavaScript's `\s` and `trim`) is an explicit character table in `Text.IsSpace`.
- BuildPackageLayout.GroupLayout states the line-by-line layout only for groups whose name and members hold no line break. A kept value such as `A\nB` prints as two indented lines (`src/buildPackage.ts:94,100-104`). `BuildPackage.Serialise` covers that case exactly.
- The manifest path is put in double quotes without escaping (`src/runSf.ts:36`). The model states this behaviour; it does not correct it.
- An empty `<members></members>` contributes no member: the re-read at `src/buildPackage.ts:84` drops values that are empty.
