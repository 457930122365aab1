# synvert-ui-common, modelled in Dafny

synvert-ui-common is the shared front-end library of the synvert editors. It runs
`synvert-ruby` or `synvert-javascript` over a project and receives *test results*:
for each file, a tree of *actions*. A leaf action replaces the characters
`[start, end)` of the file with `newCode`; a `group` action holds child actions. The
library then applies those actions to the file's source.

This project models four parts of the library.

- **The edit engine (`src/action.ts`).**
  - Flattening the action tree.
  - Ordering actions by position with `compareActions`, and sorting group trees in
    place.
  - Applying a whole test result right to left (`replaceTestResult`).
  - Applying one action or one group (`replaceTestAction`). This rebases, in place,
    the start and end of every remaining action by the size change of each splice,
    and records the new source in the result.
- **The pure helpers of the command layer (`src/command.ts`).**
  - Telling a real stderr error from benign noise.
  - Stripping the Ruby resolver banner from stdout.
  - Joining a binary path onto a command.
  - Building the argument lists of both command lines.
  - Turning snake_case or dash-case keys into camelCase.
  - Folding the edits for a renamed file into that file's `rename_file` result.
- **Snippet search and composition (`src/snippet.ts`).**
  - Filtering and sorting the snippet list by a search text.
  - Composing the Ruby and JavaScript rewriter templates around a generated snippet.
  - Choosing the snippet service URL.
- **The matching predicate (`src/index.ts`).**

## How the model is organised

Actions are JavaScript objects shared between lists and updated in place. They live in
an arena: class `Types.ActionHeap` holds `nodes: seq<Action>`, and an `ActionRef` is an
index into it. An arena is well formed when every child is stored after its parent.
This allows sharing, as JavaScript arrays do, but no cycles.

A test result is the class `Types.TestResult`:
- its `filePath` is fixed;
- its `actions` list and its `fileSource` are mutable.

Each operation that updates state is a `method`. It is proved against a specification
function on the old state, and the properties are proved about those functions as
lemmas. The modules are:

| module | what it holds |
|---|---|
| `Actions` | the edit engine (`action.dfy`) |
| `ActionSorting` | `sortActions` (`sort_actions.dfy`) |
| `EditAlgebra` | properties of many splices at once (`edits.dfy`) |
| `Commands` | the command-layer helpers |
| `Snippets` | snippet search and the templates |
| `SnippetIndex` | the matching predicate |
| `JsText` | JavaScript string primitives: `toLowerCase`, `includes`, `slice`, `substring`, `indexOf`, `<` |
| `Sorting` | the stable sort that stands for `Array.prototype.sort` |
| `Seqs` | `filter` and `reverse` |
| `ActionScenarios`, `SnippetScenarios` | the concrete cases of the repository's tests |

## Model

| member | source | states |
|---|---|---|
| Actions.FlatActions | src/action.ts:3-13 | the flattened list holds no group and equals `Flat` of the action list |
| Actions.Flat | src/action.ts:3-13 | every reference in the result is a valid leaf (never a group) |
| Actions.FlatIsLeavesOfPreorder | src/action.ts:3-13 | flattening is exactly the leaves of a depth-first, left-to-right walk, in that order |
| Actions.FlatAppend | src/action.ts:5-11 | flattening distributes over concatenating action lists |
| Actions.CompareActionsAntisymmetric | src/action.ts:29-39 | swapping the arguments negates the result, which is always -1, 0 or 1 |
| Actions.CompareActionsTie | src/action.ts:29-39 | 0 exactly when start and end agree and the conflict positions are not both truthy and different |
| Actions.CompareActionsTransitive | src/action.ts:29-39 | "less than" is transitive |
| Actions.CompareActionsTiesNotTransitive | src/action.ts:34-38 | three actions where a ties b and b ties c, yet a sorts after c: an absent position ties with everything |
| Actions.RefCompareConsistent | src/action.ts:15-17 | the comparator, read through the arena, is antisymmetric and transitive; its ties are not transitive (`Actions.CompareActionsTiesNotTransitive`) |
| Actions.SortFlattenActions | src/action.ts:15-17 | the result is a permutation of the input, sorted by `compareActions`, and keeps every reference valid |
| Actions.ReplaceTestResult | src/action.ts:47-58 | the new source is the batch splice of the sorted leaves, applied from the last one; `result.actions` is left unchanged |
| Actions.SpliceInOrder | src/action.ts:48-56 | splicing the leaves in the given order equals `SpliceAll` of those actions |
| Actions.SpliceInBounds | src/action.ts:54 | an in-bounds splice is the source before `start`, then `newCode`, then the source from `end` |
| Actions.IterateActions | src/action.ts:60-67 | the callback is applied once per visit of a depth-first walk, and the tree shape is unchanged |
| Actions.VisitAction | src/action.ts:61-65 | one action, then its group's children recursively, are updated in walk order |
| Actions.ApplyAlongOnce | src/action.ts:60-67 | along a walk without repeats, each action is updated exactly once if visited and untouched otherwise |
| Actions.ApplyAlongAppend | src/action.ts:60-67 | walking a then b is walking a and then walking b over the updated arena |
| Actions.Rebase | src/action.ts:88-96 | rebasing changes only start and end; kind, children, newCode and conflict position are unchanged |
| Actions.SpliceEach | src/action.ts:79-86 | it succeeds exactly when every spliced action has newCode; it returns the spliced source and one offset per action, sized `len(newCode) - (end - start)` |
| Actions.ReverseChildrenFacts | src/action.ts:79 | reversing a group's children in place keeps the arena well formed and leaves the child actions as they were |
| Actions.ReplaceTestAction | src/action.ts:76-100 | fails (TypeError) exactly when an applied action lacks newCode; otherwise returns the spliced source; a group's children end up reversed; every remaining action is rebased and `fileSource` is set only when `result.actions` is non-empty |
| EditAlgebra.BatchIsWeave | src/action.ts:48-56 | splicing ordered, non-overlapping edits from the last to the first equals rewriting all of the edits at once in the original text |
| EditAlgebra.WeaveLength | src/action.ts:48-56 | the new text is as long as the old one plus the summed size changes |
| EditAlgebra.ApplyThenRebase | src/action.ts:76-100 | applying a run of edits first, then the others rebased by its offsets, gives the same text as applying all ordered edits in one batch, provided the edits before the run end before the run's first edit ends |
| EditAlgebra.RebaseBoundary | src/action.ts:90-94 | on "abc", an edit that ends exactly where a zero-width insertion is applied gets its end moved past the inserted text, so the two orders differ |
| EditAlgebra.AppliedIsRun | src/action.ts:78-86 | the edits `replaceTestAction` applies are the leaf or the group's children reversed; splicing them in that order is the batch of the run |
| EditAlgebra.RebasedLeaves | src/action.ts:87-97 | after `replaceTestAction`, the remaining leaves are the originals rebased by the offsets of the applied run, taken last edit first |
| EditAlgebra.ShiftAbove | src/action.ts:89-95 | for ordered, coded edits, a position at or after the end of the last one moves by their total size change |
| EditAlgebra.ShiftBelow | src/action.ts:89-95 | a position before every applied end stays where it is |
| ActionSorting.SortActions | src/action.ts:19-27 | returns the list sorted by `compareActions` (a permutation of it); in the arena, every reachable group's children are sorted in place |
| ActionSorting.SortChildren | src/action.ts:21-25 | sorting one group sorts every group reachable from it and nothing else |
| ActionSorting.SortAtSorts | src/action.ts:19-27 | after sorting, each sorted group's children are a permutation of the old ones, ordered by the comparator |
| ActionSorting.SortAtCompose | src/action.ts:21-25 | sorting one set of groups and then another is sorting their union |
| ActionSorting.ReachMembers | src/action.ts:21-25 | the groups sortActions reaches are exactly the groups on the depth-first walk |
| ActionScenarios.ReplaceTestResultExample | test/action.spec.ts:108-140 | "hello world" with a replacement and a group of two gives "hi--foo" |
| ActionScenarios.ReplaceTestActionExample | test/action.spec.ts:303-336 | applying (0,5,"hi") gives "hi world"; the action (6,11) becomes (3,8) |
| ActionScenarios.ReplaceTestActionGroupInResultExample | test/action.spec.ts:338-391 | applying (5,6,"--") gives "hello--world"; the group (0,11) becomes (0,12); its children become (0,5) and (7,12) |
| ActionScenarios.ReplaceTestActionGroupExample | test/action.spec.ts:393-436 | applying the group gives "hi foo"; the remaining (5,6) becomes (2,3) |
| Commands.IsRealErrorPrefixes | src/command.ts:5-14 | a real error exactly when stderr is non-empty and starts with none of the five benign prefixes |
| Commands.BenignExtends | src/command.ts:5-14 | benign output stays benign whatever follows it |
| Commands.IsRealErrorExamples | src/command.ts:5-14 | empty, "warning:" and "npm WARN" output are not errors; "hello world" is |
| Commands.StripOutput | src/command.ts:35-37 | the result is the output itself, or the output with its first 26 characters dropped |
| Commands.StripOutputBanner | src/command.ts:35-37 | "Resolving dependencies", any three non-newline characters and "\n" at the start are removed |
| Commands.StripOutputOnce | src/command.ts:35-37 | only the first banner is removed |
| Commands.StripOutputEarlyNewline | src/command.ts:35-37 | a newline among the three wildcard characters prevents the match |
| Commands.StripOutputPlain | src/command.ts:35-37 | output that does not start with the banner words is unchanged |
| Commands.JoinAppend | src/command.ts:385-387 | joining two lists is joining each side, with "/" between them only when both sides have a present part |
| Commands.JoinIgnoresEmpty | src/command.ts:385-387 | a missing or empty part changes nothing |
| Commands.PresentAppend | src/command.ts:386 | filtering out falsy parts distributes over concatenation |
| Commands.FullCommandWithoutBinPath | src/command.ts:381-383 | without a bin path, or with an empty one, the command is unchanged |
| Commands.FullCommandWithBinPath | src/command.ts:381-383 | with a bin path, the command is `binPath + "/" + command` |
| Commands.BuildRubyCommandArgs | src/command.ts:83-106 | the pushed list equals `RubyArgs` of the parameters |
| Commands.BuildJavascriptCommandArgs | src/command.ts:136-160 | the pushed list equals `JavascriptArgs` of the parameters |
| Commands.RubyArgsRoundTrip | src/command.ts:83-106 | given the number of additional arguments, the argument list determines its parameters: parsing it back gives the command, both paths, the extra arguments and the root path |
| Commands.JavascriptArgsRoundTrip | src/command.ts:136-160 | the same for the JavaScript command line, whose root path follows `--root-path` |
| Commands.RubyArgsNeedArgCount | src/command.ts:83-106 | without that number the list does not determine the parameters: an extra `--only-paths x` and an `onlyPaths` of `x` give the same list |
| Commands.ParsePathFlagsOf | src/command.ts:95-102 | `--only-paths` and `--skip-paths` appear exactly when non-empty, and can be read back |
| Commands.JavascriptArgsFromRuby | src/command.ts:136-160 | the JavaScript list is the Ruby list with the positional root path replaced by `--root-path <root>` |
| Commands.CommandArgsExamples | test/index.spec.ts:177-199 | the four argument lists of the tests |
| Commands.SnakeToCamelFixed | src/command.ts:389 | a key is unchanged exactly when it has no `-` or `_` followed by a word character, and gets shorter exactly when it has one |
| Commands.CamelFromFixed | src/command.ts:389 | the same, for every suffix of the key |
| Commands.SnakeToCamelNoSeparator | src/command.ts:389 | a key with no dash and no underscore is left as it is |
| Commands.SnakeToCamelExample | test/index.spec.ts:102-107 | "snake_case_key" becomes "snakeCaseKey" |
| Commands.SnakeToCamelKeeps | test/index.spec.ts:102-107 | "camelCaseKey" and "key" are unchanged |
| Commands.SnakeToCamelDashes | src/command.ts:389 | "new-file-path" becomes "newFilePath" |
| Commands.MergeRenameFileTestResults | src/command.ts:331-342 | fails (TypeError) without changing anything if some result has no actions; otherwise returns the input when there is no rename, and in every case the merged order, with each rename result's actions extended; only `actions` fields change, and every `fileSource` is kept |
| Commands.AbsorbRenames | src/command.ts:336-339 | each rename result in turn takes the actions of the other results on its path; only `actions` fields change |
| Commands.AppendActions | src/command.ts:337-338 | a rename result's actions become the old ones followed by those of each same-path result, in order; its `fileSource` is kept |
| Commands.MergedOrderMembers | src/command.ts:340-341 | a result is in the output exactly when it is a rename result or its path matches no rename result |
| Commands.MergedOrderNoRenames | src/command.ts:333-335 | with no rename result, the input comes back as it is |
| Commands.DroppedGoToRename | src/command.ts:336-341 | every result left out of the output is one of the same-path results of some rename result |
| Commands.AbsorbDistinct | src/command.ts:336-339 | when rename paths differ, each rename result gets its own actions followed by those of its same-path results |
| Commands.AbsorbKeepsOthers | src/command.ts:336-339 | results that are not rename results keep their actions |
| Commands.SameFileMembers | src/command.ts:337 | the same-path results of r are results with r's path, and never r itself |
| Snippets.FilterSnippetsMembers | src/snippet.ts:9-16 | a snippet is kept exactly when its group, name or non-empty description contains the text, ignoring case |
| Snippets.FilterSnippetsEmptyText | src/snippet.ts:9-16 | an empty search text keeps every snippet |
| Snippets.FilterSnippetsAppend | src/snippet.ts:11 | filtering keeps the order: it distributes over concatenation |
| Snippets.SortSnippets | src/snippet.ts:24-35 | sorts the caller's array in place, and returns it, into the sort by the snippet comparator; snippets of equal rank (the same two matches and the same "group/name") keep their input order |
| Snippets.SnippetTiesTransitive | src/snippet.ts:27-33 | the comparator returns 0 exactly for snippets of equal rank, so its ties are transitive |
| Snippets.SortSnippetsStable | src/snippet.ts:26-34 | the sort is stable: the snippets of any one rank come out in the order they went in |
| Snippets.SortSnippetsOrder | src/snippet.ts:26-34 | group matches come first; then name matches; then ascending "group/name" |
| Snippets.SortSnippetsPermutes | src/snippet.ts:24-35 | the sorted list is a permutation of the input |
| Snippets.CompareSnippetsTie | src/snippet.ts:26-34 | 0 exactly when both match flags agree and the "group/name" keys are equal |
| Snippets.CompareSnippetsFlip | src/snippet.ts:26-34 | the comparator is antisymmetric |
| Snippets.CompareSnippetsTransitive | src/snippet.ts:26-34 | the comparator is transitive |
| Snippets.SnippetOrderConsistent | src/snippet.ts:26-34 | the comparator is antisymmetric and transitive (`Sorting.Consistent`); with `Snippets.SnippetTiesTransitive` it is consistent in the ECMAScript sense |
| Snippets.PackageSplit | src/snippet.ts:43-45 | name and version split the text at its first space; without a space the name is empty and the version is everything |
| Snippets.IndentRoundTrip | src/snippet.ts:51 | indenting loses nothing: removing the four spaces after each newline gives the snippet back |
| Snippets.IndentNewlines | src/snippet.ts:51 | every newline of the indented body is followed by four spaces |
| Snippets.ComposeRubyGeneratedSnippet | src/snippet.ts:37-57 | the built string equals the Ruby template `RubySnippet` |
| Snippets.RubySnippetLayout | src/snippet.ts:37-57 | starts with the header; has an `if_ruby` line exactly when a Ruby version is given and an `if_gem` line exactly when a gem version is; ends with the body, "  end\n" and "end" |
| Snippets.ComposeJavascriptGeneratedSnippet | src/snippet.ts:59-79 | the built string equals the JavaScript template `JavascriptSnippet` |
| Snippets.JavascriptSnippetLayout | src/snippet.ts:59-79 | starts with the header; has an `ifNode` line exactly when a Node version is given and an `ifNpm` line exactly when an npm version is; ends with the body, "  });\n" and "});" |
| Snippets.BaseUrlByLanguage | src/snippet.ts:81-83 | the Ruby service exactly for Ruby, the JavaScript service otherwise |
| SnippetScenarios.FilterByGroupExample | test/snippet.spec.ts:11-19 | "group1" keeps only the first snippet |
| SnippetScenarios.FilterByNameExample | test/snippet.spec.ts:20-28 | "name1" keeps only the first snippet |
| SnippetScenarios.FilterByDescriptionExample | test/snippet.spec.ts:29-37 | "description1" keeps only the first snippet |
| SnippetScenarios.SortSnippetsExample | test/snippet.spec.ts:39-54 | sorting the four snippets for "ruby" gives ids 4, 1, 3, 2 |
| SnippetIndex.SnippetMatchesEmptyText | src/index.ts:15-21 | every snippet matches the empty text |
| SnippetIndex.SnippetMatchesWithoutDescription | src/index.ts:20 | a missing or empty description never decides: only the group and the name do |
| SnippetIndex.SnippetMatchesIgnoresCase | src/index.ts:16 | upper- or lower-casing the search text changes nothing |
| SnippetIndex.FilterSnippetsMatches | src/index.ts:15-21 | `filterSnippets` keeps exactly the snippets `snippetMatchesByText` accepts, in order |
| JsText.IndexOf | src/snippet.ts:43 | -1 exactly when the character is absent; otherwise the position of its first occurrence |
| JsText.LowerCaseAbsorbs | src/index.ts:16-20 | lower-casing after upper-casing or lower-casing is plain lower-casing |
| JsText.JsLessTotal | src/snippet.ts:31-32 | of two different strings one is less than the other |
| JsText.JsLessTransitive | src/snippet.ts:31-32 | string `<` is transitive |
| Sorting.SortBySorted | src/action.ts:16 | the sort result is sorted by any consistent comparator |
| Sorting.SortByIdempotent | src/action.ts:20 | sorting an already sorted list changes nothing |
| Sorting.InsertStable | src/snippet.ts:26 | inserting into a sorted list puts the new element after every element it ties with |
| Sorting.SortByStable | src/snippet.ts:26 | with a consistent comparator whose ties are transitive, the elements tied with any one value keep their input order |

## Left out

- `isJsonString`, `outputContainsError`, `formatCommandResult` and `parseJSON` (src/command.ts:16-31, 44-53, 396-406): they depend on `JSON.parse`, an external parser. Only the key renaming `snakeToCamel` is modelled.
- Running processes, installing, syncing and checking dependencies (src/command.ts:78-81, 131-134, 162-329): these are I/O through an injected `runCommand`, HTTP `fetch` and the `compare-versions` library. Only the argument builders are modelled.
- `addFileSourceToSnippets` and `handleTestResults` (src/command.ts:344-379): file-system reads.
- `fetchSnippets` and `generateSnippets` (src/snippet.ts:85-154): HTTP calls. Only the templates they fill are modelled.
- `src/constants.ts`: literal lookup tables with no behaviour.
- The file-system effects asserted by test/action.spec.ts (adding, removing and renaming files): they belong to an older API that is not part of this model.
- Case mapping is ASCII only, as `LowerChar`/`UpperChar` in `JsText` define it. Strings are sequences of `char`, not UTF-16 code units.
- `Array.prototype.sort` is modelled as a stable insertion sort (`Sorting.SortBy`). ECMAScript requires a stable sort, but engines use other algorithms. With a consistent comparator whose ties are transitive every stable sort gives the same result (`Sorting.SortByStable`).
- ActionSorting.SortActions: states "sorted and a permutation" for each group's children, not stability, for the same reason as the next line: `compareActions` ties are not transitive.
- Actions.SortFlattenActions: states only "sorted and a permutation", not stability, because `compareActions` ties are not transitive (`Actions.CompareActionsTiesNotTransitive`). When the conflict position is absent on some actions, no order is "the" stable order the engine would give. ECMAScript then calls the comparator inconsistent, and the sort order is implementation-defined.
- Actions.ReplaceTestResult: "the sorted leaves" is a property of the modelled insertion sort only. When actions share a range and only some have a conflict position, the engine's order, and so the spliced source, is implementation-defined and need not be sorted by `compareActions`.
- EditAlgebra.ApplyThenRebase: requires that every edit before the applied run ends before the run's first edit ends. With `>=` at src/action.ts:90 and 93, an edit ending exactly where a zero-width insertion lands is stretched (`EditAlgebra.RebaseBoundary`). This is stated as proved behaviour, not as a defect.
- Reading `.length` of an undefined `newCode` (src/action.ts:81, 85) and `actions[0].type` of an empty list (src/command.ts:332) throw a TypeError. The model returns `None` at those points.
  - In `replaceTestAction` the group's children have already been reversed when the error is raised, and the model says so.
- A `newCode` that is undefined is spliced as the text "undefined", as JavaScript string concatenation does.
- The group branch of `replaceTestResult` (src/action.ts:49-52) is unreachable, because the list it walks was flattened. The model splices leaves only, and `ActionSorting.SortActions` models `sortActions` on its own.
- Two group actions sharing one JavaScript `actions` array would both see it reversed (src/action.ts:79) or sorted (src/action.ts:23). In the arena a group's children are a sequence stored in the group's own node, so the model reverses or sorts that one group's children only.
- A `group` action without an `actions` array makes `flatActions`, `iterateActions` and `replaceTestAction` throw (src/action.ts:7, 64, 79). In the model every action carries a sequence of children, possibly empty, so that error is not modelled.
- Actions.IterateActions: the callback is a pure function from action to action that keeps kind and children. Callbacks with other side effects are outside this model.
- `newFilePath` and `rootPath` of a test result are not fields of `Types.TestResult`, because no modelled operation reads them.
- `types.ts` declares the language type and the snippet record only as types. `Snippets.Language` lists the languages the snippet service knows. Only the Ruby/other distinction matters to `baseUrlByLanguage`.
