# CSS Toggler: the plugin's decision logic

CSS Toggler is a Powercord plugin. It keeps CSS snippets, each linked to the chat message
that carried it, inside the client's Quick CSS file. This project models the logic that
the plugin's main file (`index.jsx`) runs around its snippet store and manager. It
proves properties of that logic in Dafny. The logic has four parts.

- **Message sync** (`watchSnippets`). A MESSAGE_UPDATE event for a message with a stored
  snippet recomputes the snippet's content. The handler takes every capture of the
  pattern ``/`{3}css\n([\s\S]*)`{3}/ig`` in the message text. It trims each capture,
  appends a line feed, and calls `updateSnippet(id, content)` once with the result. An update
  payload without `content` makes `matchAll` throw before any call is made.
  Modules `Fence` (the pattern and `trim` as an explicit scan), `Sync` (the loop) and
  `Toggler` (the handler on the plugin object).
- **Snippet-button placement** (`patchSnippetButton`). This rule edits the children of a
  message's mini popover in place with `splice`. Module `Popover`.
- **Quick CSS change detection** (`watchQuickCSSFile`). Each compile writes the compiler
  output into the Quick CSS `<style>` element and reads the element's `innerHTML` back.
  It compares the text read back with the `_quickCSS` value read once at setup. On a
  difference it stores that text in `_quickCSS` and calls `fetchSnippets()`. The HTML
  parser turns CR LF and lone CR into LF and U+0000 into U+FFFD, so the text read back
  can differ from the output (`QuickCss.ReadBack`). Module `QuickCss`.
- **The `snippet` command** (`registerMainCommand`). Its executor and autocomplete are
  lookups over the ordered subcommand table. Module `Commands`.

Collaborators that are not part of this model appear in the following forms:
- The snippet store is a set of ids (`getSnippet` presence).
- `updateSnippet` and `fetchSnippets` are recorded calls.
- Compiler outputs are inputs.
- `./commands` is an ordered table of `{command, description, executor, autocomplete?}`.

Facts about the code that the model brings out:

- Two fenced blocks are not extracted separately. The capture group is greedy, so a
  message with two blocks gives ONE capture. It runs from the first opening to the last
  closing fence, and it includes the text and the fences between the blocks
  (`Fence.TwoBlocksMerge`, `Sync.TwoBlocksContent`).
- A recompile is compared with a baseline fixed at setup, not with the last output. The
  same changed output therefore fetches again on every compile
  (`QuickCss.RepeatedChangeFetchesAgain`). A compile back to the baseline leaves
  `_quickCSS` at the earlier changed text (`QuickCss.RevertKeepsChangedQuickCss`).
- A baseline that holds a CR or U+0000, such as a Quick CSS file saved with CR LF line
  endings, never equals the text read back from the element. Then every compile fetches
  (`QuickCss.UncleanBaselineAlwaysFetches`).
- A SnippetButton found nested inside a child of the popover is not replaced where it
  stands. `findIndex` finds no child equal to it and returns -1, so `splice(-1, 1, x)`
  replaces the LAST child, which is an unrelated button
  (`Popover.PopoverRender.PatchSnippetButton`, second case).
- An end tag such as `</style>` in the compiler output stays text. Fragment parsing has
  no matching end tag, so `QuickCss.ReadBack` keeps it unchanged.
- The stored content is not the bare block body. The handler appends a line feed to each
  trimmed capture (`Sync.ContentShape`).
- An extracted content is not always free of leading whitespace. A capture made only of
  whitespace gives the content `"\n"` (`Sync.ContentShape` states the exact shape).

## Model

| member | source | states |
|---|---|---|
| `Fence.LastTicks` | index.jsx:235 | the greedy `[\s\S]*` stops at the last ``` starting at or after the given position, or there is none |
| `Fence.FirstOpen` | index.jsx:235 | the first opening "```css\n" (tag in any case) at or after a position, with none before it |
| `Fence.MatchAt` | index.jsx:235 | a match tried at p is made exactly when an opening starts at p and some ``` starts at or after p+7, and it closes on the last such ``` |
| `Fence.NextMatch` | index.jsx:235 | the global regex's search from `lastIndex` finds the first position that matches, and no earlier one matches |
| `Fence.MatchesFrom` | index.jsx:235 | `matchAll` from `lastIndex`: no capture exactly when no position at or after it matches, and otherwise the first capture is that of the first match |
| `Fence.Captures` | index.jsx:235 | `message.content.matchAll(...)` starts scanning at 0; what it yields is stated by `Fence.CapturesAreFenced` and `Fence.AtMostOneMatch` |
| `Fence.CapturesAreFenced` | index.jsx:235 | `matchAll` yields exactly the text from after the first opening to the last later ```, or nothing when no ``` follows it |
| `Fence.AtMostOneMatch` | index.jsx:235 | the greedy pattern yields at most one match on any text |
| `Fence.TwoBlocksMerge` | index.jsx:235 | two fenced blocks give one capture holding the first body, its fence, the text between, the second opening and the second body |
| `Fence.NothingAfterMatch` | index.jsx:235 | after a match, the scan that resumes at its end finds nothing |
| `Fence.TrimLeft` | index.jsx:236 | `trim()` scans forward from the start: every character it passes is trimmable, and it stops at the end or at a character that is not |
| `Fence.TrimRight` | index.jsx:236 | `trim()` scans backward from the end: every character it passes is trimmable, and it stops at the left bound or after a character that is not |
| `Fence.Trim` | index.jsx:236 | `trim()` is no longer than its input, and a non-empty result neither starts nor ends with a trimmable character |
| `Fence.TrimIsSlice` | index.jsx:236 | `trim()` returns a slice of its input, and everything it cuts off on either side is trimmable |
| `Sync.AccumulateContent` | index.jsx:233-239 | the loop builds the content out of each trimmed capture plus a line feed; it is "" exactly when nothing matched, and otherwise ends with a line feed |
| `Sync.JoinedCaptures` | index.jsx:235-238 | on any message text that matches, there is exactly one capture and the content is that capture trimmed plus one line feed (the empty case is `Sync.Joined`'s own contract) |
| `Sync.Joined` | index.jsx:233-239 | the accumulated content is "" exactly when there are no captures, otherwise ends with a line feed, and has at least one character per capture |
| `Sync.JoinedOne` | index.jsx:236-238 | one capture contributes its trimmed text and one line feed |
| `Sync.ContentShape` | index.jsx:236-238 | the content is "", or "\n", or a text that neither starts nor ends (before its final line feed) with a trimmable character |
| `Sync.NoFenceEmptyContent` | index.jsx:233-241 | a text without an opening yields the empty content, so the record is emptied and not removed |
| `Sync.TwoBlocksContent` | index.jsx:235-238 | a message with two blocks yields one content that carries the text and fences between them |
| `Toggler.CssToggler.constructor` | index.jsx:18-22 | a new plugin object has no injections and has made no manager calls |
| `Toggler.CssToggler.Inject` | index.jsx:245-249 | `inject` appends the id to `injections` |
| `Toggler.CssToggler.OnMessageUpdate` | index.jsx:229-242 | an id with no stored snippet causes no call; a stored id whose message has no `content` throws at `matchAll` before any call; a stored id with content causes exactly one `updateSnippet` with the extracted content, "" when nothing matches |
| `Popover.FirstHolder` | index.jsx:145 | the first child whose subtree holds a SnippetButton, where the depth-first search stops |
| `Popover.HoldsButton` | index.jsx:145 | the `findInReactTree` filter: a node is a SnippetButton or has a descendant that is one (a definition, used by `Popover.FirstHolder`) |
| `Popover.SpliceStart` | index.jsx:150-152 | splice's start: a start inside the array is kept, a negative start counts from the end, a start past the end becomes the length, and one before the beginning becomes 0 |
| `Popover.SpliceDeleteCount` | index.jsx:150-152 | splice's deleteCount: a negative count deletes nothing, a count past the end deletes what is left, and any other count is kept |
| `Popover.Splice` | index.jsx:150-152 | `Array.prototype.splice`: the elements before the start are kept, the items follow them, then come the elements after the deleted ones, and the length is the old length minus the deleted count plus the items |
| `Popover.SpliceReplaces` | index.jsx:150 | `splice(k, 1, x)` with k inside the array replaces the element at k and keeps the length |
| `Popover.SpliceBeforeLast` | index.jsx:152 | `splice(length - 1, 0, x)` inserts x just before the last child, or makes [x] of an empty array |
| `Popover.PopoverRender.SpliceChildren` | index.jsx:150-152 | the children become what splice leaves behind |
| `Popover.PopoverRender.PatchSnippetButton` | index.jsx:145-153 | an existing button child is replaced at its index; a nested one makes the last child be replaced; otherwise a fenced block inserts the button before the last child; otherwise nothing changes |
| `Popover.PopoverRender.constructor` | index.jsx:131 | the render starts with the given children |
| `QuickCss.ReadBack` | index.jsx:166-169 | the `innerHTML` read back from the style element is no longer than what was written and holds no CR and no U+0000; what each character becomes is stated by the lemmas below |
| `QuickCss.ReadBackKeepsClean` | index.jsx:166-169 | a text without CR and U+0000 reads back unchanged |
| `QuickCss.ReadBackIdempotent` | index.jsx:166-169 | writing back what was read back changes nothing more |
| `QuickCss.ReadBackConcat` | index.jsx:166-169 | a text that does not end in CR reads back the same whether or not more text follows it |
| `QuickCss.ReadBackOfCrLf` | index.jsx:166-169 | a CR LF pair reads back as one LF |
| `QuickCss.LoneCrReadsBackAsLf` | index.jsx:166-169 | a CR not followed by LF reads back as LF |
| `QuickCss.NulReadsBackAsReplacement` | index.jsx:166-169 | U+0000 reads back as U+FFFD |
| `QuickCss.CrLfReadsBackAsLf` | index.jsx:166-169 | a line ending in CR LF reads back ending in LF |
| `QuickCss.Compile` | index.jsx:165-171 | one run of the `compile` closure on the state `_quickCSS`, `innerHTML` and fetch count (a definition; its properties are the lemmas below) |
| `QuickCss.CompileAll` | index.jsx:165-171 | successive compiles, one per output, oldest first (a definition) |
| `QuickCss.CompileAllSnoc` | index.jsx:165-171 | compiling one more output after a run equals running the longer list |
| `QuickCss.FetchesCountDiffering` | index.jsx:166-171 | `fetchSnippets` is called once per compile whose read-back text differs from the baseline |
| `QuickCss.QuickCssIsLastDiffering` | index.jsx:162-169 | `_quickCSS` holds the latest read-back text that differed from the fixed baseline, or its old value |
| `QuickCss.InnerHtmlIsLastOutput` | index.jsx:166 | the style element holds the latest compiler output, as read back |
| `QuickCss.RepeatedChangeFetchesAgain` | index.jsx:162-171 | the same changed output compiled twice fetches twice, because the baseline is never refreshed |
| `QuickCss.RevertKeepsChangedQuickCss` | index.jsx:162-171 | compiling back to an output that reads back as the baseline neither fetches nor resets `_quickCSS` |
| `QuickCss.UncleanBaselineAlwaysFetches` | index.jsx:162-171 | with a baseline holding a CR or U+0000, every compile fetches |
| `QuickCss.ModuleManager.constructor` | index.jsx:162 | the module manager state `compile` reads and writes |
| `QuickCss.Watcher.constructor` | index.jsx:161-183 | setup captures `_quickCSS` as the baseline and runs the first compile |
| `QuickCss.Watcher.Run` | index.jsx:165-172 | a compile writes the output, keeps the baseline, and fetches and stores the read-back text in `_quickCSS` exactly when that text differs from the baseline |
| `Commands.FirstKey` | index.jsx:191 | `args[0]` as a property key or in the error text: the first argument, or "undefined" when there is none |
| `Commands.Rest` | index.jsx:209 | `args.slice(1)`: the arguments after the first, or none |
| `Commands.Lookup` | index.jsx:191 | `commands[args[0]]`: an own key gives its entry, an inherited Object.prototype name gives a truthy non-subcommand, anything else gives undefined |
| `Commands.Fields` | index.jsx:200-204 | one field per key, in key order, named by the key, valued by its description, inline |
| `Commands.InvalidSubcommand` | index.jsx:193-206 | the error reply: not sent, a rich error embed titled "Invalid Subcommand" whose description quotes the key, with one inline field per key in key order, named by the key and valued by its description |
| `Commands.Execute` | index.jsx:190-210 | an unknown first argument gets the "Invalid Subcommand" reply; a key delegates with the remaining args; an inherited name throws |
| `Commands.Lower` | index.jsx:214 | `toLowerCase` on ASCII: the length is kept, no capital is left, each capital becomes the letter 32 code points above it, and every other character is kept |
| `Commands.LowerIdempotent` | index.jsx:214 | lower-casing twice is lower-casing once |
| `Commands.Includes` | index.jsx:214 | `String.prototype.includes`: a needle that occurs is no longer than the text, and the empty needle always occurs |
| `Commands.MatchPositions` | index.jsx:214 | the positions of the subcommands whose `command` contains the query: in increasing order, each once, and exactly the matching ones |
| `Commands.Matching` | index.jsx:214 | the filter's result is no longer than the key list; its exact elements are given by `Commands.MatchingAtPositions` |
| `Commands.MatchingAtPositions` | index.jsx:214 | the filter yields the entries at the matching positions, in key order, each once |
| `Commands.MatchingKeepsExactly` | index.jsx:214 | the kept subcommands are exactly those whose `command` contains the query |
| `Commands.Autocomplete` | index.jsx:211-225 | one argument: the subcommands whose `command` contains it lower-cased, in key order, each once; otherwise a delegation with the remaining args when the subcommand has an autocomplete, and `false` else |
| `Commands.Join` | index.jsx:189 | `join`: no keys give "", one key gives itself, and more start with the first key and the separator |
| `Commands.JoinSnoc` | index.jsx:189 | appending a key to a non-empty list appends the separator and the key to the joined string |
| `Commands.Usage` | index.jsx:189 | the usage line starts with "{c} <" and ends with "> <id>" |
| `Commands.UsageNamesEveryKey` | index.jsx:189 | the usage line names every subcommand key |
| `Commands.IncludesMiddle` | index.jsx:189 | a string occurs in any string built around it |
| `Commands.JoinIncludesEach` | index.jsx:189 | every key occurs in the joined key list |
| `Commands.InheritedNameThrows` | index.jsx:191-192 | `/snippet toString` throws under the code as written and gets the error reply under `ExecuteOwn` |
| `Commands.ExecuteOwn` | index.jsx:191-209 | with an own-property test, every non-key gets the "Invalid Subcommand" reply and nothing throws |

## Findings

| source | as written | input that shows it | evidently intended | confidence | as-written member | corrected member |
|---|---|---|---|---|---|---|
| index.jsx:191-192 | `commands[args[0]]` also finds members inherited from Object.prototype, which are truthy, so `subcommand.executor` is undefined and calling it throws a TypeError | `/snippet toString` (args `["toString"]`) | an unknown subcommand gets the structured "Invalid Subcommand" reply | medium, not executed; assumes `./commands` exports a plain object | `Commands.Execute` | `Commands.ExecuteOwn` |

## Left out

- The snippet store, the snippet manager and the snippet record format (`./stores/snippetStore`, `./managers/snippets`) are not part of this model. The store is a set of ids and the manager calls are recorded.
- `./commands`, `./constants`, `./i18n` and the settings components are not part of this model. Subcommand executors and autocompletes are opaque, so a delegation records the subcommand and the arguments it receives.
- Powercord and webpack plumbing is left out because it is host UI integration: settings registration, `Flux.connectStores`, the settings-jump and settings-page patches (index.jsx:37-51, 72-123), and the rest of the mini popover patch around the splice rule (index.jsx:126-143, 155-158).
- `findInReactTree` (from powercord/util) is modelled only as the depth-first, node-before-descendants search its use here relies on.
- Compiler invocation, the file watcher, `await` and the order of asynchronous events are left out. Compiler outputs are inputs to `QuickCss.Watcher.Run`. `fetchSnippets` is reached only after the `await` on index.jsx:166, and by then `startPlugin` has already created `snippetManager` (index.jsx:33), so the model does not need to track whether the manager exists.
- `pluginWillUnload` (index.jsx:60-70) is left out because it is teardown plumbing. Its line 63 subscribes the compile handler again with `.on` where `.off` was evidently meant.
- components/SnippetCard.jsx and components/SnippetButton.jsx are left out because they are rendering and click handling.
- `injector.inject`, which `inject` calls before it records the id, is not part of this model.
- Commands.Lower: lowers ASCII letters only. JavaScript's `toLowerCase` also maps non-ASCII letters.
- Commands.Execute: assumes no subcommand key looks like an array index. `Object.keys` would list such keys first, in numeric order.
- Strings are sequences of Unicode scalar values. JavaScript strings are UTF-16 code units, so lone surrogates are not modelled.
