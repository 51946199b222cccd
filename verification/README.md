# AutoHotkey symbol parser: a Dafny model

This project models `Parser`, the line-oriented symbol extractor of the
AutoHotkey Plus Plus editor extension. The parser reads a document one line
at a time. It skips `/* ... */` comment blocks and runs a fixed chain of
detectors on every other line:

1. method declaration or call,
2. label,
3. hotkey or hotstring,
4. `;;` region block,
5. brace depth,
6. variables.

It collects the results into a `Script` with six lists (methods, labels,
hotkeys, refs, variables and blocks) and stores it in a cache keyed by the
document's path. Name lookups (`getMethodByName` and the rest) then read the
cache.

The model is written as pure functions over immutable data:

- `wrappers.dfy` and `text.dfy` hold `Option`/`Result` and the character classes and string scans the patterns use. Lower-casing is ASCII only.
- `symbols.dfy` holds the entities and the `Host` record. `Host` carries the three collaborators whose code is not part of this model:
  - the line normaliser `CodeUtil.purify`,
  - the reference merge `CodeUtil.join`,
  - `Method.pushVariable`.
- `line_detectors.dfy` holds the label, hotkey, block and remark detectors, and the block-comment markers.
- `method_detector.dfy` holds `detectMethodByLine`. It has a leftmost-match search for the method pattern and the recursive splitting of a line into calls.
- `variable_detector.dfy` holds `detectVariableByLine`, the `(\w+)[ \t,]+` word scan and `joinVars`.
- `script_cache.dfy` holds the cache, an insertion-ordered map like a JavaScript `Map`.
- `builder.dfy` holds `buildScript`: one `Step` per line, a fold over the first `LinesToParse` lines, and the cache write.
- `scan_invariant.dfy` and `build_invariant.dfy` hold the invariant every scan prefix keeps, and the proof that each line keeps it:
  - every item sits on an already scanned line of the document,
  - labels, hotkeys, blocks and methods appear in strictly increasing line order,
  - there are no `case`/`default` labels,
  - a method's end line and its variables come after its declaration,
  - each declaration has its reference,
  - document-level variable names are distinct.
- `symbol_index.dfy` holds the lookups over the cache.

Each regular expression is modelled as a recogniser. The recogniser returns
the match that JavaScript's backtracking engine returns: leftmost, lazy or
greedy as written, with look-arounds resolved by hand.

The source's `currentMethod` is always the method pushed last, so the model
keeps it as the last element of `methods`.

In one case, detection never ends in the source. This happens when the method
pattern matches only part of the normalised line and the raw line holds no
`name(` to delete, so the recursion does not terminate. The model reports
this case as `Overflow`, and `BuildScript` then fails with
`UnboundedRecursion(line)` and leaves the cache unchanged.

The command-word scan only counts a word when a blank or comma follows it.
So `MsgBox, x, y` gives the words `MsgBox` and `x`, and the variables it
reports are just `x`, not `x` and `y`. The model follows the code
(`VariableDetector.LastArgumentDropped`).

## Model

| member | source | states |
|---|---|---|
| LineDetectors.LabelMatchSpec | src/parser/parser.ts:274-276 | the label recogniser succeeds with `name` exactly when the line is blanks, then a non-empty run of label characters, then one `:` not followed by `:` or `=` |
| LineDetectors.GetLabel | src/parser/parser.ts:271-293 | a label is produced exactly when the pattern matches and its name is not `case`/`default` (any case); its name is the pattern's capture, its column the first occurrence of that name in the normalised line, and it carries the line and the document |
| LineDetectors.HotkeyCommandAtSpec | src/parser/parser.ts:258 | at one position the `hotkey` command alternative captures `name` exactly when `hotkey` (any case) and one blank or comma, then blanks, no `if` after them, then `name` as the longest comma-free run, follow; the blanks give back one character when only a comma or the end would follow them |
| LineDetectors.HotkeyCommandFrom | src/parser/parser.ts:258 | the `hotkey` command alternative is found at the leftmost position where it matches, and at no position before it; None exactly when it matches at no position |
| LineDetectors.HotkeyMatchSpec | src/parser/parser.ts:258-259 | the hotkey pattern captures `name` exactly when `^(.+?)::` captures it (text before the first `::` past the start, with no line terminator), or that alternative matches nowhere and the `hotkey` command alternative captures it at its leftmost matching position |
| LineDetectors.GetHotkey | src/parser/parser.ts:252-269 | a hotkey is produced exactly when the pattern matches the trimmed normalised line; its name is the capture of whichever alternative matched, its column the first occurrence of that name in the trimmed line, and it sits on the line with a non-empty name |
| LineDetectors.HotstringRoundTrip | src/parser/parser.ts:190-194 | a hotstring line `:options:abbrev::text` is recognised with name `:options:abbrev`, and stripping the leading options from its lower-cased name gives back the lower-cased abbreviation |
| LineDetectors.StripOptions | src/parser/parser.ts:193 | when the name opens with `:` and a second `:` follows with no line terminator in between, the result is everything after the first `:` that follows the leading one; otherwise the name is returned unchanged |
| LineDetectors.BlockMatch | src/parser/parser.ts:240 | `;;(.+)` matches exactly when some `;;` has a non-terminator after it; the capture is the whole rest of the line after the first such `;;`: non-empty, free of line terminators, and ending at a line terminator or the end of the line |
| LineDetectors.BlockMatchSpec | src/parser/parser.ts:240 | the recogniser returns `name` exactly when `name` is the rest of the line after the first usable `;;` marker |
| LineDetectors.GetBlock | src/parser/parser.ts:235-250 | a block is produced exactly when the raw line has a usable `;;` marker; its name is the rest of the line after the first such marker, its column is the first occurrence of that name in the line, and it carries the line and the document |
| LineDetectors.RemarkTextContent | src/parser/parser.ts:420 | the remark recogniser returns `text` exactly when the line is blanks, `;`, blanks, then `text` as the whole rest of the line; the blanks after `;` give back one character when nothing but terminators would follow |
| LineDetectors.GetRemark | src/parser/parser.ts:414-426 | no remark for a negative line; for other lines a remark exists exactly on remark-shaped lines, and it is the text the remark pattern captures on that line |
| LineDetectors.OpensBlockComment | src/parser/parser.ts:451 | a line opens a comment block exactly when `/` followed by `*` occurs somewhere in it |
| LineDetectors.ClosesBlockComment | src/parser/parser.ts:452 | a line closes a comment block exactly when `*` followed by `/` occurs somewhere in it |
| MethodDetector.MatchRefAtSpec | src/parser/parser.ts:356-358 | tried at one position, the method pattern yields `m` exactly when the text there is blanks, a name of name characters not preceded by `if`/`while` before its `(`, arguments up to the first `)`, the longest run of blanks, `{` exactly when one follows, and the longest run of blanks after it, with `m` holding those positions, the name and `name(...)` |
| MethodDetector.MatchRefFrom | src/parser/parser.ts:356-358 | the method pattern's match is leftmost: it starts at a position where the pattern matches and it matches at no earlier position; None means no position matches |
| MethodDetector.MatchRef | src/parser/parser.ts:356-358 | the match is the pattern's match at the leftmost position where it matches, with no match at any earlier position; None exactly when it matches nowhere; every match is well shaped: blanks, a non-empty name that does not end in `if`/`while`, `(`, arguments without `)`, `)`, blanks and an optional `{` |
| MethodDetector.MatchRefShape | src/parser/parser.ts:356-358 | read against the pattern's shape alone: a match is one the pattern makes at its start, no earlier position admits any match, and None holds exactly when no position admits one |
| MethodDetector.FindCall | src/parser/parser.ts:369 | finds the leftmost `name\s*(` at or after a position, and reports none when there is none |
| MethodDetector.RemoveCall | src/parser/parser.ts:369 | deleting `name\s*(` fails exactly when it occurs nowhere in the line, and otherwise shortens the line by at least the name and `(` |
| MethodDetector.RemoveCallText | src/parser/parser.ts:369 | what remains is the line with its first `name\s*(` cut out: the text before the name and after the `(` is kept unchanged, and only blanks lie between the name and the `(` |
| MethodDetector.NextNonBlank | src/parser/parser.ts:387-391 | the first line at or after `i` whose normalised text is not blank, with every line before it blank; None when all remaining lines are blank |
| MethodDetector.DetectMethod | src/parser/parser.ts:348-373 | no match gives nothing; a match covering the line gives nothing, a declaration or a call; a partial match gives a list of calls or the non-terminating case; a declaration carries the matched names, the line, the document, no end line and no variables (which of these a match gives is `DetectWholeLine` and `DetectPartialLine`) |
| MethodDetector.Classify | src/parser/parser.ts:374-406 | `{` on the line makes a declaration; otherwise no following non-blank line gives nothing, and the next non-blank line decides declaration (it opens with `{`) versus call; a declaration takes the remark of the line above |
| MethodDetector.SplitCalls | src/parser/parser.ts:364-373 | a partial match gives the call at the match followed by what the line gives once `name(` is deleted; when nothing can be deleted it gives the non-terminating case, and a list of calls always means something was deleted |
| MethodDetector.DetectWholeLine | src/parser/parser.ts:374-406 | when the match covers the normalised line: a `{` makes it a declaration; otherwise it is nothing exactly when no non-blank line follows, and a declaration exactly when the next non-blank line opens with `{`, else a call at the line and the name's column; a declaration's `withQuote` is the `{` flag and its remark is the one above the line |
| MethodDetector.DetectPartialLine | src/parser/parser.ts:362-373 | when the match covers only part of the line: the result is a list of calls or the non-terminating case; non-terminating when no `name(` can be deleted, and otherwise exactly when the line with it deleted does not terminate; with an appending merge the list opens with the call at the match |
| MethodDetector.DetectedRefsOnLine | src/parser/parser.ts:362-373 | with an appending merge, every reference a line yields is on that line, in that document, with a non-empty name of name characters |
| VariableDetector.DefMatch | src/parser/parser.ts:295-305 | the match is the name captured at the leftmost position where the assignment pattern matches, with no match at any earlier position; None exactly when it matches nowhere; a match captures a non-empty word |
| VariableDetector.DefMatchAtSpec | src/parser/parser.ts:295-296 | at one position the pattern captures `name` exactly when blanks, then `name` of word characters, then `\s` characters, then an optional operator and an `=` neither preceded nor followed by `=` or `!` with text after it, follow |
| VariableDetector.StripParensPlain | src/parser/parser.ts:320 | text without `(` is left unchanged by the removal of `(...)` groups |
| VariableDetector.StripParensKeepsPlain | src/parser/parser.ts:320 | a prefix without `(` is kept as it is and the removal goes on in the text after it |
| VariableDetector.StripParensDropsGroup | src/parser/parser.ts:320 | a group `(x)` at the front, where the lazy `.+?` stops at the `)`, is removed whole and the removal goes on after it |
| VariableDetector.WordsFrom | src/parser/parser.ts:318-321 | each match of `(\w+)[ \t,]+` is a non-empty word followed by one or more blanks or commas |
| VariableDetector.WordsFromComplete | src/parser/parser.ts:318-321 | every word run that starts a match (not preceded by a word character and followed by a blank or comma) at or after the scan start is listed, with its word and its full run of separators |
| VariableDetector.WordsFromSound | src/parser/parser.ts:318-321 | when the scan does not start inside a word, every listed match is the word run and separators starting at such a match position |
| VariableDetector.NonKeywordsSpec | src/parser/parser.ts:298 | a word survives keyword filtering exactly when it was present and is not `and`, `or`, `new`, `extends`, `if` or `loop` in any case |
| VariableDetector.CommandVariables | src/parser/parser.ts:322-338 | the variables' names are the non-keyword words in order; each is global and on the line |
| VariableDetector.DetectVariables | src/parser/parser.ts:299-341 | an assignment target is reported exactly when the assignment pattern matches; otherwise the names are the non-keyword command words after the first |
| VariableDetector.ArgumentsAreNonKeywordWords | src/parser/parser.ts:322-329 | a command-style variable is never the first word of the line and never a keyword |
| VariableDetector.LastArgumentDropped | src/parser/parser.ts:297 | `MsgBox, x, y` has command words `MsgBox` and `x` only: a word needs a separator after it |
| VariableDetector.JoinVars | src/parser/parser.ts:428-448 | old variables are kept in place; each added one comes from the items and has a name not already present; the names afterwards are the union; distinct names stay distinct |
| VariableDetector.JoinVarsAddsFirstOfEachNewName | src/parser/parser.ts:440-447 | the first item bearing a name that is new to the list is added |
| ScriptCache.Get | src/parser/parser.ts:55-56 | a lookup finds a script exactly when the path is cached, and then it is the stored one |
| ScriptCache.Put | src/parser/parser.ts:150 | storing keeps the cache consistent, makes the path map to the script, leaves every other path alone, and keeps the path order, appending only a new path |
| Builder.CommentFlag | src/parser/parser.ts:80-88 | a line is inside a comment block exactly when it has no closing marker and either opens one or the previous line was inside |
| Builder.AddMethod | src/parser/parser.ts:91-105 | a declaration appends the method and a reference with its name, line and column, raises the depth by one exactly when the method's `withQuote` flag is set (the pattern's `{` group matched after the argument list on the normalised line), and changes nothing else |
| Builder.Braces | src/parser/parser.ts:124-132 | the depth goes up by one when the line contains `{` and down by one when it contains `}`; a `}` sets the current method's end line to this line, and nothing else changes |
| Builder.Route | src/parser/parser.ts:133-139 | at depth 0 or before any method, variables merge into the document's list; otherwise they go to the current method through the host merge |
| Builder.Rest | src/parser/parser.ts:120-140 | a line that is neither label nor hotkey adds its block, if any, moves the depth by its braces exactly as `Braces` does, and changes no label, hotkey or reference |
| Builder.AfterMethod | src/parser/parser.ts:110-123 | a label ends the line, else a hotkey ends it, else blocks, braces and variables follow |
| Builder.Step | src/parser/parser.ts:78-140 | a line inside a comment block changes only the flag; a line fails exactly when detection does not terminate; a declaration moves the depth by its `withQuote` flag, a label or hotkey line leaves it, any other line moves it by its braces; at most one method is added; what each kind of line adds is stated by `StepDeclares`, `StepCalls` and `StepOrdinary` |
| Builder.StepDeclares | src/parser/parser.ts:89-105 | a declaration line outside a comment block appends its method and a reference with the method's name, the line and its column, and changes no other list |
| Builder.StepCalls | src/parser/parser.ts:106-108 | a call line outside a comment block succeeds, merges its references into the list with the reference merge, and then goes on to the label, hotkey, block, brace and variable detectors |
| Builder.StepOrdinary | src/parser/parser.ts:110-140 | a line outside a comment block with no declaration, label or hotkey succeeds, appends its block (if any) and adds no method; its variables join the document's list when the depth after its braces is 0 or no method was seen, and are pushed onto the last method otherwise, leaving the document's list alone |
| Builder.RestRoutes | src/parser/parser.ts:124-140 | the variables of a line go to the document's list at depth 0 after the line's braces or before any method, and to the current method otherwise |
| Builder.ScanTo | src/parser/parser.ts:78-141 | a failed scan names a line below the number of lines scanned (that every such line is stepped through is `BuildInvariant.ScanToStep`) |
| Builder.LinesToParse | src/parser/parser.ts:64-67 | the line count is capped by a non-negative limit and is otherwise the whole document |
| Builder.ParseLimit | src/parser/parser.ts:59-61 | the caller's limit is used when it gives one, and the configured limit otherwise |
| Builder.BuildScript | src/parser/parser.ts:51-151 | a cache hit returns the cached script and cache unchanged; a success stores the script under the path and changes no other entry; a failure names a scanned line; a limit of 0 gives the empty script unless the cache is hit (what a fresh script holds is `BuildInvariant.BuildScriptScans` and the lemmas after it) |
| ScanInvariant.RouteGrows | src/parser/parser.ts:133-139 | routing adds only variables of the line, keeps document variable names distinct, and touches only the current method's variables |
| ScanInvariant.BracesGrows | src/parser/parser.ts:124-132 | a brace line changes at most the current method's end line, to this line |
| ScanInvariant.RestGrows | src/parser/parser.ts:120-140 | the block, brace and variable stages add only items of this line and change no label, hotkey or reference |
| ScanInvariant.AfterMethodGrows | src/parser/parser.ts:110-123 | the stages after the method detector add only items of this line, at most one each of label, hotkey and block |
| ScanInvariant.DeclGrows | src/parser/parser.ts:91-105 | a declaration adds one method and its reference on this line |
| ScanInvariant.CallsGrows | src/parser/parser.ts:106-108 | merging the line's calls into the references adds only references on this line |
| ScanInvariant.StepGrows | src/parser/parser.ts:78-140 | each line adds to the lists only items found on that line and rewrites nothing already found except the current method's end line and variables |
| ScanInvariant.WfKeep | src/parser/parser.ts:69-140 | a script satisfying the invariant up to a line still satisfies it one line further after growing by that line |
| ScanInvariant.StepWf | src/parser/parser.ts:78-140 | a successful step keeps the invariant one line further |
| BuildInvariant.ScanWf | src/parser/parser.ts:69-141 | every successful scan of the first k lines satisfies the invariant for k |
| BuildInvariant.BuildScriptWf | src/parser/parser.ts:59-150 | a freshly built script satisfies the invariant for the number of lines scanned: items on scanned lines, ordered lines, no reserved labels, each declaration referenced, distinct document variable names |
| BuildInvariant.ScanToSucceeds | src/parser/parser.ts:78-141 | when the scan of `n` lines succeeds, the scan of every shorter prefix succeeds |
| BuildInvariant.ScanToStep | src/parser/parser.ts:78-141 | when the scan of `n` lines succeeds, every line below `n` is stepped through: the scan up to that line succeeds and one step on the line gives the scan one line further |
| BuildInvariant.ScanComment | src/parser/parser.ts:80-88 | the block-comment flag the scan carries into line `k` is the flag the first `k` lines of the document give, a function of the text alone |
| BuildInvariant.ScanToKeeps | src/parser/parser.ts:78-141 | a longer scan keeps, in order and at the same positions, every label, hotkey, block, reference and document variable an earlier scan listed |
| BuildInvariant.ScanHasLabel | src/parser/parser.ts:78-113 | the label of every line below `k` that is outside a comment block and declares no method is among the labels of the scan of `k` lines |
| BuildInvariant.ScanHasHotkey | src/parser/parser.ts:78-118 | likewise for the hotkey of such a line that yields no label |
| BuildInvariant.BuildScriptScans | src/parser/parser.ts:59-150 | a fresh build succeeds only by scanning exactly the lines below the parse limit, and stores that scan's script |
| BuildInvariant.BuildScriptHasLabel | src/parser/parser.ts:59-150 | in a freshly built script, every line below the parse limit that is outside a comment block and declares no method contributes its label |
| BuildInvariant.BuildScriptHasHotkey | src/parser/parser.ts:59-150 | in a freshly built script, every such line that yields no label contributes its hotkey |
| BuildInvariant.ScanHasBlock | src/parser/parser.ts:78-123 | likewise for the `;;` block of such a line that yields neither label nor hotkey |
| BuildInvariant.ScanAddsMethod | src/parser/parser.ts:89-101 | the scan through a declaration line holds its method and the reference recording its name, line and column |
| BuildInvariant.ScanHasMethod | src/parser/parser.ts:78-105 | the method every line below `k` outside a comment block declares is among the methods of the scan of `k` lines (later lines fill in at most its end line and variables), and its declaration reference is among the references |
| BuildInvariant.BuildScriptHasMethod | src/parser/parser.ts:59-150 | in a freshly built script, every line below the parse limit outside a comment block contributes the method it declares and that method's declaration reference |
| BuildInvariant.BuildScriptHasBlock | src/parser/parser.ts:59-150 | in a freshly built script, every line below the parse limit that is read and yields neither label nor hotkey contributes its block |
| SymbolIndex.AllMethods | src/parser/parser.ts:174-183 | every method of every cached document is listed and nothing else is |
| SymbolIndex.AllMethodsAfterPut | src/parser/parser.ts:176-180 | caching a new document appends its methods after all earlier ones, which keep their order |
| SymbolIndex.GetMethodByName | src/parser/parser.ts:154-172 | fails exactly for an uncached document; a match in the document is the first one there; otherwise the first method with the name across cached documents in cache order; None exactly when no cached method has it |
| SymbolIndex.GetLabelByName | src/parser/parser.ts:200-218 | the same search for labels: first in the document, else first across cached documents in cache order, None exactly when no cached label has the name |
| SymbolIndex.GetHotkeyByName | src/parser/parser.ts:185-198 | fails exactly for an uncached document; otherwise the first hotkey of that document whose name, lower-cased and without `:options:`, equals the lower-cased name, and None exactly when there is none |
| SymbolIndex.GetAllRefByName | src/parser/parser.ts:221-233 | a reference is returned exactly when some cached document holds it and its name matches, ignoring case |
| SymbolIndex.GetAllRefByNamePerDocument | src/parser/parser.ts:221-233 | the result is, for each cached path in insertion order, that document's matching references in their own order, with their multiplicity |
| SymbolIndex.FilterMultiplicity | src/parser/parser.ts:225-229 | the name filter keeps each matching reference exactly as often as it occurs and drops every other one |
| SymbolIndex.GetAllRefByNameAfterPut | src/parser/parser.ts:221-233 | after a new document is cached, the earlier matches come first, unchanged, followed by the new document's matches |
| SymbolIndex.AllRefsAfterPut | src/parser/parser.ts:221-231 | caching a new document appends its references after all earlier ones, which keep their order |

## Left out

- `buildByPath` is left out. It is a file-system walk and file I/O.
- `async`/`Promise` wrappers are left out. The model is synchronous.
- The configuration read is a parameter (`configured`). Logging is left out.
- vscode document types are left out. A document is its path, its URI text and its lines.
- `CodeUtil.purify`, `CodeUtil.join` and `Method.pushVariable` are left out. They are not part of this model and are passed in as `Host` functions. Properties that need the merges to append require `Appending` of them.
- `CodeUtil.matchAll` is assumed to be the standard global-match iteration.
- A `Method` returned by a recursive method detection and merged into a reference list becomes a `Ref` with the method's name, line and column. The source merges the object itself.
- `Variable.method` and the document object inside each entity are left out. The document is kept as its path.
- Character offsets use UTF-16 code units in the source and `char` indices here. The `一-龥` range is modelled as a range of `char`.
- `toLowerCase` is modelled for ASCII letters only.
- MethodDetector.DetectMethod: the contract does not prove that `indexOf` gives the column of the matched occurrence. The model computes the same `indexOf` as the source.
- VariableDetector.DetectVariables: the contract does not state the `character` offsets of command-style variables. They are computed with `indexOf` as in the source.
- VariableDetector.WordsFrom: the lemmas about it say which matches are listed, not that they are listed in order of position. The recursion scans left to right as the source does.
- Builder.Step: the ordering and the "only this line's items" guarantees are proved separately (`ScanInvariant.StepGrows`), not as `Step`'s own contract.
- Builder.StepCalls: the references a call adds are stated as the result of the reference merge `CodeUtil.join`. That code is not part of this model and may drop a reference already listed, so no lemma says a call reference is in the finished script.
- Builder.StepOrdinary: the variables a line adds are stated as the result of `joinVars` or `Method.pushVariable` at that step. `joinVars` skips names already listed, `Method.pushVariable` is not part of this model, and the target list depends on the depth, so no lemma says where a variable ends up in the finished script.
- The parse limit (`maximumParseLength` and the configured value) is taken to be an integer. A JavaScript number such as 2.5 (which scans 3 lines) or NaN (which scans every line) is not modelled.
- The second loop of `getMethodByName` and `getLabelByName` also visits the current document again. The model searches all cached documents in cache order, as the source does.
