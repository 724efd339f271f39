# reXt, modelled in Dafny

reXt is a VS Code extension. It sends the lines visible in the editor to a chat model. It turns the streamed reply into one of two things:

- grey inline annotations at the end of lines (`reXt.annotate`);
- a table of errors in a side panel (`reXt.showCodeReview`).

This project models the logic of the extension that does not depend on the host. Each part is proved against its own specification.

- `Text` covers the JavaScript string built-ins the code relies on:
  - `lastIndexOf`, `split`, `trim`, `substring(0, n)`, `join('')`;
  - the decimal rendering of integers in template literals.
- `JsValues` covers the values `JSON.parse` produces and the coercions the code applies to them:
  - property access, with `undefined` as `None`;
  - truthiness;
  - `String(v)`, for template literals;
  - `Number(v)`, for `line - 1`.

  `JSON.parse` itself is a parameter, `decode`. Every text the code hands it either ends in `}` or starts, after whitespace, with `{`. The only JSON value such a text can hold is an object, so `decode` yields objects.
- `VisibleCode` is `getVisibleCodeWithLineNumbers`. It is a loop over the viewport `[start, end)` of a document given as its lines. A `None` result stands for the exception `lineAt` throws past the last line.
- `Decorations` covers `applyDecoration` and `clearAllDecorations`.
  - `Apply` describes one call as a value: no suggestion string, a line out of range, or placed.
  - The class `Registry` holds the host's decoration types, indexed by handle. Each type records where it was attached and how often it was disposed.
  - `Registry.active` is the global `activeDecorations` array.
  - The order of effects follows the code:
    1. `substring` throws first when the suggestion is not a string.
    2. The decoration type is created.
    3. `lineAt(line - 1)` throws when the line does not exist. The type created just before is then never tracked and never disposed. The model keeps such a type in `created` with no placement.
- `AnnotationParser` is `parseChatResponse`.
  - `CheckBuffer` is one check of the buffer after a fragment is appended. `Stream` is the whole fragment loop as a function. The method `ParseChatResponse` is proved to create and track exactly what `Stream` predicts.
  - The candidate record always runs from the start of the buffer to its last `}`. So when one check sees two complete records, say `{...}{...}`, the candidate spans both and does not decode. From then on the buffer is never cut again (`StuckAfterUndecodable`). The intended behaviour was one annotation per complete record. The code does not do that, and the model follows the code.
- `ErrorCollector` is the collection loop of `reXt.showCodeReview`.
  - After every fragment, the whole reply so far is re-split into lines.
  - Records are kept when their `line`, `column` and `message` are all truthy.
  - Records are deduplicated by the key `line:column:message`.
  - The key is modelled as written. When line and column are integers and message is a string, two records get the same key exactly when those three fields agree (`KeyInjective`). The key does not tell the number 3 from the string "3" in any of the three fields; `KeyCollision` shows it for `line`. A ':' inside a string field also moves the boundaries: line "1:2" with column 3 gives the same key as line 1 with column "2:3". Records that differ only in other fields always share a key, and the first one is kept.
- `ReviewPanel` covers the rows of the error table and their place inside `<tbody>`.
  - `ReadRows` reads the rows back into their cells.
  - Cells are inserted unescaped. A `<` in a message therefore becomes markup (`MarkupInMessage`).
- `Commands` covers the two command handlers, reduced to their use of the parts above. Each one clears the tracked decorations first.

Integers are unbounded and strings are sequences of characters. Every loop of the source is a `while` or `for` loop with its invariants. The global `activeDecorations` array is a field of `Registry`.

## Model

| member | source | states |
|---|---|---|
| Text.Concat | src/reviewPanel.ts:18 | definition of `join('')`, and of a run of `+=` onto an empty string: the strings one after another, in order |
| Text.LastIndexOf | src/extension.ts:181 | -1 exactly when the buffer holds no '}'; otherwise a position holding '}' with no '}' after it |
| Text.LastIndexOfIsLast | src/extension.ts:181 | every '}' of the buffer lies at or before `lastIndexOf('}')` |
| Text.Split | src/extension.ts:107 | `split('\n')` gives at least one piece, no piece holds '\n', and joining the pieces with '\n' gives the text back |
| Text.SplitJoin | src/extension.ts:107 | pieces free of '\n', joined with '\n' and split again, come back unchanged |
| Text.SplitTerminated | src/extension.ts:107 | lines free of '\n', each followed by '\n', split back into those lines and one empty rest |
| Text.Join | src/extension.ts:114 | definition of `join(',')`, which `String` applies to an array: the parts with one ',' between neighbours, "" for no parts |
| Text.IsWhitespace | src/extension.ts:110 | definition of the characters `trim()` removes: the ECMAScript WhiteSpace and LineTerminator characters, tab, line tabulation, form feed, space, no-break space, the byte order mark, the Unicode space separators, line feed, carriage return and the line and paragraph separators |
| Text.TrimStart | src/extension.ts:110 | drops exactly the leading whitespace: the result is a suffix, everything dropped is whitespace, and the result does not start with whitespace |
| Text.TrimEnd | src/extension.ts:110 | drops exactly the trailing whitespace, in the same sense |
| Text.Trim | src/extension.ts:110 | `trim()` is no longer than the text, and when non-empty it starts and ends with a character that is not whitespace |
| Text.TrimBlank | src/extension.ts:110 | `trim()` gives the empty string exactly when every character of the text is whitespace |
| Text.TrimStartsWith | src/extension.ts:110 | `line.trim().startsWith('{')` holds exactly when the first non-whitespace character of the line is '{' |
| Text.NatToString | src/extension.ts:161 | the rendering of a line number is a non-empty run of digits with no leading zero |
| Text.DigitsValueOfNatToString | src/extension.ts:161 | the rendered digits read back as the number |
| Text.NatToStringInjective | src/extension.ts:161 | different line numbers render differently |
| Text.IntToString | src/extension.ts:114 | an integer renders as an optional '-' followed by digits |
| Text.IntToStringInjective | src/extension.ts:114 | different integers render differently |
| Text.Prefix | src/extension.ts:201 | `substring(0, n)` is a prefix of the text whose length is the smaller of n and the text's length |
| JsValues.Get | src/extension.ts:186 | definition of `o.name`: the value of the key when the object has it, and `undefined` (`None`) otherwise |
| JsValues.StringToNumber | src/extension.ts:207 | `Number(s)` of a blank string is 0, and a digit string is never negative |
| JsValues.ToNumber | src/extension.ts:207 | definition of `Number(v)` for `line - 1`: `undefined` is NaN, `null` is 0, booleans are 0 or 1, numbers are themselves, strings go through `StringToNumber`, arrays and objects through their string form |
| JsValues.NumStringHasNoColon | src/extension.ts:114 | the rendering of an integer line or column holds no ':' |
| JsValues.NumberOfNatString | src/extension.ts:207 | `Number` of a rendered natural is that natural |
| JsValues.Truthy | src/extension.ts:112 | a property value is truthy exactly when it is none of the falsy values: missing, `null`, `false`, `0` and the empty string |
| JsValues.ToJsString | src/extension.ts:114 | definition of `String(v)` as a template literal renders it: `null`, `true`/`false`, decimal integers, strings verbatim, arrays joined with ',', objects as "[object Object]" |
| JsValues.Interpolate | src/extension.ts:114 | definition of `${v}`: a missing property renders as "undefined", any other value as `ToJsString` |
| VisibleCode.GetVisibleCodeWithLineNumbers | src/extension.ts:148-166 | throws exactly when some line of a non-empty viewport is past the document; otherwise returns the concatenation, in ascending order, of one `n+1: text \n` entry per viewport line, which is empty when start >= end |
| VisibleCode.Entry | src/extension.ts:161 | definition of one entry: the 1-based line number, ": ", the line's text, then " \n" |
| VisibleCode.Entries | src/extension.ts:153-165 | one entry per viewport line, the k-th for line start + k, and none when start >= end |
| VisibleCode.NumberedLines | src/extension.ts:161 | one numbered line per viewport line, the k-th numbered start + k + 1 and holding that line's text |
| VisibleCode.EntryShape | src/extension.ts:161 | an entry is its numbered line followed by a single '\n' |
| VisibleCode.ExcerptLines | src/extension.ts:153-165 | read back at its '\n's, the excerpt is exactly one numbered line per viewport line, in order, and then the empty rest; there are `end - start` of them, none when start >= end |
| Decorations.ContentText | src/extension.ts:201 | the label is ' ', the first min(25, length) suggestion characters, then "..."; "..." is always appended |
| Decorations.TargetLine | src/extension.ts:207 | `lineAt(line - 1)` succeeds exactly when `Number(line)` is an integer from 1 to the line count, and then reads the line with index `Number(line) - 1` |
| Decorations.Apply | src/extension.ts:198-218 | fails at `substring` exactly when the suggestion is not a string; when placed, the range is zero-width at (line-1, length of that line), the hover is the full suggestion and the label is `ContentText` of it; fails at `lineAt` exactly when `line - 1` is NaN or out of range |
| Decorations.StringLineSameTarget | src/extension.ts:207 | a line given as the string "n" addresses the same document line as the number n |
| Decorations.CreatedBy | src/extension.ts:198-218 | definition of the types one `applyDecoration` call leaves with the host: none when `substring` throws, one unplaced type when `lineAt` throws, one placed type otherwise |
| Decorations.Cleared | src/extension.ts:220-225 | definition of the host's types after `clearAllDecorations`: every tracked handle disposed once more, everything else as it was |
| Decorations.Registry.constructor | src/extension.ts:21 | no decoration types and no tracked handles |
| Decorations.Registry.ApplyDecoration | src/extension.ts:198-218 | creates exactly the types `Apply` says, tracks nothing, and returns a fresh handle exactly when the decoration was placed |
| Decorations.Registry.Track | src/extension.ts:187 | pushes one live, untracked handle onto `activeDecorations` and changes nothing else |
| Decorations.Registry.ClearAllDecorations | src/extension.ts:220-225 | disposes every tracked handle exactly once and no other, leaving every other field of every type as it was (the types become `Cleared` of the old state), and leaves `activeDecorations` empty, so a second call disposes nothing; no handle is ever disposed twice |
| AnnotationParser.Candidate | src/extension.ts:181-183 | `potentialJson` exists exactly when the buffer holds a '}'; it is then the prefix of the buffer through its last '}', and no '}' follows it |
| AnnotationParser.CheckBuffer | src/extension.ts:181-194 | `applyDecoration` is called exactly when the candidate decodes, and then with the `line` and `suggestion` of the annotation the candidate decodes to; the buffer is what was cut off followed by what remains; something is cut exactly when the decoration was placed, and it is then the whole candidate, a decodable text ending in '}', and the rest holds no '}'; with no '}' nothing happens |
| AnnotationParser.Stream | src/extension.ts:177-195 | every fragment ends up, in arrival order, in a record that was cut off or in the remaining buffer; every record cut off decodes and ends with '}'; the decorations placed are, in order, the results of applying the annotations the cut-off records decode to |
| AnnotationParser.CheckAndApply | src/extension.ts:178-194 | leaves the buffer `CheckBuffer` predicts; creates the types of the `applyDecoration` call it made, and tracks one new handle exactly when it was placed |
| AnnotationParser.ApplyCandidate | src/extension.ts:185-190 | applies a decoded candidate: creates the types `Apply` says, tracks the new handle and cuts the buffer after the candidate exactly when it was placed, and otherwise keeps the buffer |
| AnnotationParser.NextPass | src/extension.ts:177-190 | one more fragment keeps the account: the texts cut off, followed by the buffer, are everything received, and every text cut off is a record |
| AnnotationParser.NextApplied | src/extension.ts:185-190 | one more check keeps the placed decorations in step, in order, with the records cut off |
| AnnotationParser.NewTypes | src/extension.ts:186 | definition of the types a run of `applyDecoration` calls leaves with the host: each call's `CreatedBy`, in call order |
| AnnotationParser.PlacedHandles | src/extension.ts:186-187 | definition of the handles a run of calls pushes onto `activeDecorations`: the handle of each placed call, in call order, numbered from `base` by the types created before it |
| AnnotationParser.ParseChatResponse | src/extension.ts:169-196 | creates exactly the types, and tracks exactly the handles, that the calls predicted by `Stream` produce, one handle per placed annotation in order, with the previously tracked handles untouched |
| AnnotationParser.EffectsStep | src/extension.ts:186-190 | one more check keeps the created types and the tracked handles in step with the outcomes |
| AnnotationParser.StuckAfterUndecodable | src/extension.ts:181-185 | once the buffer starts with a `}`-terminated text no extension of which decodes, such as two records back to back, no later fragment cuts the buffer or calls `applyDecoration` |
| AnnotationParser.CheckStuck | src/extension.ts:181-185 | a check whose candidate starts with such a text changes nothing |
| AnnotationParser.StreamAppend | src/extension.ts:177-195 | the loop over a reply split in two is the loop over the second part continued from the buffer the first part left, with the cut records and the calls of both parts in order |
| AnnotationParser.StuckFromStart | src/extension.ts:177-195 | once a reply has left such a never-decoding text at the front of the buffer, the rest of the reply only lengthens the buffer: no record is cut and no decoration applied |
| AnnotationParser.OneRecordAnySplit | src/extension.ts:177-190 | one record whose only '}' is its last character, if it is placed, yields exactly one annotation and an empty buffer, however it is split into fragments |
| AnnotationParser.PrefixRuns | src/extension.ts:177-190 | before its '}' arrives such a record only accumulates; afterwards it has been cut off and applied |
| ErrorCollector.Record | src/extension.ts:110-112 | a line yields a record exactly when its first character that is not whitespace is '{', it decodes, and none of `line`, `column` and `message` is missing, `null`, `false`, `0` or empty; the record is then what the line decodes to |
| ErrorCollector.Key | src/extension.ts:114 | definition of the key: the renderings of `line`, `column` and `message` joined by ':' |
| ErrorCollector.Consistent | src/extension.ts:115-118 | definition of the collector's invariant: `errorSet` holds exactly the keys of `errors`, and no two errors share a key |
| ErrorCollector.ScanLine | src/extension.ts:109-121 | definition of the body of the inner loop: a line's record is appended, and its key added, unless the line has no record or its key is known |
| ErrorCollector.LineRecordsFromLines | src/extension.ts:109-112 | every record among the lines is the record of one of the lines |
| ErrorCollector.ScanLines | src/extension.ts:108-122 | the key set grows by exactly the keys of the accepted lines; the errors already collected stay in front, in order; the errors added are records of the lines, in line order (a subsequence of the lines' records); consistency is kept |
| ErrorCollector.AddedFromLines | src/extension.ts:108-122 | every error one pass adds is the record of some line of the text scanned |
| ErrorCollector.Collect | src/extension.ts:104-123 | definition of the collector's state after each fragment: the state after the previous fragments, re-scanned with every line of the whole text received so far |
| ErrorCollector.ScanLineKeepsConsistent | src/extension.ts:115-118 | one line keeps `errorSet` equal to the keys of `errors`, with no key twice |
| ErrorCollector.AddKeepsConsistent | src/extension.ts:116-117 | pushing an error with a new key and adding that key keeps consistency |
| ErrorCollector.CollectErrors | src/extension.ts:101-123 | the nested loops compute `Collect`, and the result is consistent |
| ErrorCollector.CollectLines | src/extension.ts:108-122 | one pass over the lines of the text so far computes `ScanLines` |
| ErrorCollector.CollectLine | src/extension.ts:109-121 | the `try` block for one line computes `ScanLine`: the record is pushed, and its key added, exactly when the line yields a record whose key is not yet known |
| ErrorCollector.CollectConsistent | src/extension.ts:104-118 | after every fragment `errorSet` is exactly the keys of `errors` and no two errors share a key |
| ErrorCollector.CollectGrows | src/extension.ts:104-118 | errors are never removed or reordered: the errors after a prefix of the reply lead the final errors |
| ErrorCollector.ScanKnownLines | src/extension.ts:115 | lines whose keys are all known add nothing |
| ErrorCollector.RescanAddsNothing | src/extension.ts:107-118 | scanning the same lines again adds nothing |
| ErrorCollector.KeyInjective | src/extension.ts:114 | with integer line and column and a string message, two errors have the same key exactly when those three fields agree |
| ErrorCollector.KeyCollision | src/extension.ts:114-115 | line 3 and line "3" give the same key, so the second of two such different records is dropped |
| ReviewPanel.Cells | src/reviewPanel.ts:13-17 | definition of the three cells of a row: the renderings of `line`, `column` and `message`, in that order |
| ReviewPanel.Row | src/reviewPanel.ts:13-17 | definition of one `<tr>` holding the three cells, each in its `<td>` |
| ReviewPanel.Rows | src/reviewPanel.ts:12-17 | definition of `errors.map(...)`: one `Row` per error, in list order |
| ReviewPanel.ErrorRows | src/reviewPanel.ts:12-18 | the joined rows are empty exactly when the error list is |
| ReviewPanel.TableBody | src/reviewPanel.ts:42-44 | the joined rows appear verbatim between `<tbody>` and `</tbody>` with only layout whitespace around them |
| ReviewPanel.PaddedRowsTrim | src/reviewPanel.ts:42-44 | the layout whitespace around the rows is all that surrounds them |
| ReviewPanel.RowsAreTags | src/reviewPanel.ts:13-17 | non-empty rows start with '<' and end with '>' |
| ReviewPanel.RowsReadBack | src/reviewPanel.ts:12-18 | when no cell holds '<', the rows read back as exactly one row per error, in list order, each with the three cells line, column and message, the message verbatim |
| ReviewPanel.ReadRow | src/reviewPanel.ts:13-17 | one row reads back as its three cells, followed by whatever comes after it |
| ReviewPanel.MarkupInMessage | src/reviewPanel.ts:16 | the message "<b>" is inserted as markup, and its row no longer reads back |
| Commands.Annotate | src/extension.ts:34-68 | every decoration tracked before is disposed once, the host's types become `Cleared` of the old ones followed by exactly the types the predicted `applyDecoration` calls created, and afterwards exactly the handles this pass placed are tracked; none are created or tracked when the viewport cannot be read or no model is available |
| Commands.ShowCodeReview | src/extension.ts:71-126 | every tracked decoration is disposed once and no longer tracked (the types become `Cleared` of the old ones); the panel shows `TableBody` of the errors `Collect` gathers from the whole reply, and no panel opens when the viewport cannot be read or no model is available |

## Left out

- Host calls are not modelled. These are `selectChatModels`, `sendRequest`, `createWebviewPanel`, `webview.html`, `console.log` and command registration (`activate`, `deactivate`). Model availability and the reply fragments are parameters of `Commands`. The reply does not depend on the prompt or excerpt in the model.
- `setDecorations` targets `vscode.window.activeTextEditor`, which may not be the editor passed to the command. The model records the placement on the document it was given, and no attachment is lost when there is no active editor.
- `createTextEditorDecorationType` and `dispose` are reduced to a growing list of types with a dispose count.
- `JSON.parse` is the parameter `decode`; its RFC 8259 grammar is not modelled.
- `for await` over the reply is a finite sequence of fragments. Nothing models cancellation, or several command passes running at once and interleaving their updates of `activeDecorations`.
- `lastResponse` is never assigned, so `lastResponse?.dispose()` does nothing; it is left out. The `diagnostics` collection is unused.
- The prompt strings, the panel's HTML outside `<tbody>`, and its CSS are left out.
- The document is one fixed list of lines for a whole command. The code reads the live document at each `lineAt`, so an edit made while the reply streams in can change which line an annotation lands on, or whether it lands at all. The model does not capture edits during a pass.
- `visibleRanges[0]` is reduced to two line numbers. A missing visible range, which throws, is not modelled.
- JSON numbers are integers. Fractions, exponents, `-0`, and the exponent rendering of `String` for numbers of 1e21 and above are not modelled.
- JsValues.StringToNumber: reads only blank strings and plain digit strings. Any other string is treated as NaN, including strings with a sign, a decimal point, an exponent, a hex prefix or `Infinity`. So a line such as "+3" or "2.0" counts as out of range, where JavaScript would read line 3 or 2.
- JsValues.ToJsString: a plain object renders as "[object Object]". An object whose own `toString` or `valueOf` key overrides conversion is not modelled, and neither is the exception that makes the template throw.
- Decorations.ContentText: counts characters where `substring` counts UTF-16 code units; the two agree outside the astral planes. The line length in the range has the same limitation.
- ReviewPanel.TableBody: covers the `<tbody>` element of the panel's HTML, not the whole document around it.
