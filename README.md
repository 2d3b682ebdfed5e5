# cloud-spreadsheet in Dafny

A Dafny model of the logic inside the browser spreadsheet *cloud-spreadsheet*, with proofs
about that model. It covers four pieces:

- **The formula evaluator** (`hooks/use-cell/use-cell.ts`). A cell whose text starts with
  `=` is a formula. The evaluator cuts it at `+`, then `-`, `*` and `/`, skipping operators
  nested in parentheses, and folds the resulting chunks with JavaScript number arithmetic.
  The model lives in three modules:
  - `Splitter`: the splitting loop, as a method proved against a function.
  - `Formula`: the four mutually recursive tiers, `isFormula`, `parseFormula` and `useCell`.
  - `JsNumber`: the numbers involved, that is NaN, the infinities, `undefined`, ToNumber
    (section 7.1.4 of ECMA-262) and `String(x)`.
- **The grid reducer and the CSV export** (`hooks/use-sheet/use-sheet.ts`), in `Sheet`:
  - The cells are heap objects (`class Cell`) held in a ragged grid with holes.
  - `update_cell` copies the row and clones the cell before it writes, and is proved not to
    touch any object that already existed.
  - `formatToCSV` is the nested loop, proved equal to a function. In `CsvFormat`, that
    function is shown to have the right shape, to read back cell by cell and to see only
    its window.
- **The sync protocol** (`hooks/use-sync/use-sync.ts`), in `Sync`:
  - The status reducer and the state invariant it keeps.
  - The guards that accept a server answer.
  - The exponential backoff and `retryCall`.
  - How `save` (and the identical `getStatus`) feeds its failures into the retry. The server
    is a script of answers, one per request.
- **Column headers** (`components/sheet/sheet.tsx`), in `ColumnLabel`: `getColumnIdentifier`
  (A … Z, A1 … Z1, …) and the decoding that inverts it.

Supporting modules:
- `Wrappers`: `Option`.
- `Decimal`: numerals.
- `Text`: join, split and count.
- `Grid`: the grid as values.
- `Nesting`: parenthesis depth of joined texts.
- `Grammar`: a reference reading of the intended formulas, as an expression tree with its
  value. It is proved to agree with the evaluator on every printed tree.
- `FactorRouting`: the evaluator's factor routing on concrete formulas.

Two evaluators are modelled side by side. `Formula.Routing` selects the code as written
(`AsWritten`) or the corrected one (`Intended`); see "Findings".

What the code does, and the model with it:
- The code has no cell references, no cycle guard and no typed `MalformedExpression` error.
  Malformed text evaluates to NaN.
- A parenthesised group is unwrapped at the product tier and never checked for its closing
  `)`. A top-level `/` is not divided.
- A leading `-` subtracts from the empty product 1. A leading `+` gives NaN, not the identity
  of its tier, because `parseMinusExpression("")` is `undefined`.

## Model

| member | source | states |
|---|---|---|
| Splitter.SplitChunks | hooks/use-cell/use-cell.ts:37-41 | there are no chunks exactly when the expression is empty, and no chunk is longer than the expression |
| Splitter.Split | hooks/use-cell/use-cell.ts:14-42 | the loop, with its `braces` counter and its current chunk, returns exactly the chunks of `SplitChunks` |
| Splitter.SplitRebuilds | hooks/use-cell/use-cell.ts:20-40 | joining the chunks with the operator rebuilds the input, except for a trailing operator at depth 0, whose empty chunk is dropped |
| Splitter.SplitChunksAreTopLevel | hooks/use-cell/use-cell.ts:23-34 | no chunk holds the operator at depth 0, and every chunk but the last closes its parentheses |
| Splitter.SplitCount | hooks/use-cell/use-cell.ts:23-39 | the number of chunks is the number of depth-0 operators, plus one when the final chunk is not empty |
| Splitter.SplittingUnique | hooks/use-cell/use-cell.ts:14-42 | any splitting with these properties is the one the scan produces |
| Splitter.SplitLeadingOperator | hooks/use-cell/use-cell.ts:29-39 | a leading operator gives a leading empty chunk, e.g. `-5` splits into `""` and `5` |
| Splitter.SplitTrailingOperator | hooks/use-cell/use-cell.ts:37-39 | an operator after a complete, non-empty text adds no chunk |
| Splitter.SplitChunksFree | hooks/use-cell/use-cell.ts:20-39 | text without the operator is one chunk |
| Splitter.SplitOfJoin | hooks/use-cell/use-cell.ts:14-42 | well-nested pieces without a depth-0 operator, joined with it, split back into exactly those pieces |
| Formula.Apply | hooks/use-cell/use-cell.ts:50-52 | every tier's operation gives a number, and NaN when an operand is `undefined` |
| Formula.Fold | hooks/use-cell/use-cell.ts:62-64 | `reduce` over no values gives its start value, and over some values gives a number |
| Formula.FoldSnoc | hooks/use-cell/use-cell.ts:93-96 | the folds group to the left: one more value applies the operator to the fold so far |
| Formula.FoldNaN | hooks/use-cell/use-cell.ts:62-64 | once the running value is NaN it stays NaN |
| Formula.Unwrap | hooks/use-cell/use-cell.ts:71 | `substr(1, length - 2)` drops the first and last code point whatever they are, so every recursive entry sees a strictly shorter text |
| Formula.Plus | hooks/use-cell/use-cell.ts:44-55 | the sum tier always gives a number, and 0 for the empty text |
| Formula.Minus | hooks/use-cell/use-cell.ts:56-66 | the difference tier gives `undefined` exactly for the empty text |
| Formula.Mult | hooks/use-cell/use-cell.ts:67-82 | the product tier always gives a number, and 1 for the empty text |
| Formula.Div | hooks/use-cell/use-cell.ts:83-98 | the quotient tier gives `undefined` exactly for the empty text |
| Formula.DivOperand | hooks/use-cell/use-cell.ts:85-92 | a quotient operand always has a number value, a group re-entering the sum tier |
| Formula.Factor | hooks/use-cell/use-cell.ts:69-75 | a product operand is `undefined` exactly when, as written, it is `(` or a two-character text starting with `(`, so that its unwrapped inside is empty, or, corrected, when it is empty |
| Formula.MultOfNumeral | hooks/use-cell/use-cell.ts:67-82 | a numeral as a product is its value, under either routing |
| Formula.TokenCoercedWhole | hooks/use-cell/use-cell.ts:69-75 | as written, text with no `+`, `-` or `*` that does not open a group is coerced whole by ToNumber |
| Formula.TopLevelDivisionIsNaN | hooks/use-cell/use-cell.ts:69-75 | as written, `8/2` outside parentheses is one token, and its value is NaN |
| Formula.UnaryMinusAsWritten | hooks/use-cell/use-cell.ts:56-66 | as written, `-n` evaluates to `1 - n` |
| Formula.UnaryMinusIntended | hooks/use-cell/use-cell.ts:56-66 | corrected, `-n` evaluates to `-n` |
| Formula.NegatedFormula | hooks/use-cell/use-cell.ts:100-104 | the cell `=-5` shows "-4" as written and "-5" corrected |
| Formula.LeadingPlusIsNaN | hooks/use-cell/use-cell.ts:44-66 | a leading `+` makes the whole sum NaN |
| Formula.TrailingPlusIgnored | hooks/use-cell/use-cell.ts:37-55 | a trailing `+` after a complete term is ignored: `2+` evaluates as `2` |
| Formula.IsFormula | hooks/use-cell/use-cell.ts:8-10 | a value is a formula exactly when it starts with `=` |
| Formula.ParseFormula | hooks/use-cell/use-cell.ts:100-104 | a NaN sum shows "NaN", an infinite one "Infinity", and `=` alone shows "0" |
| Formula.AfterSign | hooks/use-cell/use-cell.ts:101 | `value.slice(1)` is the text after the first character |
| Formula.FormulaReadsBack | hooks/use-cell/use-cell.ts:100-104 | when the value is printed exactly, the shown result reads back as the number computed |
| Formula.UseCell | hooks/use-cell/use-cell.ts:106-121 | `value` is the cell's text, or "" for a missing cell; `result` is the formula's printed value for a formula and the text itself otherwise |
| Grid.CellText | hooks/use-cell/use-cell.ts:108 | the text of a present cell, and "" for a hole or a row out of range |
| JsNumber.Add | hooks/use-cell/use-cell.ts:51 | NaN propagates, and opposite infinities add to NaN |
| JsNumber.Sub | hooks/use-cell/use-cell.ts:64 | NaN propagates, equal infinities subtract to NaN, and finite operands subtract as reals |
| JsNumber.Div | hooks/use-cell/use-cell.ts:96 | NaN propagates; a finite number over 0 is the infinity of its sign, or NaN for 0/0; over a non-zero number it is the real quotient, and over an infinity it is 0 |
| JsNumber.NumberToString | hooks/use-cell/use-cell.ts:103 | `String` shows NaN as "NaN" and positive infinity as "Infinity"; an exactly printed finite number is non-empty and starts with `-` exactly when it is negative |
| JsNumber.Mul | hooks/use-cell/use-cell.ts:78 | NaN propagates through a product |
| JsNumber.Identities | hooks/use-cell/use-cell.ts:49-80 | 0 is the identity of `+` and 1 the identity of `*` |
| JsNumber.FiniteArithmetic | hooks/use-cell/use-cell.ts:51-96 | on finite operands the four operators are those of the reals, division by a non-zero number included |
| JsNumber.ToNumber | hooks/use-cell/use-cell.ts:74 | `+s` is 0 for "", the value of a signed decimal literal, and NaN for text that is certainly not numeric |
| JsNumber.ToNumberOfDigits | hooks/use-cell/use-cell.ts:74 | a numeral coerces to its value |
| JsNumber.ToNumberOfNaN | hooks/use-cell/use-cell.ts:91 | "NaN" coerces to NaN |
| JsNumber.ToNumberOfInfinity | hooks/use-cell/use-cell.ts:91 | "Infinity" and "-Infinity" coerce to the infinities |
| JsNumber.ToNumberOfNumberToString | hooks/use-cell/use-cell.ts:103 | reading back what `String` printed gives the number again, for NaN, the infinities and integers below 10^21 |
| Grammar.FoldFromUnit | hooks/use-cell/use-cell.ts:49-80 | folding `+` from 0 or `*` from 1 is the left-grouped combination of the values |
| Grammar.FoldFromFirst | hooks/use-cell/use-cell.ts:61-96 | folding `-` or `/` from `numbers[0]` over `numbers.slice(1)` is the left-grouped combination |
| Grammar.LevelChunks | hooks/use-cell/use-cell.ts:14-42 | printed expressions of the next level, joined with an operator, are split back into exactly themselves |
| Grammar.EvalSum | hooks/use-cell/use-cell.ts:44-55 | the sum tier gives a printed sum tree its arithmetic value |
| Grammar.EvalDiff | hooks/use-cell/use-cell.ts:56-66 | the difference tier gives a printed difference tree its value, `a-b-c` being `(a-b)-c` |
| Grammar.EvalProd | hooks/use-cell/use-cell.ts:67-82 | the product tier gives a printed product tree its value |
| Grammar.EvalFactor | hooks/use-cell/use-cell.ts:69-75 | each factor of a printed product has its value |
| Grammar.EvalQuot | hooks/use-cell/use-cell.ts:83-98 | the quotient tier gives a printed quotient tree its value, `a/b/c` being `(a/b)/c` |
| Grammar.EvalAtom | hooks/use-cell/use-cell.ts:85-92 | a numeral or a parenthesised group as a division operand has its value |
| Grammar.FormulaShowsValue | hooks/use-cell/use-cell.ts:100-104 | a printed expression entered after `=` shows `String` of its value |
| FactorRouting.SumTextIsNaN | hooks/use-cell/use-cell.ts:74 | the text `a+b` of two numerals coerces to NaN |
| FactorRouting.RatioTextIsNaN | hooks/use-cell/use-cell.ts:74 | the text `a/b` of two numerals coerces to NaN |
| FactorRouting.GroupTimesAsWritten | hooks/use-cell/use-cell.ts:69-75 | as written, `(m+n)*k` is NaN whatever the numerals |
| FactorRouting.GroupTimesIntended | hooks/use-cell/use-cell.ts:69-75 | corrected, `(m+n)*k` is (m+n)·k |
| FactorRouting.RatioAsWritten | hooks/use-cell/use-cell.ts:69-75 | as written, `m/n` is NaN |
| FactorRouting.RatioIntended | hooks/use-cell/use-cell.ts:69-75 | corrected, `m/n` is m divided by n |
| FactorRouting.GroupedFormula | hooks/use-cell/use-cell.ts:100-104 | the cell `=(2+3)*4` shows "NaN" as written and "20" corrected |
| FactorRouting.HalvingFormula | hooks/use-cell/use-cell.ts:100-104 | the cell `=8/2` shows "NaN" as written and "4" corrected |
| Sheet.Place | hooks/use-sheet/use-sheet.ts:48-50 | assigning past the end of a sparse array lengthens it with holes; index `i` holds the new element and every other index keeps its entry |
| Sheet.Snapshot | hooks/use-sheet/use-sheet.ts:40 | the grid of values the cell objects currently hold, row for row and hole for hole |
| Sheet.CloneOrCreateCell | hooks/use-sheet/use-sheet.ts:20-30 | a new object holding the value of the cell at `[row][column]`, or "" when there is none |
| Sheet.SnapshotOfPlace | hooks/use-sheet/use-sheet.ts:45-50 | storing a new cell object in a copied row and a copied grid gives the old grid with that one cell set |
| Sheet.Reduce | hooks/use-sheet/use-sheet.ts:42-56 | `update_cell` yields the old grid with `[row][column]` set to the value, held by a fresh object; every other existing cell object is kept; no existing object is modified; any other action throws |
| Sheet.SetCell | hooks/use-sheet/use-sheet.ts:45-50 | the grid grows to `r + 1` rows only when row `r` is past its end; cell `[r][c]` holds the value; every other row is as before; every other column of row `r` is as before, or a hole where the row was shorter or absent |
| Sheet.SetCellReads | hooks/use-sheet/use-sheet.ts:46-50 | after the update the cell at `[r][c]` reads back the value |
| Sheet.SetCellOtherRows | hooks/use-sheet/use-sheet.ts:45-50 | every other row is as before, and rows added by lengthening are holes |
| Sheet.SetCellOtherColumns | hooks/use-sheet/use-sheet.ts:46-48 | within row `r`, every other column reads as before |
| Sheet.SetCellNewRow | hooks/use-sheet/use-sheet.ts:46-48 | a row that was absent now holds column `c` only |
| Sheet.Fields | hooks/use-sheet/use-sheet.ts:61-66 | the row's `columns` cells in order, with an absent cell as "" |
| Sheet.Lines | hooks/use-sheet/use-sheet.ts:60-70 | one line per row of the window, each line its fields separated by `,` |
| Sheet.FormatLine | hooks/use-sheet/use-sheet.ts:61-70 | the inner loop appends exactly the row's fields separated by `,` |
| Sheet.FormatToCsv | hooks/use-sheet/use-sheet.ts:58-78 | the nested loops produce exactly the window's lines separated by `\n` |
| CsvFormat.NoRows | hooks/use-sheet/use-sheet.ts:59-77 | with no rows the text is empty |
| CsvFormat.LineShape | hooks/use-sheet/use-sheet.ts:61-70 | each line of a window free of separators has no line break and `columns - 1` commas |
| CsvFormat.LineFree | hooks/use-sheet/use-sheet.ts:61-70 | each line of a window without line breaks in its cells has none itself, also with no columns |
| CsvFormat.CsvLineBreaks | hooks/use-sheet/use-sheet.ts:59-77 | a window with at least one row and no line break in its cells saves with `rows - 1` line breaks, also with no columns |
| CsvFormat.CsvCounts | hooks/use-sheet/use-sheet.ts:59-77 | a window free of separators saves with `rows - 1` line breaks and `rows·(columns - 1)` commas |
| CsvFormat.CsvReadsBack | hooks/use-sheet/use-sheet.ts:58-78 | splitting the saved text at line breaks gives the lines in row-major order, and splitting a line at commas gives its fields |
| CsvFormat.CellReadsBack | hooks/use-sheet/use-sheet.ts:60-66 | every cell of the window is found at its line and field of the saved text |
| CsvFormat.UpdateReadsBack | hooks/use-sheet/use-sheet.ts:46-66 | a value the reducer writes inside the window is what the saved text holds at its place |
| CsvFormat.WindowOnly | hooks/use-sheet/use-sheet.ts:60-62 | grids that agree on the window save the same text |
| CsvFormat.UpdateOutsideWindow | hooks/use-sheet/use-sheet.ts:60-62 | a write outside the window leaves the saved text as it was |
| CsvFormat.CommaSplitsValue | hooks/use-sheet/use-sheet.ts:63-65 | values are written verbatim: a value holding a comma reads back as two fields, as there is no quoting as in section 2 of RFC 4180 |
| Sync.InitialState | hooks/use-sync/use-sync.ts:139-141 | the initial state is not syncing, knows no id, status or finish time, and is consistent |
| Sync.Reduce | hooks/use-sync/use-sync.ts:111-137 | the state is syncing after `sync`, or after an unknown action that found it syncing, and not otherwise; a result sets its status; DONE and `sync` leave no id or finish time; an unknown action changes nothing |
| Sync.StartClears | hooks/use-sync/use-sync.ts:113-117 | `sync` sets `isSyncing` and clears `id`, `status` and `done_at` |
| Sync.InProgressRecords | hooks/use-sync/use-sync.ts:119-126 | an IN_PROGRESS result stops syncing and records the action's id, status and finish time |
| Sync.DoneResets | hooks/use-sync/use-sync.ts:127-132 | a DONE result resets to the initial state with status DONE, dropping id and finish time |
| Sync.ResultStopsSync | hooks/use-sync/use-sync.ts:118-133 | after any result `isSyncing` is false and the status is the result's |
| Sync.UnrecognisedKeeps | hooks/use-sync/use-sync.ts:134-135 | an unrecognised action returns the state unchanged |
| Sync.ReduceIdempotent | hooks/use-sync/use-sync.ts:111-137 | dispatching an action twice has the effect of dispatching it once |
| Sync.ReduceConsistent | hooks/use-sync/use-sync.ts:111-141 | a dispatchable action keeps the state consistent: nothing known while syncing, and id and finish time present exactly when the status is IN_PROGRESS |
| Sync.RunConsistent | hooks/use-sync/use-sync.ts:111-141 | every sequence of dispatchable actions keeps the state consistent |
| Sync.RunEndsWithResult | hooks/use-sync/use-sync.ts:118-133 | after a sequence of actions ending in a result, the state is determined by that last result |
| Sync.IsDoneResult | hooks/use-sync/use-sync.ts:41-43 | a body accepted as DONE is an object whose status is a string other than IN_PROGRESS |
| Sync.IsInProgressResult | hooks/use-sync/use-sync.ts:45-52 | a body accepted as IN_PROGRESS is an object with a string id and a string finish time, and its status is not DONE |
| Sync.IsResult | hooks/use-sync/use-sync.ts:54-56 | an accepted body is an object whose status is DONE or IN_PROGRESS |
| Sync.AnswerOf | hooks/use-sync/use-sync.ts:41-56 | a body is accepted exactly when `isTResult` holds, as DONE exactly when `isIDoneResult` holds, with the id and finish time of the body |
| Sync.AnswerRoundTrip | hooks/use-sync/use-sync.ts:41-56 | every well-formed answer passes the guards and is read back as itself |
| Sync.GuardsExclusive | hooks/use-sync/use-sync.ts:41-52 | no body passes both guards |
| Sync.InProgressNeedsStrings | hooks/use-sync/use-sync.ts:45-52 | an IN_PROGRESS body without a string id or finish time is rejected |
| Sync.ResultAction | hooks/use-sync/use-sync.ts:155-168 | the `sync_result` action spread from an accepted answer has status IN_PROGRESS exactly for an IN_PROGRESS answer |
| Sync.ResultActionDispatchable | hooks/use-sync/use-sync.ts:145-173 | the actions the hook builds from accepted answers keep the state consistent |
| Sync.Pow2 | hooks/use-sync/use-sync.ts:7 | `Math.pow(2, n)` is at least 1 |
| Sync.BackoffTime | hooks/use-sync/use-sync.ts:6-8 | every wait is a whole number of seconds, at least one, and at least two for a retry |
| Sync.BackoffDoubles | hooks/use-sync/use-sync.ts:6-8 | each backoff wait is twice the one before |
| Sync.FirstBackoffs | hooks/use-sync/use-sync.ts:6-8 | the waits for retry counts 1 to 4 are 2, 4, 8 and 16 seconds |
| Sync.RetryCall | hooks/use-sync/use-sync.ts:10-23 | at most `MAX_RETRY - retryCount + 1` calls; every call but a final success fails; a value is the first success; giving up takes the whole budget; the k-th wait is `getBackoffTime(retryCount + k)` |
| Sync.RetryFromStart | hooks/use-sync/use-sync.ts:10-23 | from the first call, at most 5 calls, waits forming a prefix of 2, 4, 8 and 16 seconds, and five scripted answers always settle the call |
| Sync.SaveAsWritten | hooks/use-sync/use-sync.ts:58-73 | `save` as written uses the scripted answers in order; a rejection consumes at least one; a resolved call returns what the guards read from the last answer it consumed, which was answered ok |
| Sync.RetrySave | hooks/use-sync/use-sync.ts:72 | `retryCall(() => save(data))` uses the scripted answers in order; a rejection consumes at least one; a resolved call returns what the guards read from the last answer it consumed, which was answered ok |
| Sync.ErrorsRetriedForever | hooks/use-sync/use-sync.ts:58-73 | as written, a server that answers every request with an error is asked again at once, without end and without waiting |
| Sync.ErrorServerNeverSettles | hooks/use-sync/use-sync.ts:58-73 | for any number of error answers, `save` never settles and never waits |
| Sync.FirstRejectionNotRetried | hooks/use-sync/use-sync.ts:58-73 | as written, a first fetch that rejects leaves `save` at once, with no retry |
| Sync.AttemptOf | hooks/use-sync/use-sync.ts:64-70 | a request is a success exactly when it is answered ok with a body that passes `isTResult` |
| Sync.SaveIntended | hooks/use-sync/use-sync.ts:58-73 | corrected `save`: at most 5 requests, waits forming a prefix of 2, 4, 8 and 16 seconds, settled within 5 answers, a value being an accepted answer |
| Sync.IntendedGivesUp | hooks/use-sync/use-sync.ts:10-23 | corrected, an error server is asked 5 times with waits of 2, 4, 8 and 16 seconds, and then the call gives up |
| Sync.IntendedRetriesRejection | hooks/use-sync/use-sync.ts:12-18 | corrected, a rejected first request is retried after 2 seconds |
| ColumnLabel.EnglishAlphabet | components/sheet/sheet.tsx:27-30 | 26 letters, the one at `index` being character `index + 65` |
| ColumnLabel.ColumnIdentifier | components/sheet/sheet.tsx:32-37 | the header is non-empty and starts with the letter `'A' + column % 26` |
| ColumnLabel.SingleLetter | components/sheet/sheet.tsx:34-36 | the header is one letter exactly when the column is below 26; otherwise the letter is followed by the decimal of `column / 26` |
| ColumnLabel.RoundTrip | components/sheet/sheet.tsx:32-37 | decoding a header gives back its column |
| ColumnLabel.Injective | components/sheet/sheet.tsx:32-37 | distinct columns get distinct headers |
| ColumnLabel.DecodeSound | components/sheet/sheet.tsx:32-37 | any text that decodes to a column is that column's header |
| ColumnLabel.AfterZ | components/sheet/sheet.tsx:34-36 | columns 0, 25, 26 and 27 are headed A, Z, A1 and B1 |
| Decimal.ValueOfFromNat | components/sheet/sheet.tsx:36 | the decimal numeral of a number reads back as that number |
| Decimal.FromNatOfValue | components/sheet/sheet.tsx:36 | a numeral without a leading zero is the numeral of its value |

## Left out

- React rendering, contexts and accessor hooks, and `useSheet`'s effect wiring: these are UI
  plumbing. The effect calls `sync(formatToCSV(…))` on a change of cells, which is modelled
  only through `Sheet.FormatToCsv`.
- `fetch`, `response.json()`, `setTimeout`/`waitFor` and `Date.now` are not modelled, as they
  are I/O and clocks. A request is one scripted `Sync.Fetch`, and a wait is recorded as its
  length in milliseconds. The wait before `getStatus` in `checkStatus`, computed from
  `done_at` and the clock, is not modelled.
- `useSync`'s `sync` and `checkStatus` are asynchronous and concurrent, and are not modelled
  as such. Only the actions they dispatch are modelled (`Sync.ResultAction` and the reducer
  lemmas). Also not modelled: `sync` is a `useCallback` with no dependencies, so it reads
  `state.isSyncing` from the first render only, and its guard against overlapping syncs does
  not see later renders.
- `getStatus` (use-sync.ts:75-87) has the same structure as `save` and is modelled by the same
  `Sync.SaveAsWritten` over a script of answers.
- Server bodies are a closed datatype (`Sync.Body`), so JavaScript quirks such as
  `typeof null === "object"` are not modelled. A member that is not a string becomes `None`
  in the dispatched action.
- Formula.Unwrap: strings are sequences of Unicode code points, while JavaScript's `length`
  and `substr` count UTF-16 code units. The two agree on text of characters in the Basic
  Multilingual Plane. When a group ends in a character outside it, JavaScript keeps half of
  that character's surrogate pair, and the factor is NaN (`=(1😀` shows "NaN"). The model
  drops the whole character instead (`=(1😀` shows "1"). `Splitter.Split`, `Formula.AfterSign`,
  the CSV export and the column headers only compare characters with ASCII ones or
  concatenate them, so the difference does not reach them.
- IEEE-754 rounding and signed zero are not modelled: numbers are reals plus NaN and the
  infinities.
- JsNumber.ToNumber: text outside the decimal-literal fragment (exponents, hexadecimal,
  surrounding white space) is left to an unconstrained function of the runtime; the model says
  only what the evaluator relies on.
- JsNumber.NumberToString: the printing of non-integral and very large numbers is left to an
  unconstrained function of the runtime. Only NaN, the infinities and integers below 10^21
  are concrete.
- Sheet.Reduce: action indices are natural numbers. JavaScript would also accept negative or
  fractional indices, which become object properties rather than array elements.
- ColumnLabel.ColumnIdentifier: columns are natural numbers, because every call site passes
  `0 … columnAmount - 1`. A negative column, whose header in JavaScript starts with
  "undefined", is not modelled, and neither is the exponent form `String` uses for columns of
  26·10^21 and more.
- Formula.UseCell: the grid is passed in as a value; the React context it is read from is not
  modelled.

## Findings

| source | as written | input that shows it | evidently intended | confidence | as-written member | corrected member |
|---|---|---|---|---|---|---|
| hooks/use-cell/use-cell.ts:69-75 | a factor opening with `(` is unwrapped and sent to the division tier, so the group's own `+` is never split on | the cell `=(2+3)*4` shows "NaN" | a group is evaluated as a sum: "20" | not executed; high | FactorRouting.GroupTimesAsWritten | FactorRouting.GroupTimesIntended |
| hooks/use-cell/use-cell.ts:69-75 | a factor not opening with `(` is coerced whole, so a top-level `/` is never divided | the cell `=8/2` shows "NaN" | the factor is divided: "4" | not executed; high | FactorRouting.RatioAsWritten | FactorRouting.RatioIntended |
| hooks/use-cell/use-cell.ts:56-66 | the empty chunk before a leading `-` is the empty product 1 | the cell `=-5` shows "-4" | negation: "-5" | not executed; high | Formula.UnaryMinusAsWritten | Formula.UnaryMinusIntended |
| hooks/use-sync/use-sync.ts:58-73 | on an error status, or a body the guards reject, `save` calls `retryCall(() => save(data))`, and each nested `save` opens a fresh `retryCall` | a server that answers every request with status 500 | at most 5 requests with backoff waits of 2, 4, 8 and 16 seconds, then "Max retries reached" | not executed; medium | Sync.ErrorsRetriedForever | Sync.IntendedGivesUp |
| hooks/use-sync/use-sync.ts:58-73 | a rejection of the first `fetch` propagates out of `save` before any `retryCall` is entered | a first request that fails on the network, followed by a good answer | the rejection is retried after a 2-second wait | not executed; medium | Sync.FirstRejectionNotRetried | Sync.IntendedRetriesRejection |
