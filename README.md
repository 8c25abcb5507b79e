# numpy-unleashed: a verified model of its grid logic and AI-service helpers

numpy-unleashed is a browser course on NumPy. Most of it is React UI plus calls
to a generative-AI service. This project models the two places that hold
self-contained logic and proves what they promise.

1. **The interactive widgets** (`components/InteractiveVisualization.tsx`):
   - **Game of Life** (`GameOfLife`, `LifePatterns`). This is Conway's rule on a
     toroidal grid of 0/1 integers:
     - `Step` is the functional specification of one generation;
     - `RunSimulationStep` is the imperative step. It mirrors the source's
       nested loops and its `forEach` over the eight neighbour offsets, and
       writes into a fresh all-zero `array2` made by `GenerateEmptyGrid`.
   - **Indexing demo** (`IndexingDemo`): the 5×5 array holding `i*5+j`, and the
     hard-coded highlight table. The table is checked against independent
     definitions of what NumPy selects for `data[1:4, 1:4]`,
     `data[[0, 4], [1, 3]]`, `data[data > 18]` and `data[:, 2]`.
   - **Broadcasting demo** (`BroadcastDemo`): a row vector added to every row
     of a matrix, related to NumPy's "tile, then add element-wise" account.
2. **The AI service helpers** (`services/geminiService.ts`):
   - `JsText` models the JavaScript string built-ins involved: `trim`,
     `includes`, and the two global `replace` calls of the code explainer.
   - `GeminiService` models:
     - error classification (`handleApiError`);
     - JSON extraction from a possibly fenced reply (`parseJsonResponse`);
     - the shape check and catch path of `visualizeDataFlow`;
     - the 20-row cap of `generateChartConfig`;
     - the markdown clean-up of `explainCode`.

   Parameters stand in for the two things the service code cannot compute itself:
   - The network call is an input. It is the reply text `Ok(text)`, or the value
     it threw, `Err(thrown)`.
   - `JSON.parse` is a parameter `parse: string -> Option<Json>`. It returns
     `None` where `JSON.parse` would throw.

The source fixes the grid at `numRows = 30` by `numCols = 50`. The model takes
`rows`/`cols` as parameters, so its results hold for every size, and requires
the grid to match them. The patterns of `LifePatterns` live on 4×4 tori.

A step never writes to its input: `RunSimulationStep` has no `modifies`
clause. It returns its input itself when `rows` or `cols` is 0, as the source
returns `g`.

## Model

| member | source | states |
|---|---|---|
| GameOfLife.EmptyGrid | components/InteractiveVisualization.tsx:212-214 | the grid is `rows`×`cols`, every entry 0 |
| GameOfLife.RandomGrid | components/InteractiveVisualization.tsx:216-221 | the grid is `rows`×`cols` of 0/1, and a cell is 1 exactly when its draw exceeds 0.75 |
| GameOfLife.Wrap | components/InteractiveVisualization.tsx:253-254 | `(i + d + n) % n` is a valid index: one step left of 0 is `n-1`, one step right of `n-1` is 0, otherwise `i+d` |
| GameOfLife.NextCell | components/InteractiveVisualization.tsx:258-269 | the next value of a cell is always 0 or 1 |
| GameOfLife.Step | components/InteractiveVisualization.tsx:243-274 | one generation yields a `rows`×`cols` grid of 0/1; with no rows or no columns the grid comes back unchanged |
| GameOfLife.StepAt | components/InteractiveVisualization.tsx:248-270 | cell (i,j) of the next generation is the rule applied to the cell and its neighbour count |
| GameOfLife.NeighborCountExpanded | components/InteractiveVisualization.tsx:251-255 | the running sum over the eight offsets equals `ExpandedCount`, the sum of the eight cells at the wrapped offsets (-1..1, -1..1) other than (0,0) |
| GameOfLife.NeighborCount | components/InteractiveVisualization.tsx:250-256 | the `forEach` sum over the eight offsets; on a 0/1 grid it lies in 0..8 |
| GameOfLife.PartialCountBounds | components/InteractiveVisualization.tsx:252-256 | after k of the offsets the running count lies in 0..k |
| GameOfLife.SurvivalRule | components/InteractiveVisualization.tsx:259-264 | a live cell (value 1) is live next exactly when it has 2 or 3 live neighbours |
| GameOfLife.BirthRule | components/InteractiveVisualization.tsx:265-268 | a cell with any value but 1 is live next exactly when it has 3 live neighbours, otherwise it keeps the 0 of the fresh grid |
| GameOfLife.EmptyGridIsFixedPoint | components/InteractiveVisualization.tsx:243-274 | the all-zero grid steps to itself |
| GameOfLife.CornerWrapsToOppositeCorner | components/InteractiveVisualization.tsx:251-255 | the first neighbour of (0,0) is (rows-1, cols-1), and the last neighbour of (rows-1, cols-1) is (0,0) |
| GameOfLife.OppositeCornerIsCounted | components/InteractiveVisualization.tsx:250-256 | with a single live cell in the far corner, (0,0) counts exactly one neighbour |
| GameOfLife.GenerateEmptyGrid | components/InteractiveVisualization.tsx:212-214 | returns a fresh `rows`×`cols` array whose contents are the all-zero grid |
| GameOfLife.CountNeighbors | components/InteractiveVisualization.tsx:250-256 | the `forEach` accumulation over the eight offsets equals the specified neighbour count |
| GameOfLife.FillRow | components/InteractiveVisualization.tsx:249-270 | the inner loop sets row i of the fresh grid to the next generation of row i and leaves every other row as it was |
| GameOfLife.RunSimulationStep | components/InteractiveVisualization.tsx:243-274 | the returned array holds `Step` of the input. It is the input itself when rows or cols is 0, and otherwise a fresh array of the same shape |
| LifePatterns.StepsTo | components/InteractiveVisualization.tsx:248-270 | a grid steps to `e` when every cell of `e` is the rule applied to that cell and the sum of its eight wrapped neighbours |
| LifePatterns.BlockIsStillLife | components/InteractiveVisualization.tsx:243-274 | a 2×2 block on a 4×4 torus is unchanged by a step |
| LifePatterns.BlinkerTurnsUpright | components/InteractiveVisualization.tsx:243-274 | a horizontal blinker on a 4×4 torus becomes vertical |
| LifePatterns.BlinkerTurnsBack | components/InteractiveVisualization.tsx:243-274 | a vertical blinker becomes horizontal |
| LifePatterns.BlinkerHasPeriodTwo | components/InteractiveVisualization.tsx:243-274 | the blinker returns after two steps and differs after one |
| IndexingDemo.DemoArray | components/InteractiveVisualization.tsx:47-55 | the array is 5×5 and the value at (i,j) lies in 0..24 and names its own cell: `v / 5 == i` and `v % 5 == j` |
| IndexingDemo.BuildOriginalArray | components/InteractiveVisualization.tsx:47-55 | the nested loops leave a fresh 5×5 array holding `i*5+j` at (i,j) |
| IndexingDemo.EachValueExactlyOnce | components/InteractiveVisualization.tsx:47-55 | each value 0..24 sits at (v/5, v%5) and nowhere else |
| IndexingDemo.Code | components/InteractiveVisualization.tsx:38-43 | every entry displays an indexing of the array, `data[…]` |
| IndexingDemo.Cells | components/InteractiveVisualization.tsx:38-43 | every listed cell lies on the 5×5 array, and each list is in strictly increasing row-major order, so it has no repeats |
| IndexingDemo.TableMatchesNumPy | components/InteractiveVisualization.tsx:38-43 | each table entry is exactly the list of cells its NumPy expression selects, in NumPy's row-major order |
| IndexingDemo.BasicSliceMatches | components/InteractiveVisualization.tsx:39 | the "Basic Slice" cells are rows 1..3 × columns 1..3 in order |
| IndexingDemo.BooleanMaskMatches | components/InteractiveVisualization.tsx:41 | the "Boolean Mask" cells are the cells holding a value above 18, in order |
| IndexingDemo.IsHighlighted | components/InteractiveVisualization.tsx:70-72 | `some` over the list is true exactly when (r,c) is in the list |
| IndexingDemo.HighlightedIffSelected | components/InteractiveVisualization.tsx:38-43 | a cell is highlighted for an entry exactly when that entry's expression selects it (e.g. value > 18, or column 2) |
| IndexingDemo.HandleSelection | components/InteractiveVisualization.tsx:65-68 | after choosing an entry, the highlighted cells are exactly those its expression selects |
| IndexingDemo.FirstRender | components/InteractiveVisualization.tsx:57-58 | before the mount effect the "Basic Slice" text is shown and no cell is highlighted |
| IndexingDemo.MountEffect | components/InteractiveVisualization.tsx:60-63 | the effect keeps the text and highlights exactly the cells `data[1:4, 1:4]` selects |
| IndexingDemo.MountedViewIsBasicSlice | components/InteractiveVisualization.tsx:57-63 | after mounting, the widget shows what choosing "Basic Slice" shows, with only that button active |
| IndexingDemo.ExactlyChosenIsActive | components/InteractiveVisualization.tsx:94 | after choosing an entry, exactly that entry's button is shown active |
| BroadcastDemo.Broadcast | components/InteractiveVisualization.tsx:121 | the result has A's shape, with `result[r][c] == A[r][c] + B[c]` |
| BroadcastDemo.BroadcastIsTiledAdd | components/InteractiveVisualization.tsx:121 | broadcasting equals adding B tiled to A's shape element by element |
| BroadcastDemo.BroadcastUndone | components/InteractiveVisualization.tsx:121 | broadcasting `-B` after `B` gives back A |
| BroadcastDemo.DemoResult | components/InteractiveVisualization.tsx:119-122 | the widget's result is `[[11,22,33],[41,52,63],[71,82,93]]` |
| JsText.Trim | services/geminiService.ts:27 | `trim` never leaves white space (JavaScript's set) at either end |
| JsText.TrimSplits | services/geminiService.ts:27 | the input is white space, then its trim, then white space |
| JsText.TrimUnpads | services/geminiService.ts:27 | trimming a trimmed text padded with white space gives the text back |
| JsText.TrimIdempotent | services/geminiService.ts:31 | trimming twice is trimming once |
| JsText.Includes | services/geminiService.ts:16-19 | `includes` is true exactly when the phrase occurs at some index, the empty phrase included |
| JsText.RewriteHeadings | services/geminiService.ts:234 | the heading pass never makes the text longer: each rewritten heading line loses `"### "` and gains one `\n` |
| JsText.CopiesPrefix | services/geminiService.ts:234 | text in front of the first `"### "` is copied unchanged, and the rest is rewritten after it |
| JsText.UnendedLineCopied | services/geminiService.ts:234 | a line ending in `\r`, U+2028, U+2029 or at the end of the text is copied unchanged, any `"### "` on it included, and the rest is rewritten after it |
| JsText.HeadingLineRewritten | services/geminiService.ts:234 | `"### X\n"` with X one line becomes `"X\n\n"`, and the rest is rewritten after it |
| JsText.NoHeadingUnchanged | services/geminiService.ts:234 | text without `"### "` is left unchanged |
| JsText.ReplaceBullets | services/geminiService.ts:235 | the bullet pass keeps the length, and a character changes only from `*` to `-` |
| JsText.ReplaceBulletsPointwise | services/geminiService.ts:235 | the bullet pass keeps the length, turns the `*` of each `"* "` into `-` and leaves every other character |
| JsText.NoBulletLeft | services/geminiService.ts:235 | no `"* "` remains after the bullet pass |
| GeminiService.HandleApiError | services/geminiService.ts:13-24 | the caller only ever sees the invalid-key, quota or generic message |
| GeminiService.HandleApiErrorClassifies | services/geminiService.ts:15-23 | invalid-key iff an Error whose message contains "API key not valid", even with "quota"; quota iff it contains "quota" but not the key phrase; generic otherwise, including every non-Error |
| GeminiService.InternalMessagesAreGeneric | services/geminiService.ts:37-38 | the parse-failure message of :37 and the shape-failure message of :138 are both classified as the generic message |
| GeminiService.InvalidStructureLacksPhraseLetters | services/geminiService.ts:37 | the parse-failure message contains neither `k` nor `q`, so neither phrase |
| GeminiService.UnexpectedFormatLacksPhraseLetters | services/geminiService.ts:138 | the shape-failure message contains neither `k` nor `q`, so neither phrase |
| GeminiService.FenceCapture | services/geminiService.ts:28-30 | a capture is trimmed and at least six characters shorter than its input, the two fences |
| GeminiService.FenceCaptureSound | services/geminiService.ts:28-29 | a fence capture is trimmed and is a real match: fence, optional `json`, white space, capture, white space, fence |
| GeminiService.FenceCaptureComplete | services/geminiService.ts:28-29 | whenever the fence pattern can match, a capture is reported |
| GeminiService.FenceRoundTrip | services/geminiService.ts:28-29 | fencing a trimmed text (optionally tagged `json`, padded with white space) and capturing gives the text back |
| GeminiService.JsonPayload | services/geminiService.ts:27-32 | what is handed to `JSON.parse` is trimmed; it is the fence's capture whenever that capture is non-empty, and otherwise the trimmed reply |
| GeminiService.FencedReplyYieldsBody | services/geminiService.ts:27-32 | a padded reply fenced with or without the `json` tag, with any white space inside the fences, yields exactly its trimmed body |
| GeminiService.UnfencedReplyOnlyTrimmed | services/geminiService.ts:27-32 | a reply whose trim does not open with a fence is passed on only trimmed |
| GeminiService.EmptyFenceOnlyTrimmed | services/geminiService.ts:30-32 | a fence with an empty capture is passed on as the trimmed reply, fences included |
| GeminiService.PlainReplyUnchanged | services/geminiService.ts:26-32 | a trimmed reply not starting with a backtick is parsed as it is |
| GeminiService.ParseJsonResponse | services/geminiService.ts:26-39 | succeeds exactly when `JSON.parse` accepts the payload, with its value; otherwise throws the invalid-structure error |
| GeminiService.StepKeysPresent | services/geminiService.ts:135 | the callback is true exactly for objects with all three keys, and throws exactly on elements that are neither objects nor arrays |
| GeminiService.EveryStep | services/geminiService.ts:135 | `every` holds exactly when every element has `description`, `code` and `data`; the empty array passes |
| GeminiService.EveryStepThrows | services/geminiService.ts:135 | `every` throws only at the first element that is not a step, when that element is a primitive, with the engine's `in` message for it |
| GeminiService.EveryStepThrowsAt | services/geminiService.ts:135 | conversely, when the first element that is not a step is a primitive, `every` throws the `in` error for that element |
| GeminiService.VisualizeDataFlow | services/geminiService.ts:123-143 | an accepted reply is an array of steps; every failure is one of the three handler messages; a failed network call gives the handler's message for what it threw |
| GeminiService.VisualizeDataFlowAccepts | services/geminiService.ts:134-137 | a reply is accepted exactly when it parses to an array of steps, and that array is returned |
| GeminiService.VisualizeDataFlowFailures | services/geminiService.ts:134-143 | every failure is a handler message; it is the generic message unless the first element that is not a step is a primitive, and then it is `handleApiError` of that element's `in` error |
| GeminiService.FirstPrimitiveDecides | services/geminiService.ts:135-142 | when the first element that is not a step is a primitive, the caller gets `handleApiError` of that element's `in` error |
| GeminiService.OtherDataFlowFailuresAreGeneric | services/geminiService.ts:134-143 | parse failures, non-arrays and elements lacking a key are reported as the generic message |
| GeminiService.QuotaTypeError | services/geminiService.ts:135 | the `TypeError` for `'description' in "quota"` is classified as an exceeded quota |
| GeminiService.QuotaElementMisreported | services/geminiService.ts:135-142 | as written, the reply `["quota"]` is reported as an exceeded quota |
| GeminiService.KeyElementMisreported | services/geminiService.ts:135-142 | as written, the reply `["API key not valid"]` reaches the caller as the invalid-key message |
| GeminiService.ObjectBeforePrimitiveIsGeneric | services/geminiService.ts:135-142 | order decides: `[{}, "quota"]` stops at the object and gives the generic message |
| GeminiService.CheckedFailuresAreGeneric | services/geminiService.ts:134-143 | with a shape check that does not throw, every failure after a reply is the generic message, and accepted replies and network failures are as before |
| GeminiService.ChartRows | services/geminiService.ts:160 | the prompt holds the first min(20, n) rows, in their original order |
| GeminiService.GenerateChartConfig | services/geminiService.ts:156-184 | the chart is accepted exactly when the reply to the first twenty rows arrives and `JSON.parse` accepts its payload, and then it is the parsed value; a failed call gives `handleApiError` of what was thrown, and every failure is one of the three handler messages |
| GeminiService.ChartIgnoresRowsPastTwenty | services/geminiService.ts:156-184 | rows past the twentieth never change the chart configuration or the error |
| GeminiService.ChartParseFailureIsGeneric | services/geminiService.ts:180-182 | an unparsable chart reply reaches the caller as the generic message |
| GeminiService.ExplainCode | services/geminiService.ts:222-240 | a reply gives the heading pass followed by the bullet pass applied to it, never longer than the reply and without any `"* "`; a failed call gives `handleApiError` of what was thrown |
| GeminiService.ExplainsHeadingLine | services/geminiService.ts:233-236 | a lone heading line `"### X\n"` (X one line without `*`) is explained as `"X\n\n"` |

## Left out

- Mandelbrot rendering and zoom, the Monte Carlo estimate of π, the statistics dashboard and the code profiler are not modelled. They rest on `Math.random` and floating point drawn into a canvas.
- Timers, animation stages and canvas drawing are not modelled. This covers the Game of Life `setTimeout` loop, `drawGrid`, the broadcast animation steps and the typing effect.
- `services/soundService.ts` and the UI-only files (App, Sidebar, Header, CodeBlock, CourseContent, constants, AIGenerator, CodeOptimizerPage, DataManipulationPage, types) are not part of this model.
- The network call and `JSON.parse` are inputs or parameters, not models: their own behaviour is foreign library code. `console.error` logging is dropped.
- `generateSoftware`, `generateDataFile` and `optimizeCode` are not modelled. Each only returns the reply (`generateDataFile` trimmed) or throws through `handleApiError`, which is modelled.
- GameOfLife.RandomGrid: `Math.random` becomes a `draw` parameter giving a real per cell; randomness itself is not modelled.
- GameOfLife.RunSimulationStep: the source's `number[][]` is a rectangular `array2`. The early return tests the `rows`/`cols` parameters, which match the grid's dimensions, in place of `g.length` and `g[0].length`.
- BroadcastDemo.Broadcast: requires every row of A to be no longer than B. A longer row would read `undefined` and give `NaN`, which integers cannot express.
- GeminiService.Json: numbers are integers only. `PrimitiveText` writes an integer in plain decimal, and JavaScript's exponent form for very large numbers is not modelled.
- GeminiService.FenceCapture: the fence regular expression `^```(?:json)?\s*\n?(.*?)\n?\s*```$` is not run by a regex engine. `FenceCapture` states the capture the engine's greedy and lazy choices give, and `FenceCaptureSound`/`FenceCaptureComplete` tie it to the set of matches. That the engine picks this match among the possible ones is argued in its comment, not proved.
- GeminiService.StepKeysPresent: for arrays, `'description' in item` (and the other two keys) is false. No array or array prototype has these properties; prototype lookup is not modelled in general.
- JsText: a Dafny `string` is a sequence of Unicode scalar values, not of UTF-16 code units. A character outside the Basic Multilingual Plane counts as one character here and as two in JavaScript, and a lone surrogate cannot be represented at all. No modelled operation can tell the difference: every character that `trim`, `includes`, `\s`, `.` and the two `replace` patterns test lies in the Basic Multilingual Plane. Lengths, such as those in `ReplaceBullets`, `ReplaceBulletsPointwise`, `RewriteHeadings` and `ExplainCode`, count scalar values.

## Findings

| source | as written | input that shows it | evidently intended | confidence | as-written member | corrected member |
|---|---|---|---|---|---|---|
| services/geminiService.ts:135-142 | `'description' in item` throws a `TypeError` on a primitive element. Its message ("Cannot use 'in' operator to search for 'description' in quota") passes through `handleApiError`, which classifies it by substring. | the reply `["quota"]` is reported as "API quota exceeded…"; the reply `["API key not valid"]` would be reported as an invalid key | a reply of the wrong shape is a format error, reported as the generic message like every other internal failure | not executed; the message text is V8's | GeminiService.QuotaElementMisreported | GeminiService.CheckedFailuresAreGeneric |
