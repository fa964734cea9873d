# mfcs-js call parser, modelled in Dafny

mfcs-js lets a language model ask for tool calls in its reply. A call is a
`<mfcs_call>…</mfcs_call>` block. It holds four inner fields:
`<instructions>`, `<call_id>`, `<name>` and `<parameters>`, and the parameters
are JSON text. The repository reads these blocks in two ways.

- `parseAiResponse` takes a complete response. It returns every block that
  has all four fields and parseable parameters, trimmed, in order of
  appearance. Other blocks are skipped silently.
- `AiResponseParser` works on a stream.
  - It appends each non-empty chunk to the buffer and scans the buffer for
    complete blocks. Each block it finds is cut out of the buffer. A block
    that yields a call also raises an `apiCall` event. A block without all
    four fields, or with parameters that do not parse, is cut out silently.
  - It stores the calls and, later, the results callers report for them, in
    two maps keyed by call id.
  - Once the last chunk has been seen and there are as many results as calls,
    it emits `apiResults`. That event carries a report: one line
    `[call_id: N name: X] payload` per result, sorted by id, between
    `<mfcs_result>` and `</mfcs_result>`. When no call was seen at all, the
    event carries `null`.

The model is pure. Each method of the class becomes a function from one parser
state to the next. It returns the events the class would emit, in order.

| module | file | what it holds |
|---|---|---|
| `Wrappers` | `wrappers.dfy` | `Option`, used for `null`, `NaN` and failed parses |
| `JsonValue` | `json_value.dfy` | the shape of a JSON value |
| `Text` | `text.dfy` | JavaScript `trim`, ASCII case folding, leftmost search, the lazy `open([\s\S]*?)close` match, `String.prototype.replace` with a string pattern |
| `Numbers` | `numbers.dfy` | `parseInt(s, 10)` on integers, and decimal rendering of an integer in a template string |
| `JsMap` | `js_map.dfy` | a JavaScript `Map`: insertion-ordered entries, `get`, `set`, `size`, `values` |
| `CallBlock` | `call_block.dfy` | the tags, reading one inner field, reading all four, and the shape of a complete outer block |
| `ResponseParser` | `response_parser.dfy` | `parseAiResponse` and the result tag constants |
| `ResultReport` | `report.dfy` | sorting results by id and rendering the report |
| `StreamParser` | `stream_parser.dfy` | `AiResponseParser`: state, `processChunk`, `parseCallApiBlocks`, `parseCallApiContent`, `addApiResult`, `emitApiResults`, and runs of steps |

Regular expressions are modelled as searches.
- A lazy match `open([\s\S]*?)close` is the first occurrence of `open` at or
  after the starting index, followed by the nearest `close`. `Text.FindDelimitedSpec`
  proves this is the unique leftmost-first match.
- `(.*?)` under the `s` flag matches the same text as `[\s\S]*?`.
- The `i` flag on the inner tags of the streaming parser is ASCII case folding.
  Without the `u` flag, no non-ASCII character folds onto an ASCII letter, so
  this is exact for these tags.
- The outer `<mfcs_call>` search and all searches in `parseAiResponse` are
  case-sensitive.

`JSON.parse` and `JSON.stringify` are passed in as functions. `JSON.parse` is
a `string -> Option<Json>`, where `None` stands for the exception. The
streaming parser reads the id with `parseInt`, whose `NaN` is modelled as
`None`. A JavaScript `Map` treats every `NaN` key as one key, so the call map
is keyed by `Option<int>`.

Three facts about the code shape the model.
- **A scan can skip a block.** `parseCallApiBlocks` removes each matched
  block from the buffer but keeps the global regex's `lastIndex`. The next
  search therefore starts at the old end of the match, inside the shortened
  buffer, `|b1|` characters past where the removed block `b1` began. Any
  block that begins fewer than `|b1|` characters after the end of `b1` is
  therefore skipped in that scan, whatever its own length and whatever text
  lies between (`StreamParser.AfterBlockSkipped`,
  `StreamParser.AdjacentBlockSkipped`). It is picked up only on the next
  non-empty chunk (`StreamParser.AdjacentBlockDeferred`).
  So one chunk does not always yield every complete block in it. How a
  response is cut into chunks can change which calls a scan finds, and when.
  One case is proved for every cut: prose in the buffer, then a single block
  delivered in any number of chunks. Here and below, prose is text in which
  every `<` is followed by a character other than `m`. It may hold `a < b`,
  `<br>` or `<call_api>`, but no `<mfcs_call>` can begin inside it. Nothing is emitted until
  the block is complete. Its call, if it has one, is then announced once,
  and the buffer holds the prose again (`StreamParser.SplitBlockHeld`, `StreamParser.SplitBlockDelivered`).
- **Nothing limits the report to one emission.** Another result for an id
  that is already answered emits the report again. So does a second last
  chunk (`StreamParser.ReportRepeats`). The readiness check compares map
  sizes, not ids (`StreamParser.SizesNotIdsCompared`).
- **The parser reads one call family.** Only `<mfcs_call>` blocks are
  recognised, and the report has one section.

## Model

| member | source | states |
|---|---|---|
| Text.FindDelimitedSpec | src/ParseAiResponse.ts:17 | the lazy block search finds no block exactly when no opening tag is followed by a closing tag, and otherwise returns the unique leftmost opening tag with the nearest closing tag after it |
| Text.Trim | src/ParseAiResponse.ts:34-36 | a trimmed field is no longer than the raw one and has no JavaScript whitespace at either end |
| Text.TrimOfPadded | src/ParseAiResponse.ts:34-36 | trimming strips exactly the surrounding whitespace and keeps an already trimmed value intact |
| Text.FindDelimitedIgnoresPatternCase | src/AiResponseParser.ts:89-92 | with the `i` flag, the match found does not depend on the case in which the tags are written |
| Text.RemoveFirst | src/AiResponseParser.ts:79 | `replace` with a string pattern removes exactly the first occurrence and keeps the text on both sides of it; with no occurrence the buffer is unchanged |
| CallBlock.FieldIsFirst | src/ParseAiResponse.ts:24-27 | an inner field is absent exactly when no opening tag of it is followed by its closing tag, and otherwise is the trimmed text of the first such match |
| CallBlock.FieldIgnoresTagCase | src/AiResponseParser.ts:89-92 | in the streaming parser, a field reads the same whatever the case of its tag name |
| CallBlock.ExtractFieldsSpec | src/ParseAiResponse.ts:24-38 | a block yields a call exactly when all four fields have a match and the parameters text parses; the id is then the trimmed text of the first id match and the parameters are what that first parameters match parses to |
| CallBlock.AllFieldsPresent | src/ParseAiResponse.ts:29 | the four-field check on regex matches agrees with the fields being present |
| CallBlock.ExtractRendered | src/ParseAiResponse.ts:24-38 | fields written between their tags, without `<` or surrounding whitespace, read back as themselves |
| ResponseParser.ParseAiResponse | src/ParseAiResponse.ts:13-46 | the result has at most one call per complete block and is empty when the response has no complete block |
| ResponseParser.BlocksInOrder | src/ParseAiResponse.ts:17-20 | the global regex visits blocks left to right, without overlap, inside the response |
| ResponseParser.BlocksAreFirstMatches | src/ParseAiResponse.ts:17-20 | each visited block is the leftmost complete block after the previous one, and the visit stops only when no complete block is left |
| ResponseParser.ScanUnique | src/ParseAiResponse.ts:17-20 | that description of the scan fixes the scan: two scans of the same response are equal |
| ResponseParser.ParseLeadingBlock | src/ParseAiResponse.ts:20-38 | a response starting with a complete block yields that block's call, if any, followed by the calls of the rest |
| ResponseParser.IncompleteBlockDropped | src/ParseAiResponse.ts:24-29 | a block missing an inner field contributes no call and does not disturb the calls after it |
| ResponseParser.UnparsableBlockDropped | src/ParseAiResponse.ts:30-41 | a block whose parameters do not parse contributes no call and does not disturb the calls after it |
| ResponseParser.ParseAiResponseTrimmed | src/ParseAiResponse.ts:33-36 | every returned call has trimmed instructions, id and name |
| ResponseParser.ParseRendered | src/ParseAiResponse.ts:13-46 | a block written from a call reads back as that call, ahead of the calls of the text after it |
| Numbers.ParseIntOfIntToString | src/AiResponseParser.ts:99 | `parseInt` reads an integer written in decimal back as that integer, after any whitespace and before any non-digit text |
| Numbers.ParseInt | src/AiResponseParser.ts:99 | text without a digit reads as `NaN` |
| Numbers.ParseIntOfDigits | src/AiResponseParser.ts:99 | leading whitespace, an optional `+` or `-`, then digits: the result is the decimal value of the digits, negated after `-`, whatever non-digit text follows |
| Numbers.ParseIntWithoutDigits | src/AiResponseParser.ts:99 | leading whitespace and an optional sign not followed by a digit read as `NaN` |
| Numbers.NatToString | src/AiResponseParser.ts:153 | a natural number is written as non-empty decimal digits without a leading zero, and the digits denote the number |
| Numbers.IntToString | src/AiResponseParser.ts:153 | an integer is written with a leading `-` exactly when it is negative |
| JsMap.GetSet | src/AiResponseParser.ts:120 | after `set(k, v)`, `get(k)` is `v` and every other key reads as before |
| JsMap.SetValid | src/AiResponseParser.ts:120 | `set` keeps keys distinct |
| JsMap.Set | src/AiResponseParser.ts:120 | `set` grows the size by one exactly when the key is new, and appends a new key at the end of the key order |
| JsMap.Get | src/AiResponseParser.ts:123 | `get` finds a value exactly when the key is present, and the value is the one stored under it |
| ResultReport.SortByIdSpec | src/AiResponseParser.ts:143-144 | the sort is a permutation of the stored results and leaves ids in ascending order |
| ResultReport.SortByIdStrict | src/AiResponseParser.ts:143-144 | results with distinct ids come out strictly ascending |
| ResultReport.AscendingUnique | src/AiResponseParser.ts:143-144 | two strictly ascending arrangements of the same results are equal |
| ResultReport.Report | src/AiResponseParser.ts:140-156 | the report starts with `<mfcs_result>` and a newline and ends with `</mfcs_result>` |
| ResultReport.ReportOfAscending | src/AiResponseParser.ts:140-156 | the report is the result tags around one line per result, in strictly ascending id order |
| ResultReport.ReportIndependentOfOrder | src/AiResponseParser.ts:140-156 | the report does not depend on the order in which results were stored |
| ResultReport.LineId | src/AiResponseParser.ts:153 | reading a report line with `parseInt` just after `[call_id: ` gives back the result's id |
| StreamParser.ParseCallContent | src/AiResponseParser.ts:88-111 | the content yields a call exactly when all four fields are present and the parameters parse, with trimmed instructions and name |
| StreamParser.ParseRenderedContent | src/AiResponseParser.ts:88-111 | content written from a call with a decimal id reads back as that call with that id |
| StreamParser.ScanBlocks | src/AiResponseParser.ts:60-81 | the scan never lengthens the buffer, and a buffer without a complete block past the search position is left unchanged with no calls |
| StreamParser.BlockScanned | src/AiResponseParser.ts:64-79 | prose, a complete block and any rest: the scan yields the block's call, if any, first, cuts the block out while the prose stays, and resumes at the block's old end in prose plus rest |
| StreamParser.ScanProseBlock | src/AiResponseParser.ts:64-79 | prose followed by one complete block scans to exactly the prose and the block's call, if any |
| StreamParser.ProseKept | src/AiResponseParser.ts:64-79 | prose at the head of the buffer is never removed by a scan |
| StreamParser.AfterBlockSkipped | src/AiResponseParser.ts:64-79 | after a leading block is cut out, the scan resumes at that block's length, so text after it with no opening tag from there on is kept whole and only the first block's call is yielded |
| StreamParser.AdjacentBlockSkipped | src/AiResponseParser.ts:64-79 | a complete block that begins fewer characters after a leading block than that block is long, whatever its length and the text between, stays in the buffer and yields no call in the same scan, when no further opening tag begins inside it past the resumption point |
| StreamParser.FruitlessBlockRemoved | src/AiResponseParser.ts:69-79 | after prose, a block that yields no call is still cut out, and the scan goes on as if the buffer had been the prose and the rest |
| StreamParser.IncompleteBlockRemoved | src/AiResponseParser.ts:89-96 | after prose, a block missing an inner field yields no call and is cut out |
| StreamParser.UnparsableBlockRemoved | src/AiResponseParser.ts:102-108 | after prose, a block whose parameters do not parse yields no call and is cut out |
| StreamParser.ScannedCallsTrimmed | src/AiResponseParser.ts:98-100 | every call the scan yields has trimmed instructions and name |
| StreamParser.StoreCallsGet | src/AiResponseParser.ts:71 | after storing the scanned calls, each id maps to the last call with that id, and ids without a call keep their old entry |
| StreamParser.StoreCallsValid | src/AiResponseParser.ts:71 | storing calls keeps the map keyed by each call's own id, one entry per id |
| StreamParser.EmitApiResults | src/AiResponseParser.ts:131-138 | `null` is emitted exactly when no call was stored; nothing is emitted exactly when there are calls and the sizes differ; otherwise a report is emitted |
| StreamParser.EmittedReport | src/AiResponseParser.ts:131-159 | when the sizes match, the one event is the report of the stored results, one line per result in ascending id order |
| StreamParser.ProcessChunk | src/AiResponseParser.ts:42-55 | a chunk leaves results alone, sets the complete flag on the last chunk and otherwise keeps it, and an empty or absent chunk leaves buffer and calls alone; a non-last chunk emits only call events, and the last chunk emits only call events followed by the results check |
| StreamParser.LastChunkScanned | src/AiResponseParser.ts:42-55 | a non-empty last chunk is appended and scanned exactly like any other chunk, its calls stored and announced; then the flag is set and the results check runs on the updated parser after the call events |
| StreamParser.ParseCallApiBlocks | src/AiResponseParser.ts:60-81 | the buffer becomes what the scan from the start leaves, the calls found are stored in scan order and announced one event each in the same order, results and the complete flag are untouched, and the buffer never grows |
| StreamParser.EmptyChunkIgnored | src/AiResponseParser.ts:43-48 | an empty or absent chunk that is not the last changes nothing and emits nothing |
| StreamParser.EmptyLastChunkChecks | src/AiResponseParser.ts:51-54 | an empty or absent last chunk only sets the complete flag and runs the results check |
| StreamParser.NoBlockAppended | src/AiResponseParser.ts:43-47 | a chunk that completes no block is only appended to the buffer |
| StreamParser.FeedRenderedBlock | src/AiResponseParser.ts:42-81 | one complete block fed whole after prose, as the last chunk or not, yields exactly its call (followed by the results check when it is the last chunk), leaves the prose in the buffer, stores the call under its id and leaves other ids alone |
| StreamParser.WholeResponseAtOnce | src/AiResponseParser.ts:42-126 | a whole response, prose then one block, delivered as the single last chunk of a fresh parser is stored and announced as its one call with no report yet; the arrival of that call's result then emits the report holding exactly that result |
| StreamParser.SplitBlockHeld | src/AiResponseParser.ts:42-81 | while the chunks of a block delivered after prose fall short of the whole block, each is only appended and nothing is emitted |
| StreamParser.SplitBlockDelivered | src/AiResponseParser.ts:42-81 | a block cut into any number of chunks after prose yields exactly its call, if any, once the chunks make up the block, with the prose left in the buffer |
| StreamParser.AdjacentBlockDeferred | src/AiResponseParser.ts:61-79 | a block skipped that way behind a prose gap is kept in the buffer with the gap, and its call is emitted first with the next non-empty chunk |
| StreamParser.AddApiResult | src/AiResponseParser.ts:119-126 | a result changes only the results map; it emits exactly when the last chunk has been seen and the sizes are equal after the store, and then emits the results check's report |
| StreamParser.CompletingResultReports | src/AiResponseParser.ts:119-126 | once complete, the result that brings the results level with the calls is stored and the report of all stored results is emitted |
| StreamParser.AddApiResultStores | src/AiResponseParser.ts:120 | the result is stored under its id, replacing an earlier one, and other ids keep their results |
| StreamParser.ReportRepeats | src/AiResponseParser.ts:123-158 | once complete and answered, another result for an answered id, or another last chunk, emits the report again |
| StreamParser.SizesNotIdsCompared | src/AiResponseParser.ts:123 | a result for an id that has no call can still complete the count and trigger the report |
| StreamParser.ProcessChunkValid | src/AiResponseParser.ts:42-55 | processing a chunk keeps both maps with one entry per id, stored under the entry's own id |
| StreamParser.AddApiResultValid | src/AiResponseParser.ts:119-126 | adding a result keeps both maps with one entry per id, stored under the entry's own id |
| StreamParser.StoredResultsDistinct | src/AiResponseParser.ts:143 | the stored results have pairwise distinct ids |
| StreamParser.ReachableValid | src/AiResponseParser.ts:27-30 | every state reachable from a new parser keeps both maps with one entry per id, under that id |
| StreamParser.NoReportBeforeLast | src/AiResponseParser.ts:119-126 | before the last chunk, no sequence of chunks and results completes the parser or emits anything but call events |

## Left out

- The prompt builders, the build scripts and the example programs format text
  or do I/O around the parser. They are not part of this model.
- The `EventEmitter` base class is left out. Each step returns its events in
  emission order. A listener that throws, and `console.error` logging, are
  not modelled.
- In the model a scan stores all the calls it finds before any listener
  runs. In the code each call is stored and announced before the next block
  is searched for, so a listener can run between two stores. A listener that
  calls `addApiResult` synchronously from its `apiCall` handler is not
  modelled.
- The JSON grammar is not modelled: `JSON.parse` and `JSON.stringify` are
  parameters. `JSON.stringify(undefined)` has no counterpart, because results
  are `Json` values.
- `callIdCounter` is declared but never used.
- The agent call family and its result tags are not modelled. `index.ts`
  re-exports tag constants for them that the parser source does not define.
- Strings are sequences of characters. The difference between UTF-16 code
  units and code points is not modelled.
- StreamParser.AddApiResult: result ids are integers. A `NaN` or fractional
  id, and the `NaN` that the sort comparator would then produce, are not
  modelled.
- Numbers.ParseInt: reads digits into an exact integer. Rounding to a double
  beyond 2^53 and `Infinity` for very long digit strings are not modelled.
- Numbers.IntToString: writes plain decimal digits. The exponent form
  JavaScript uses for magnitudes of 1e21 and more is not modelled.
