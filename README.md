# QualiConsult WhatsApp bot: verified model of the message-handling helpers

The bot is a small Node.js webhook. It receives WhatsApp Cloud API
messages, asks the OpenAI Responses API for an answer, and sends the
answer back in pieces. This project models, in Dafny, the helpers in
`index.js` that decide what happens to a message and to a reply:

- `alreadySeen`, with the `seenMsgIds` map. It drops deliveries that
  WhatsApp repeats within ten minutes (module `Dedup`, `dedup.dfy`).
- `splitIntoChunks`. It cuts a reply into WhatsApp-sized pieces, preferring
  to cut at a newline more than 500 code units into the window (module
  `Chunking`, `chunking.dfy`).
- `extractOpenAIText`. It reads the reply text out of an API result of any
  shape without failing (module `ResponseText`, `response_text.dfy`).
- `isArabic` and `isGreeting`. They classify the incoming text (module
  `Classify`, `classify.dfy`).

A JavaScript string is a sequence of UTF-16 code units (`JsText.JsString`).
`String.prototype.trim` is modelled with ECMAScript's full white-space and
line-terminator set, and `toLowerCase` on the ASCII letters (module
`JsText`, `js_text.dfy`). `Date.now()` becomes a `now` parameter. A falsy
message id or text becomes the empty string.

`alreadySeen` mutates a module-level map, so it is a class `SeenIds` with a
`map` field. Its method runs the same delete-while-iterating loop and is
proved equal to the pure step `SeenStep`.

`splitIntoChunks` is a `while` loop over a cursor. Its loop (`CutWindows`)
is proved to produce the trimmed windows of the recursive `Segments`.

`extractOpenAIText` keeps its two nested `for` loops (`AppendItems`,
`AppendParts`). They are proved to accumulate exactly the recursive
`Collected`.

## Model

| member | source | states |
|---|---|---|
| JsText.Trim | index.js:155 | the result is the input with its leading and trailing white space removed: a slice of the input, empty exactly when the input is all white space, and with no white space at either end |
| JsText.TrimIdempotent | index.js:155 | trimming a trimmed string changes nothing |
| JsText.TrimPadded | index.js:51 | white space added around a string does not change its trim |
| JsText.TrimLine | index.js:231 | a newline appended to a string is removed again by the trim |
| JsText.LowerTrimCommute | index.js:51 | trimming then lower-casing equals lower-casing then trimming |
| JsText.LowerAscii | index.js:51 | `toLowerCase` on ASCII: the result has the same length, no capital A-Z is left, and only capitals A-Z are changed |
| JsText.LowerAsciiIdempotent | index.js:51 | lower-casing a lower-cased string changes nothing |
| JsText.TrimKeepsContent | index.js:169 | trimming removes only white space: the non-white-space code units are kept, in order |
| Chunking.LastIndexOf | index.js:166 | `lastIndexOf("\n", end)` is the greatest index at or before `end` that holds a newline, or -1 |
| Chunking.WindowEnd | index.js:163-167 | a window ends after its start and at most `maxLen` on; it ends early only at a newline more than 500 past its start, and then at the last such newline before the bound |
| Chunking.SplitIntoChunks | index.js:154-174 | the result is `Chunks(text, maxLen)`; it is `[]` for blank text and `[trim(text)]` when the trimmed text fits; every chunk is non-empty, at most `maxLen` long and trimmed |
| Chunking.CutWindows | index.js:160-171 | the `while` loop terminates and collects exactly the trimmed windows `Segments` cuts, in order |
| Chunking.SegmentsPartition | index.js:162-171 | the untrimmed windows are non-empty, at most `maxLen` long, and concatenate in order to exactly the trimmed text |
| Chunking.SegmentIsWindow | index.js:162-170 | the k-th window starts where the previous windows end and is cut where `WindowEnd` says |
| Chunking.KeepNonEmpty | index.js:173 | `filter(Boolean)` keeps exactly the non-empty strings, drops nothing else, and leaves the text read in order unchanged |
| Chunking.StepAsWrittenIsWindowEnd | index.js:163-170 | for `maxLen >= 1` one turn of the loop as written moves the cursor to `WindowEnd`, strictly forward |
| Chunking.NoProgressAsWritten | index.js:163-170 | for `maxLen <= 0` one turn never moves a cursor in the text forward and never reaches the end of the text |
| Chunking.LoopNeverEndsAsWritten | index.js:162-171 | for `maxLen <= 0` and a non-empty text the cursor stays below the length after any number of turns: the loop never ends |
| Chunking.ChunksBounded | index.js:162-173 | every chunk is non-empty, at most `maxLen` code units and trimmed |
| Chunking.ChunksKeepContent | index.js:154-174 | no text is lost: the chunks read in order hold exactly the non-white-space code units of the input |
| Dedup.Purged | index.js:79-82 | the clean-up keeps exactly the entries no more than ten minutes old, each with its time unchanged |
| Dedup.SeenIds.constructor | index.js:74 | the map starts empty |
| Dedup.SeenIds.AlreadySeen | index.js:75-87 | the answer and the new map are those of `SeenStep` on the old map: a falsy id answers false and leaves the map alone; otherwise the expired entries are deleted, and the answer is true if the id is still present, or else the id is recorded at `now` and the answer is false |
| Dedup.DuplicateIff | index.js:84-86 | a call reports a duplicate exactly when the id is non-empty, present, and recorded no more than 600000 ms before `now` |
| Dedup.StepKeepsWindow | index.js:79-86 | after a call with a non-empty id, no entry is older than the window; every entry within it is kept unchanged; only the id can be added; the id keeps its first time when it is a duplicate and gets `now` otherwise |
| Dedup.FalsyIdIgnored | index.js:76 | a falsy id is never a duplicate and changes nothing |
| Dedup.RememberedThroughWindow | index.js:79-86 | across any run of calls made within ten minutes of the time `t0` an id was recorded, the id stays recorded at `t0` and every call carrying it is reported as a duplicate |
| Dedup.ForgottenAfterWindow | index.js:80-86 | a call more than ten minutes after an id was recorded treats it as new and records it at `now` |
| ResponseText.ExtractOpenAIText | index.js:207-232 | the result is `Extract(resp)` and is trimmed; a response that is falsy or not an object gives the empty string; a non-blank string `output_text` gives its trim, whatever `output` holds |
| ResponseText.AppendItems | index.js:215-228 | the outer loop appends, for each truthy item in order, the text of its content parts and then its own non-blank `text` |
| ResponseText.AppendParts | index.js:220-224 | the inner loop appends, for each truthy part in order, `text` plus a newline when `text` is a non-blank string, or when `type` is `"output_text"` and `text` is a string |
| ResponseText.JoinedAppend | index.js:216-228 | a loop over a concatenation appends the text of the first list followed by the text of the second; each loop step (`JoinedSnoc`) is proved from it |
| ResponseText.ExtractEmptyIff | index.js:207-232 | the function returns the empty string exactly when no non-blank text sits in `output_text`, in an item's `text` or in a content part's `text` |
| ResponseText.ExtractSingleMessage | index.js:214-231 | the usual reply shape `{output: [{content: [{type: "output_text", text: s}]}]}` yields `s` trimmed |
| Classify.IsArabic | index.js:46-48 | true exactly when some code unit of the text lies in U+0600..U+06FF |
| Classify.ArabicAppend | index.js:46-48 | a text made of two pieces is Arabic exactly when one of the pieces is |
| Classify.IsGreeting | index.js:50-65 | a greeting's trimmed text is not blank and is 2 to 12 code units long; case and padding are covered by the next two rows |
| Classify.GreetingIgnoresCase | index.js:50-64 | texts that lower-case alike are both greetings or both not |
| Classify.GreetingIgnoresPadding | index.js:50-64 | white space around a text does not change whether it is a greeting |
| Classify.HelloIsGreeting | index.js:50-64 | "Hello" is a greeting |

## Left out

- `httpsJson` (index.js:92-149): HTTPS I/O, socket timeouts and the JSON parsing of bodies. A parsed body is the `Json` value `extractOpenAIText` receives.
- `waSendText` (index.js:177-204): network sends and the pause between them. It sends the `splitIntoChunks` result in index order, and that ordering is what `ChunksKeepContent` is about.
- `askAI` (index.js:235-281): prompt constants, the OpenAI call, and the fallback text used when the extracted reply is empty. `ExtractEmptyIff` states exactly when that fallback applies.
- The Express routes and the webhook handler (index.js:284-347), and environment and console output (index.js:15-43).
- `Date.now()`: it is the `now` parameter of `AlreadySeen`.
- Dedup.SeenIds.AlreadySeen: JavaScript `Map` insertion order is not modelled. The clean-up visits entries in an arbitrary order, and the result does not depend on that order.
- Dedup.SeenIds.AlreadySeen: message ids that are not strings are not modelled. Every falsy id is the empty string.
- Classify.GreetingIgnoresCase: `toLowerCase` is modelled on A-Z only. Outside ASCII, two characters lower-case to ASCII letters: U+0130 gives U+0069 U+0307, and the Kelvin sign U+212A gives `k`. U+0307 and `k` appear in no greeting, and Arabic letters have no case, so the greeting verdict is the same as with full Unicode lower-casing. That argument is not proved here.
- Chunking.SplitIntoChunks: requires `maxLen >= 1`. The value comes from the `WA_CHUNK_MAX` environment variable (index.js:34), so 0 or a negative number can reach it; with those the source loop never ends (see Findings), and the model states this on the loop as written instead. A `maxLen` that is not an integer (`NaN` from a malformed variable) is not modelled.
- Chunking.SplitIntoChunks: `String(text || "")` is modelled for string inputs only. A falsy input is the empty string.
- ResponseText.ExtractOpenAIText: numbers and booleans in the response are kept only by their truthiness, because nothing else about them is read. Arrays carry no named properties, as with `JSON.parse`.

## Findings

| source | as written | input that shows it | evidently intended | confidence | as-written member | corrected member |
|---|---|---|---|---|---|---|
| index.js:34, index.js:162-171 | the chunk size is read from `WA_CHUNK_MAX` with no check that it is positive; with `maxLen <= 0` the `while` loop never advances past the text's end and pushes chunks without bound | `WA_CHUNK_MAX=0` and any reply longer than 0 code units after trimming | a chunk size of at least 1, for which every turn moves the cursor forward and the loop ends | not executed | Chunking.LoopNeverEndsAsWritten | Chunking.SplitIntoChunks |
