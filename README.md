# DEMO-LMS tutoring core in Dafny

This project models three small pieces of logic in DEMO-LMS, a course platform with an AI tutor:

1. **The chat widget's client side** (`FloatingChatWidget`).
   - It builds the text of the question it sends.
   - It decodes the streamed reply of the chat endpoint into the answer on screen.
   - It shows a fixed error message when the request fails.
2. **The server action `summarizeVideo`.**
   - It loads a lesson and applies defaults to its title, description and content.
   - It tries to fetch the lesson video's audio track from Mux.
   - It builds a multimodal or a plain-text request for the Gemini model.
   - It maps every outcome to a `{success, summary | error}` record.
3. **The lesson page's summary panel** (`VideoSummarizer`).
   - It maps the action's result to the panel's state.
   - It strips Markdown marks from the summary for the PDF.
   - It derives the PDF's file name from the lesson title.

The outside world is passed in as parameters. These are:

- the result of each network call (the Sanity lesson query, the Mux audio fetch, the Gemini call, the chat endpoint's response and the chunks its reader delivers);
- `JSON.parse`;
- `toPlainText`;
- the base64 encoder.

Modules:

- `Wrappers`: `Option`.
- `JsStrings`: the JavaScript string operations the code relies on, each with its properties:
  - truthiness and `||` defaults;
  - `trim()` and the `\s` whitespace set, whose members are listed in `JsStrings.IsWhitespace`;
  - `split(sep)`.
- `ChatStream`:
  - the decoder: the spec functions `LineDelta`, `ChunkText`, `StreamText` and `StreamUpdates`, and the class `FrameDecoder` whose methods are proved against them;
  - the widget state, in the class `ChatWidget`.
- `Summarize`: the action.
  - The function `Summarization` describes one run.
  - The method `SummarizeVideo` follows the action's steps and is proved equal to it.
- `VideoSummarizer`: `CleanText`, `UnderscoreRuns`, `PdfFilename` and the class `SummaryPanel`.

Behaviours of the code the model keeps:

- The decoder keeps no partial line between chunks. A frame cut by a chunk boundary is lost; see Findings.
- `[DONE]` is skipped like an empty payload. Reading goes on until the reader reports `done`.
- The system prompt mentions "the actual video audio" even when the request carries no audio.
- When the audio fetch succeeds, the audio counts as present even if it has zero bytes, because an empty `Uint8Array` is truthy.
- Lesson content that is present counts even when it is an empty block list, for the same reason.

## Model

| member | source | states |
|---|---|---|
| JsStrings.Or | lib/actions/summarize.ts:19-20 | `a \|\| b` on an optional string yields the value exactly when it is present and non-empty, and otherwise the fallback |
| JsStrings.TrimIsSlice | components/chat/FloatingChatWidget.tsx:67 | `trim()` returns a contiguous slice of its input whose dropped prefix and suffix are all whitespace |
| JsStrings.TrimEnds | components/chat/FloatingChatWidget.tsx:67 | a trimmed string is empty or begins and ends with a non-whitespace character |
| JsStrings.TrimEmptyIffBlank | components/chat/FloatingChatWidget.tsx:67-68 | a payload trims to "" exactly when it is all whitespace, so blank payloads are the ones skipped |
| JsStrings.TrimIdempotent | components/chat/FloatingChatWidget.tsx:67 | trimming twice equals trimming once |
| JsStrings.TrimKeepsUnpadded | components/chat/FloatingChatWidget.tsx:67 | a string with no whitespace at either end is left unchanged by `trim()` |
| JsStrings.Split | components/chat/FloatingChatWidget.tsx:63 | `split` always yields at least one piece |
| JsStrings.SplitPiecesClean | components/chat/FloatingChatWidget.tsx:63 | no piece of a split holds the separator |
| JsStrings.SplitJoinRoundTrip | components/chat/FloatingChatWidget.tsx:63 | joining the pieces with the separator gives back the string that was split |
| JsStrings.SplitWithoutSeparator | components/chat/FloatingChatWidget.tsx:63 | a string without the separator splits into itself alone |
| JsStrings.SplitAround | components/chat/FloatingChatWidget.tsx:63 | splitting `x + sep + y` gives the pieces of `x` followed by the pieces of `y` |
| ChatStream.OutgoingText | components/chat/FloatingChatWidget.tsx:42-44 | the message text starts with the question; it equals the question exactly when the lesson title is falsy, and otherwise continues with " (Current lesson: <title>)" |
| ChatStream.Payload | components/chat/FloatingChatWidget.tsx:66-67 | a line has a payload exactly when it starts with `data: `; the payload is no longer than the rest of the line |
| ChatStream.LineDelta | components/chat/FloatingChatWidget.tsx:66-75 | a line adds text only if it is a `data: ` frame whose payload is non-empty, is not `[DONE]`, and parses to a `text-delta` event whose delta is exactly that text |
| ChatStream.SkippedLines | components/chat/FloatingChatWidget.tsx:66-78 | these lines add nothing: non-frame lines, empty or `[DONE]` payloads, payloads the parser rejects, events of another type, and events with a missing or empty delta |
| ChatStream.InertLineIgnored | components/chat/FloatingChatWidget.tsx:65-80 | a line that adds nothing can be removed from anywhere without changing what the other lines add; in particular `[DONE]` does not end decoding |
| ChatStream.BareMarkerAddsNothing | components/chat/FloatingChatWidget.tsx:67-68 | the bare marker `data: ` has an empty payload and adds nothing |
| ChatStream.WholeFrameAddsDelta | components/chat/FloatingChatWidget.tsx:66-74 | a whole `data: {...}` line that carries a `text-delta` event adds exactly its delta |
| ChatStream.PublishesOrdered | components/chat/FloatingChatWidget.tsx:73-74 | in a growing log, every value strictly extends each earlier one, and the last value is the final one |
| ChatStream.PublishesChain | components/chat/FloatingChatWidget.tsx:73-74 | two growing logs, the second starting where the first ends, form one growing log |
| ChatStream.UpdatesPublish | components/chat/FloatingChatWidget.tsx:65-75 | while the lines of a chunk are decoded, each value passed to `setResponse` extends the previous one, and the last equals the accumulated text |
| ChatStream.StreamUpdatesPublish | components/chat/FloatingChatWidget.tsx:56-81 | over a whole reply, the values passed to `setResponse` only grow, and the last equals the decoded reply |
| ChatStream.StreamStep | components/chat/FloatingChatWidget.tsx:58-64 | reading one more chunk extends the answer and the screen log by exactly what that chunk's lines add |
| ChatStream.LinesStep | components/chat/FloatingChatWidget.tsx:65-75 | decoding one more line extends the answer by its delta, and the log by the new answer when that delta is non-empty |
| ChatStream.LinesTextAppend | components/chat/FloatingChatWidget.tsx:65-80 | the lines of a chunk are decoded independently: what consecutive runs of lines add is concatenated |
| ChatStream.StreamTextAppend | components/chat/FloatingChatWidget.tsx:58-81 | chunks are decoded independently: decoding a sequence of chunks is the concatenation of the per-chunk decodes |
| ChatStream.ChunkTextSplitsAtNewline | components/chat/FloatingChatWidget.tsx:63 | within one chunk, the text on either side of a "\n" is decoded separately |
| ChatStream.ChunkTextGlue | components/chat/FloatingChatWidget.tsx:62-63 | a chunk ending in "\n" decodes the same whether alone or glued to the next chunk |
| ChatStream.OneChunk | components/chat/FloatingChatWidget.tsx:62-63 | a reply of one chunk decodes as that chunk |
| ChatStream.NewlineAlignedChunks | components/chat/FloatingChatWidget.tsx:62-63 | when every chunk but the last ends in "\n", the chunked reply decodes to the same text as the whole reply in one chunk |
| ChatStream.SingleLineChunk | components/chat/FloatingChatWidget.tsx:63 | a chunk without "\n" is a single line |
| ChatStream.TwoChunks | components/chat/FloatingChatWidget.tsx:58-63 | a two-chunk reply decodes as the first chunk followed by the second |
| ChatStream.FrameDecoder.constructor | components/chat/FloatingChatWidget.tsx:56 | a new decoder has an empty accumulator and has published nothing |
| ChatStream.FrameDecoder.FeedLine | components/chat/FloatingChatWidget.tsx:66-79 | one pass of the line loop appends the line's delta to `fullResponse`; it publishes the new value exactly when the delta is non-empty |
| ChatStream.FrameDecoder.FeedChunk | components/chat/FloatingChatWidget.tsx:62-80 | the `for` loop over a chunk's lines leaves `fullResponse` extended by what the chunk adds, and the published log extended by that chunk's updates |
| ChatStream.FrameDecoder.ReadStream | components/chat/FloatingChatWidget.tsx:54-81 | the `while (true)` read loop, which ends only on `done`, leaves the accumulator equal to the decoded reply and the published log equal to its updates |
| ChatStream.ReplyText | components/chat/FloatingChatWidget.tsx:52-83 | the settled answer is the decoded stream when the body was read to the end, and the fixed error message when the fetch rejected, there was no body, or a read failed |
| ChatStream.ReplyEndsOnAnswer | components/chat/FloatingChatWidget.tsx:73-83 | the last value put on screen is the settled answer |
| ChatStream.DecodeReply | components/chat/FloatingChatWidget.tsx:54-83 | reading a body with a fresh decoder yields the settled answer and the screen log, with the error message last when a read failed |
| ChatStream.ChatWidget.constructor | components/chat/FloatingChatWidget.tsx:13-16 | the widget starts with an empty question, an empty active question, an empty answer and loading off |
| ChatStream.ChatWidget.EditQuestion | components/chat/FloatingChatWidget.tsx:170 | typing replaces the question and changes nothing else |
| ChatStream.ChatWidget.AskAI | components/chat/FloatingChatWidget.tsx:18-87 | an empty question sends nothing and changes nothing; otherwise the input is cleared, the question becomes the active one, the outgoing text is sent, the answer is reset to "" and then settles per `ReplyText`, and loading ends off |
| ChatStream.SplitFrameLosesDelta | components/chat/FloatingChatWidget.tsx:62-63 | a `text-delta` frame that arrives as the chunks `data: ` and `{...}` adds nothing, while the same text in one chunk adds the delta |
| ChatStream.BufferedFeedMatchesWhole | components/chat/FloatingChatWidget.tsx:62-63 | a decoder that holds back the partial last line decodes the pending text plus all chunks as one whole text |
| ChatStream.BufferedDecodeMatchesWhole | components/chat/FloatingChatWidget.tsx:62-63 | with the partial line held back, every cut of a reply into chunks decodes to the same text as the whole reply |
| Summarize.ErrorMessage | lib/actions/summarize.ts:104-105 | an `Error` reports its message; any other thrown value reports "Failed to generate summary" |
| Summarize.LessonDefaults | lib/actions/summarize.ts:19-21 | the title is the truthy title or "Untitled Lesson", and never empty; the description defaults to ""; absent content gives "" |
| Summarize.AudioUrl | lib/actions/summarize.ts:31-33 | the URL is `https://stream.mux.com/`, then the playback id, then `/audio.m4a`, each at its position |
| Summarize.AudioUrlInjective | lib/actions/summarize.ts:31-33 | different playback ids give different URLs |
| Summarize.AudioTarget | lib/actions/summarize.ts:26-33 | a URL is fetched exactly when the playback id is truthy, and it is that id's audio URL |
| Summarize.AudioOf | lib/actions/summarize.ts:34-45 | only an `ok` response yields audio, and it yields the response's bytes; a bad status or a thrown fetch yields none |
| Summarize.PromptText | lib/actions/summarize.ts:52-58 | the prompt holds the title, then the description, then the content, each at its fixed place in the template |
| Summarize.FinalPrompt | lib/actions/summarize.ts:61-65 | the final prompt extends the base prompt; it equals the base exactly when audio is present, and otherwise ends in the fallback sentence |
| Summarize.BuildRequest | lib/actions/summarize.ts:49-50 | both request shapes use `gemini-2.5-flash` and the same system prompt; without audio the request is the plain prompt; with audio it is one user message with a text part and then a base64 `audio/m4a` file part |
| Summarize.ResultOf | lib/actions/summarize.ts:96-107 | a generation that succeeds gives `success` with its text; one that throws gives a failure with the catch block's message |
| Summarize.Summarization | lib/actions/summarize.ts:9-108 | a request is built exactly when the lesson is found; audio is fetched exactly when the playback id is truthy, from that id's URL; the run succeeds exactly when a request was built and its generation succeeded |
| Summarize.SummarizeVideo | lib/actions/summarize.ts:9-108 | the step-by-step action, with `audioData` and `finalPrompt` reassigned in place, produces the run `Summarization` describes |
| Summarize.MissingLessonFails | lib/actions/summarize.ts:14-15 | a missing lesson fails with "Lesson not found", with no audio fetch and no request |
| Summarize.LessonQueryThrowFails | lib/actions/summarize.ts:100-107 | a failing lesson query fails with the thrown error's message, with no audio fetch and no request |
| Summarize.NoAudioFallsBack | lib/actions/summarize.ts:34-65 | with no playback id, a bad status or a thrown fetch, the action still sends the plain prompt with the fallback sentence, and its result is the generation's |
| Summarize.AudioIsAttached | lib/actions/summarize.ts:70-88 | with audio, the request is one user message: the prompt without the fallback sentence, then the audio as a base64 `audio/m4a` file |
| VideoSummarizer.CleanText | components/lessons/VideoSummarizer.tsx:56 | the cleaned text contains no `#`, `*` or backtick and is no longer than the summary |
| VideoSummarizer.CleanTextIsSubsequence | components/lessons/VideoSummarizer.tsx:56 | the cleaned text is a subsequence of the summary: the characters it keeps stay in their original order |
| VideoSummarizer.CleanTextCounts | components/lessons/VideoSummarizer.tsx:56 | every mark is removed, and every other character is kept as many times as it occurs |
| VideoSummarizer.CleanTextKeepsPlain | components/lessons/VideoSummarizer.tsx:56 | text without marks is unchanged |
| VideoSummarizer.CleanTextIdempotent | components/lessons/VideoSummarizer.tsx:56 | cleaning twice equals cleaning once |
| VideoSummarizer.CleanTextAppend | components/lessons/VideoSummarizer.tsx:56 | cleaning commutes with concatenation |
| VideoSummarizer.UnderscoreRuns | components/lessons/VideoSummarizer.tsx:61 | the result of `replace(/\s+/g, "_")` contains no whitespace and is no longer than the title |
| VideoSummarizer.UnderscoreKeepsPlain | components/lessons/VideoSummarizer.tsx:61 | a title without whitespace is unchanged |
| VideoSummarizer.UnderscoreIdempotent | components/lessons/VideoSummarizer.tsx:61 | replacing twice equals replacing once |
| VideoSummarizer.UnderscoreRun | components/lessons/VideoSummarizer.tsx:61 | a maximal whitespace run of any length becomes a single `_` |
| VideoSummarizer.UnderscoreAppend | components/lessons/VideoSummarizer.tsx:61 | a text that does not end in whitespace is replaced independently of what follows it |
| VideoSummarizer.UnderscoreWord | components/lessons/VideoSummarizer.tsx:61 | a word followed by a whitespace run keeps the word and turns the run into one `_` |
| VideoSummarizer.PdfFilename | components/lessons/VideoSummarizer.tsx:61 | the file name is the title with each whitespace run replaced by one `_`, followed by `_Summary.pdf`; the title part contains no whitespace |
| VideoSummarizer.PdfFilenameExample | components/lessons/VideoSummarizer.tsx:61 | "Intro  Dafny" gives "Intro_Dafny_Summary.pdf" |
| VideoSummarizer.FailureMessage | components/lessons/VideoSummarizer.tsx:31-34 | the error shown is never empty: a thrown call gives "An unexpected error occurred"; a result with a truthy error gives that error; any other result gives "Failed to generate summary" |
| VideoSummarizer.SummaryPanel.constructor | components/lessons/VideoSummarizer.tsx:19-21 | the panel starts with no summary, loading off and no error |
| VideoSummarizer.SummaryPanel.HandleSummarize | components/lessons/VideoSummarizer.tsx:23-38 | a rendered state with loading on and the error cleared comes first; then a successful, non-empty summary replaces the old one with no error, and any other outcome keeps the old summary and sets `FailureMessage`; loading ends off |
| VideoSummarizer.SummaryPanel.ClearSummary | components/lessons/VideoSummarizer.tsx:124 | the summary becomes none, nothing else changes, and `downloadPDF` then produces nothing |
| VideoSummarizer.SummaryPanel.DownloadPdf | components/lessons/VideoSummarizer.tsx:40-61 | nothing is produced exactly when the summary is falsy; otherwise the document has the heading "Lesson Summary: <title>", the cleaned summary as its text, and `PdfFilename` of the title as its name |

## Left out

- The agent loop, tool dispatch and the server side of the chat stream. `lib/ai/tutor-agent.ts` only configures a library agent. `app/api/chat/route.ts` only wraps authentication around the library's stream response. Neither has logic of its own to model.
- Network and I/O. These are `fetch`, `reader.read()`, the Sanity query and the Gemini call. Their outcomes are parameters: `ChatReply`, `LessonFetch`, `AudioFetch` and `Generation`.
- UTF-8 decoding by `TextDecoder`. Chunks are taken as already-decoded strings.
- `JSON.parse` and the field reads on its result. These are the parameter `Parser`, which yields `Event(kind, delta)`, or `None` where parsing or a field read throws.
- `toPlainText`, base64 encoding and jsPDF are foreign library calls.
  - `toPlainText` and base64 encoding are opaque function parameters, taken as total: the model does not capture either of them throwing, which inside the `try` (summarize.ts:21, 82) would end the run as `{success: false, error}` before any generation. `Summarization`'s "succeeds exactly when its generation succeeded" rests on this.
  - jsPDF's layout is not modelled: fonts, `splitTextToSize` and the page width all use floating point. `DownloadPdf` returns the document's heading, text and file name.
- Rendering, the open/close toggle and the JSX markup.
- The submit button being disabled while loading or while the question is blank (FloatingChatWidget.tsx:176). Only the handler's own empty-question check is modelled.
- Logging and the `Date.now()` message id.
- Concurrency. A second question cannot be asked while one is loading, and React batches state updates. `AskAI` and `HandleSummarize` each model one request from start to settle.
  - The ghost logs `responseLog` and `views` record the values handed to the screen in order.
  - They do not record how React batches those values into renders.
- ChatStream.FrameDecoder.FeedLine: a truthy `delta` whose string form is empty (such as `[]` or `[""]`) appends nothing, and the source then calls `setResponse` with the unchanged answer (FloatingChatWidget.tsx:72-74). The model does not log that call. `published`, `ChatWidget.responseLog` and the strict growth stated by `UpdatesPublish` and `StreamUpdatesPublish` cover only the calls that change the answer. React skips the render when a state is set to the value it already holds, so the screen is the same either way.
- Summarize.AudioOf: the response status of a failed audio fetch only reaches a log line, so the model carries it but does not use it.
- Summarize.Summarization: the lesson id only selects the lesson, through `fetchLesson`. What the Sanity query matches is not modelled.

## Findings

| source | as written | input that shows it | evidently intended | confidence | as-written member | corrected member |
|---|---|---|---|---|---|---|
| components/chat/FloatingChatWidget.tsx:62-63 | each chunk is split on "\n" by itself, so a frame line split across two chunks becomes two lines, neither of which is a whole frame | the chunks `data: ` and `{"type":"text-delta","delta":"Hi"}` (any `text-delta` frame cut right after its marker) add nothing to the answer | the trailing partial line of a chunk is held until the rest arrives, so that any cut of the reply into chunks decodes like the whole reply | not executed | ChatStream.SplitFrameLosesDelta | ChatStream.BufferedDecodeMatchesWhole |
