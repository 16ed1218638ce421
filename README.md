# Chat interface of AlphaInsights: bold formatting and the chat session

The chat page of AlphaInsights is a single client component, `ChatInterface`. It holds
four pieces of state: the transcript `messages`, the text box `input`, the busy flag
`isLoading` and the upload status line `uploadStatus`. Two asynchronous handlers change
that state:

- `handleSendMessage` posts a question to the chat endpoint and appends the answer, or a
  fixed apology.
- `handleFileUpload` posts a `.csv` file to the upload endpoint and reports the result.

Each message is rendered by `formatMessageContent`. It splits the text with the pattern
`/(\*\*.*?\*\*)/g` and shows the parts that start and end with `**` in bold.

This project models both pieces and proves properties of them.

- `wrappers.dfy`: `Option`.
- `jsstring.dfy`: the ECMAScript string built-ins the component uses. These are `trim`,
  `startsWith`, `endsWith`, `slice` and the LineTerminator class that the regular
  expression atom `.` refuses.
- `boldformat.dfy`: `formatMessageContent`, written as functions and lemmas.
  - `FindClose` follows the lazy loop `.*?\*\*`: it tries the closing `**` first, then
    consumes one code point that is not a line terminator.
  - `MatchAt` anchors the pattern at one position.
  - `SplitFrom` is the scan of `RegExp.prototype[@@split]` (ECMA-262, section 22.2.6.14).
    It keeps the end of the last match and a probe position. A match emits the text before
    it and the captured match itself.
  - `IsSplit` is a declarative reading of the same split, independent of the scan: a gap
    where the pattern matches nowhere, then pairs of (first match, next gap).
    `SplitCharacterised` proves that the two readings agree, in both directions.
- `chatsession.dfy`: the session.
  - Each handler is split at its `await fetch(...)` into two transition functions on a
    `Session` value. `Submit`/`FinishSend` model `handleSendMessage` and
    `PickFile`/`FinishUpload` model `handleFileUpload`.
  - The result of the request is a parameter: `Ok(text)` or `Fail`.
  - Requests that have been sent but whose handler has not resumed are recorded in
    `inFlight`. The component holds them only implicitly, as suspended handlers.
  - The class `ChatInterface` has the four state fields, with `inFlight` as a ghost field.
    Its methods update the fields in place, and each is proved to produce exactly the state
    its transition function gives.
  - `Step` models the page: the text box and the clip button are disabled while busy, and
    the submit button is guarded by the handler's own early return.
    `StepPreservesValid` and `RunPreservesValid` prove that, under these controls, at most
    one request is in flight, the busy flag says whether one is, and every question is
    answered by the turn right after it.

Two behaviours of the code are worth stating outright:

- **Upload while busy.** `handleFileUpload` (lines 71-81) never reads `isLoading`. Only the
  disabled clip button (line 218) keeps it from running while a request is in flight.
  `UploadWhileBusy` shows what the handler alone permits. Called while a question is in
  flight, it starts a second request. If the upload settles first, the busy flag drops
  while the question is still unanswered, and the upload notice becomes the turn after the
  question.
- **A whole-message bold span.** `split` with a capturing group returns `["", "**x**", ""]`
  for the message `**x**`, so the component renders an empty plain part, bold `x` and
  another empty plain part (`ExampleWhole`). In general the first part is empty exactly when
  a match starts the message (`LeadingMatchEmpty`), and the last part is empty exactly when
  the last captured match ends it (`TrailingMatchEmpty`).

Strings are sequences of Unicode code points, whereas the component works on UTF-16 code
units. For the operations modelled this makes no difference:

- Every character the pattern, `trim`, `startsWith`, `endsWith` and `slice` look at (`*`,
  line terminators, white space, `.csv`) is a single code unit.
- A surrogate pair is never a line terminator, in either reading.
- `.` consumes a supplementary character as two code units in JavaScript and as one
  code point here, and either way it lets the character through.
- `slice(2, -2)` removes two ASCII characters from each end of any part that starts and
  ends with `**`, so it cuts nowhere near a surrogate pair.

## Model

| member | source | states |
|---|---|---|
| JsString.Trim | app/components/ChatInterface.tsx:30 | `input.trim()` is the infix left after every trimmable code point is removed from both ends; its ends are not trimmable; it is empty exactly when every code point is trimmable |
| JsString.StartsWith | app/components/ChatInterface.tsx:119 | `part.startsWith(prefix)`: the prefix is the first code points of the part |
| JsString.EndsWith | app/components/ChatInterface.tsx:75 | `s.endsWith(suffix)`: the suffix is the last code points of s; used for `**` at line 119 and `.csv` at line 75 |
| JsString.Slice | app/components/ChatInterface.tsx:120 | `s.slice(start, end)`: negative indices count from the end, indices are clamped to the length, crossed bounds give "" |
| JsString.SliceStripsTwo | app/components/ChatInterface.tsx:120 | `part.slice(2, -2)` drops two code points from each end, and yields "" when the part is shorter than four |
| BoldFormat.FindClose | app/components/ChatInterface.tsx:117 | the lazy loop `.*?\*\*` from a position: the start of the closing `**`, trying it before consuming each non-line-terminator code point |
| BoldFormat.FindCloseSpec | app/components/ChatInterface.tsx:117 | the lazy `.*?\*\*` stops at the first `**` reachable without crossing a line terminator, and fails when there is none |
| BoldFormat.MatchAt | app/components/ChatInterface.tsx:117 | the end of the match of the pattern anchored at a position: an opening `**`, then `FindClose` after it |
| BoldFormat.MatchAtSpec | app/components/ChatInterface.tsx:117 | a match found at a position is the shortest match there; no result means the pattern cannot match there |
| BoldFormat.MatchAtIff | app/components/ChatInterface.tsx:117 | the matcher returns e at q exactly when s[q..e] is the shortest `**…**` on one line starting at q |
| BoldFormat.SplitFrom | app/components/ChatInterface.tsx:117 | the `split` scan: probe each position from the end of the last match; at a match emit the text before it and the match, and continue after it; at the end emit the rest |
| BoldFormat.SplitFromConcat | app/components/ChatInterface.tsx:117 | the split parts, concatenated in order, give back the text scanned |
| BoldFormat.SplitFromDelimited | app/components/ChatInterface.tsx:117 | every captured part (odd index) is `**`, text without line terminators, `**` |
| BoldFormat.Split | app/components/ChatInterface.tsx:117 | `content.split(...)` has an odd number of parts, they concatenate back to the content, and the captured ones are delimited single-line spans |
| BoldFormat.SplitFromIsSplit | app/components/ChatInterface.tsx:117 | the scan's result is a split in the declarative sense (gaps without matches, each followed by the first match after it) |
| BoldFormat.IsSplitUnique | app/components/ChatInterface.tsx:117 | any declarative split is the scan's result |
| BoldFormat.SplitCharacterised | app/components/ChatInterface.tsx:117 | a list of parts is a declarative split of the content if and only if it is `Split(content)` |
| BoldFormat.SplitSingleIff | app/components/ChatInterface.tsx:117 | the split is the content alone exactly when the pattern matches nowhere in it |
| BoldFormat.LeadingMatchEmpty | app/components/ChatInterface.tsx:117 | the first part is "" if and only if the content is empty or the pattern matches at position 0 |
| BoldFormat.TrailingMatchEmpty | app/components/ChatInterface.tsx:117 | with at least one captured match, the last part is "" if and only if the parts up to the last captured match already make up the whole content |
| BoldFormat.RenderPart | app/components/ChatInterface.tsx:119-122 | one part: bold with `slice(2, -2)` when it starts and ends with `**`, else plain |
| BoldFormat.FormatMessageContent | app/components/ChatInterface.tsx:116-124 | one fragment per split part |
| BoldFormat.RenderPartSpec | app/components/ChatInterface.tsx:119-122 | a part is bold if and only if it starts and ends with `**`; its bold text is the part without two code points at each end, "" for parts shorter than four; a plain fragment is the part itself |
| BoldFormat.RenderBold | app/components/ChatInterface.tsx:119-120 | `**t**` is rendered as bold t, for every t |
| BoldFormat.MatchesRenderBold | app/components/ChatInterface.tsx:117-120 | every captured match is rendered bold, its text is the match without its delimiters and contains no line terminator |
| BoldFormat.FormatNoMatch | app/components/ChatInterface.tsx:117-122 | text where the pattern matches nowhere gives one fragment; it is the plain text itself unless the text starts and ends with `**` |
| BoldFormat.MiddleSplit | app/components/ChatInterface.tsx:117 | "a **b** c" splits into "a ", "**b**", " c" |
| BoldFormat.ExampleMiddle | app/components/ChatInterface.tsx:116-124 | "a **b** c" renders as plain "a ", bold "b", plain " c" |
| BoldFormat.WholeSplit | app/components/ChatInterface.tsx:117 | "**x**" splits into "", "**x**", "" |
| BoldFormat.ExampleWhole | app/components/ChatInterface.tsx:116-124 | "**x**" renders as plain "", bold "x", plain "" |
| BoldFormat.TrailingSplit | app/components/ChatInterface.tsx:117 | "Q1 revenue was **$2M**" splits into the leading text, the match and "" |
| BoldFormat.ExampleTrailing | app/components/ChatInterface.tsx:116-124 | "Q1 revenue was **$2M**" renders as plain text, bold "$2M", plain "" |
| BoldFormat.ExamplePlain | app/components/ChatInterface.tsx:116-124 | any text without `*` is one plain fragment equal to the text |
| BoldFormat.QuirkLoneDelimiters | app/components/ChatInterface.tsx:119-120 | "**" and "***" are not matches, yet each renders as one empty bold fragment |
| BoldFormat.QuirkLineBreak | app/components/ChatInterface.tsx:117-120 | "**a\nb**" is not a match (the line break stops `.`), yet it renders as bold "a\nb" |
| BoldFormat.FormatMatches | app/components/ChatInterface.tsx:116-124 | the rendering by position: a fragment is bold exactly when it is a captured match |
| BoldFormat.MarkupRoundTrip | app/components/ChatInterface.tsx:116-124 | putting `**` back around the bold fragments of the rendering by position gives back the message |
| BoldFormat.FormatsDiffer | app/components/ChatInterface.tsx:119-122 | the component's rendering and the rendering by position differ exactly on uncaptured parts that start and end with `**` |
| BoldFormat.LoneDelimitersLost | app/components/ChatInterface.tsx:119-120 | for the message "**", the component's rendering loses its text ("****" when the delimiters are put back), the rendering by position keeps it |
| ChatSession.Submit | app/components/ChatInterface.tsx:28-40 | `handleSendMessage` up to its `await`: unchanged on the early return; otherwise the trimmed question appended, the box cleared, busy set and a chat request in flight |
| ChatSession.FinishSend | app/components/ChatInterface.tsx:42-68 | `handleSendMessage` after its `await`: the reply or the apology appended as an assistant turn, busy released, the request no longer in flight |
| ChatSession.PickFile | app/components/ChatInterface.tsx:71-81 | `handleFileUpload` up to its `await`: unchanged without a file; the CSV-only error status for another name; otherwise the sending status, busy set and an upload request in flight |
| ChatSession.FinishUpload | app/components/ChatInterface.tsx:83-113 | `handleFileUpload` after its `await`: on success the success status and one assistant notice naming the file; on failure the error status; busy released either way |
| ChatSession.ClearStatus | app/components/ChatInterface.tsx:104-107 | the timer callback: the status line becomes "" |
| ChatSession.EditInput | app/components/ChatInterface.tsx:210 | the text box's `onChange`: the box holds the new text |
| ChatSession.Step | app/components/ChatInterface.tsx:205-235 | one page event: typing and picking a file do nothing while busy (lines 212, 218), the form runs the send handler, a response resumes the oldest request, the timer clears the status |
| ChatSession.Run | app/components/ChatInterface.tsx:205-235 | a sequence of page events, one `Step` at a time |
| ChatSession.SendRejectedIsNoOp | app/components/ChatInterface.tsx:30 | `handleSendMessage` leaves the state unchanged if and only if the trimmed input is empty or a request is running |
| ChatSession.SendRoundTrip | app/components/ChatInterface.tsx:32-68 | an accepted send appends the trimmed question, clears the box and goes busy; once settled, exactly one assistant turn follows (the reply, or the apology on failure), earlier turns and the status are untouched and the busy flag is released |
| ChatSession.PickFileGuard | app/components/ChatInterface.tsx:73-81 | a picked file starts a request if and only if its name ends in `.csv`; otherwise only the status changes, to the fixed error text, and the transcript and busy flag are untouched |
| ChatSession.UploadRoundTrip | app/components/ChatInterface.tsx:80-109 | a settled upload releases the busy flag; success appends one assistant turn that names the file and ends with the endpoint's message and sets the success status; failure appends nothing and sets the error status |
| ChatSession.ExampleReportFiles | app/components/ChatInterface.tsx:73-81 | `report.csv` is sent, `report.txt` only sets the error status |
| ChatSession.InitialValid | app/components/ChatInterface.tsx:13-16 | the initial state satisfies the page invariant |
| ChatSession.StepPreservesValid | app/components/ChatInterface.tsx:205-235 | with the text box and clip button disabled while busy, every event keeps one request in flight at most, the busy flag in step with it, every question answered by the next turn, and the transcript append-only |
| ChatSession.RunPreservesValid | app/components/ChatInterface.tsx:205-235 | the same for any sequence of events |
| ChatSession.UploadWhileBusy | app/components/ChatInterface.tsx:71-109 | the upload handler itself ignores the busy flag: called while a question is in flight it starts a second request, and when that settles first, the flag drops while the question is unanswered |
| ChatSession.ScenarioRevenue | app/components/ChatInterface.tsx:28-69 | asking "What was Q1 revenue?" and getting "Q1 revenue was **$2M**" leaves both turns in the transcript, not busy, with "$2M" rendered bold |
| ChatSession.ChatInterface.constructor | app/components/ChatInterface.tsx:13-16 | empty transcript, empty box, not busy, empty status, nothing in flight |
| ChatSession.ChatInterface.SetInput | app/components/ChatInterface.tsx:210 | the box holds the typed text and nothing else changes |
| ChatSession.ChatInterface.HandleSendMessage | app/components/ChatInterface.tsx:28-40 | the fields become `Submit` of the old state; the text sent is the trimmed input, or nothing when the guard returns early |
| ChatSession.ChatInterface.ResumeSendMessage | app/components/ChatInterface.tsx:42-68 | the fields become `FinishSend` of the old state: one assistant turn appended, busy released |
| ChatSession.ChatInterface.HandleFileUpload | app/components/ChatInterface.tsx:71-81 | the fields become `PickFile` of the old state; the file is sent exactly when there is one and its name ends in `.csv` |
| ChatSession.ChatInterface.ResumeFileUpload | app/components/ChatInterface.tsx:83-113 | the fields become `FinishUpload` of the old state |
| ChatSession.ChatInterface.ClearUploadStatus | app/components/ChatInterface.tsx:104 | the status line is emptied and nothing else changes |

## Left out

- `fetch`, `response.ok`, `response.json()` and `FormData` (lines 43-51, 84-94) are network I/O. The result of each request is a parameter: `Ok(text)` with the reply's `response` or `message` field, or `Fail` for any error.
- A chat reply whose `response` is not a string is stored as it is (line 55); `content.split` at line 117 then throws while the message is rendered. An upload reply without `message` puts the text "undefined" in the status line and in the notice (lines 95, 100). Here both fields are always strings.
- The 3-second `setTimeout` that clears the status (lines 104, 107) is over-approximated by an event, `StatusTimerFired`, that may happen at any time. This covers an older timer clearing a newer status, but it also lets the status be cleared when no timer was scheduled, for example the CSV-only error status, for which lines 75-77 schedule none.
- The `Date.now()` message ids (lines 33, 53, 98) are not modelled.
- Scrolling, the refs and the reset of the file input (lines 17-26, 110-112) are DOM effects and are left out.
- The JSX markup and React keys (lines 126-245) are left out, except the `disabled` attributes at lines 212, 218 and 235, which `Step` models.
- React's batching of state updates and stale closures are left out. The handlers read the state current when they run.
- JavaScript strings may hold unpaired surrogates; the model's strings are sequences of Unicode code points and cannot.
- `app/layout.tsx` holds static metadata only and is not part of this model.

## Findings

| source | as written | input that shows it | evidently intended | confidence | as-written member | corrected member |
|---|---|---|---|---|---|---|
| app/components/ChatInterface.tsx:119-120 | a part is bold when it starts and ends with `**`, whether or not the pattern captured it | the message `**` (also `***`, and `**a\nb**` with a line break) renders as one bold fragment; for `**` and `***` it is empty and the asterisks vanish | only the captured `**…**` matches are bold; other text, asterisks included, is shown as written | medium; not executed | BoldFormat.LoneDelimitersLost | BoldFormat.MarkupRoundTrip |
