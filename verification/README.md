# AI consultation routes: streaming relay and report formatter

A Dafny model of the two server routes of the AI consultation web app. They
hold its only real logic.

- **Chat route** (`src/app/api/chat/route.ts`):
  - The request check.
  - The relay that reads the model's server-sent-events (SSE) stream. Each
    read is appended to a line buffer. The buffer is split on `"\n"` and the
    unterminated tail is kept. Every complete `data: ` line is run through
    the payload pipeline: trim, skip empty and `[DONE]`, extract the text,
    skip empty text.
  - Each fragment found is appended to `fullAnswer` and sent to the client.
  - When the loop ends, normally or by a failed read, the client stream is
    closed and the question and answer are logged once.
- **Report route** (`src/app/api/report/route.ts`):
  - The required-field check.
  - `escapeHtml`.
  - `formatAnswerToHtml`. It escapes the answer, splits it into lines, turns
    each trimmed line into one block element by a fixed regex precedence,
    and wraps runs of bullet lines in one `<ul>`.

Modules:

- `Strings`: shared text primitives.
  - The ECMAScript whitespace set and `trim()`.
  - `split("\n")` with its inverse.
  - The line-buffer view of a text: its complete lines and a pending tail.
- `SseDecoder`: the decoder.
  - `Step` is the loop body over one read.
  - `Decode` and `DecodeAll` specify one read and a sequence of reads.
- `JsValues`: JSON values and JavaScript truthiness.
- `ChatRoute`: the request check, plus two classes.
  - `Effects` is the ordered trace of what is done to the client stream and
    the logger.
  - `Relay` holds the `buffer` and `fullAnswer` state of the `start`
    callback.
- `HtmlEscape`: the four-stage replace chain.
  - A single-pass reference escaping it is proved equal to.
  - An unescaping that inverts it.
- `AnswerFormat`: the formatter.
  - The line regexes are written out as matchers on the trimmed line.
  - Lines become `Block`s.
  - Blocks are laid out as a sequence of pieces: open list, close list,
    element. The pieces are rendered to the route's exact markup.
  - `FormatLines` is the loop with the `inList` flag, proved against that
    layout.
- `ReportRoute`: the required-field check.

Behaviours of the code that the model keeps:

- An unset or placeholder API key gets the fixed apology reply with status
  200 (`route.ts:16-22`). It is returned before any stream exists, so
  nothing is logged for such a request.
- The `data: ` marker is tested on the untrimmed line. A line with a leading
  space or `\r` before `data:` is ignored. A trailing `\r` is removed by the
  payload trim.
- The stream's last line is dropped if no `"\n"` ends it. The loop exits on
  `done` without flushing the buffer.
- Nothing guards `controller.close()` against a second call. The relay calls
  it once, on its single exit path, and `Effects.Close` requires the stream
  to be open.
- A line whose text opens with bold, such as `**Note** …`, matches the
  bullet regex: the mark `*` may be followed directly by the item text.

## Model

| member | source | states |
|---|---|---|
| Strings.TrimStart | src/app/api/report/route.ts:127 | the result is a suffix of the input, and it is empty or starts with a non-whitespace character |
| Strings.TrimEnd | src/app/api/report/route.ts:127 | the result is a prefix of the input, and it is empty or ends with a non-whitespace character |
| Strings.TrimStartStrips | src/app/api/report/route.ts:127 | every character removed from the front is ECMAScript whitespace |
| Strings.TrimEndStrips | src/app/api/report/route.ts:127 | every character removed from the back is ECMAScript whitespace |
| Strings.Trim | src/app/api/report/route.ts:127 | definition of `trim()` as both ends stripped; its properties are stated by TrimIsInfix, TrimStartStrips and TrimEndStrips |
| Strings.TrimIsInfix | src/app/api/chat/route.ts:68 | `trim()` gives a trimmed infix of its input; everything before and after that infix is whitespace |
| Strings.Split | src/app/api/chat/route.ts:63 | `split("\n")` never gives an empty array, so `lines.pop()` always yields a piece |
| Strings.SplitPiecesHaveNoNewline | src/app/api/chat/route.ts:63 | no piece of the split holds a `"\n"` |
| Strings.SplitAt | src/app/api/chat/route.ts:63 | splitting at the first newline gives the text before it, then the split of the rest |
| Strings.JoinSplit | src/app/api/chat/route.ts:63 | joining the pieces with `"\n"` gives back the text |
| Strings.SplitJoinLines | src/app/api/chat/route.ts:63 | splitting newline-free pieces joined by `"\n"` gives back exactly those pieces |
| Strings.CompleteLines | src/app/api/chat/route.ts:63-66 | definition: the pieces before the last, which the loop runs through the pipeline; stated by SplitAt, SplitAppend and LineBufferSplit |
| Strings.Pending | src/app/api/chat/route.ts:64 | definition: the last piece, `lines.pop()`, kept as the new buffer; stated by LineBufferSplit and UnterminatedTail |
| Strings.SplitAppend | src/app/api/chat/route.ts:62-63 | appending text after `x` keeps `x`'s complete lines first and unchanged; the rest is the split of `x`'s pending tail plus the new text |
| Strings.LineBufferCarry | src/app/api/chat/route.ts:62-64 | carrying only the pending tail into the next read loses no line: the complete lines and the tail are those of the whole text |
| Strings.UnterminatedTail | src/app/api/chat/route.ts:59-64 | text with no newline adds no complete line and only lengthens the pending tail |
| Strings.LineBufferSplit | src/app/api/chat/route.ts:62-64 | the pending tail holds no newline, and the text is its complete lines, each with its `"\n"`, followed by the tail |
| Strings.Concat | src/app/api/chat/route.ts:74 | definition: the fragments joined with no separator, as `fullAnswer += text` builds it; stated by ConcatAppend |
| Strings.ConcatAppend | src/app/api/chat/route.ts:74 | concatenating two runs of fragments is concatenating their concatenations |
| SseDecoder.LineFragment | src/app/api/chat/route.ts:67-76 | definition of the per-line pipeline: the `data: ` test on the untrimmed line, the payload trim, the empty and `[DONE]` skips and the truthy-text test; stated by the skip lemmas, TextLineEmitted and DataLine |
| SseDecoder.Fragments | src/app/api/chat/route.ts:66-76 | at most one fragment per complete line, in line order |
| SseDecoder.FragmentsNonEmpty | src/app/api/chat/route.ts:73 | no fragment is empty, since empty text is falsy and skipped |
| SseDecoder.FragmentsAppend | src/app/api/chat/route.ts:66-81 | the fragments of two runs of lines are those of the first run followed by those of the second |
| SseDecoder.LineInContext | src/app/api/chat/route.ts:66-81 | a line's contribution does not depend on its neighbours, and the lines around it decode as they would alone |
| SseDecoder.NonDataLineSkipped | src/app/api/chat/route.ts:67 | a line not starting with `data: `, tested before any trim, contributes nothing |
| SseDecoder.EmptyOrDonePayloadSkipped | src/app/api/chat/route.ts:68-69 | a `data: ` line whose trimmed payload is empty or `[DONE]` contributes nothing, whatever the extractor says |
| SseDecoder.UnusablePayloadNone | src/app/api/chat/route.ts:70-79 | a payload that fails to parse, lacks the text field or holds empty text yields no fragment |
| SseDecoder.UnusablePayloadSkipped | src/app/api/chat/route.ts:70-79 | such a line is skipped, and the lines before and after it still decode as before |
| SseDecoder.TextLineEmitted | src/app/api/chat/route.ts:71-76 | a `data: ` line whose payload yields non-empty text emits exactly that text, between the fragments of its neighbours |
| SseDecoder.Decode | src/app/api/chat/route.ts:62-81 | definition of one read: the pending tail of buffer plus chunk, and the fragments of the complete lines; the loop body Step is proved equal to it |
| SseDecoder.DecodeAll | src/app/api/chat/route.ts:58-81 | definition of the read loop: reads in order, the buffer carried from each to the next; stated by DecodeAllIsOneRead, ChunkBoundaryInvariance and UnterminatedLastLineDropped |
| SseDecoder.DecodeNothing | src/app/api/chat/route.ts:62-64 | reading no text leaves a newline-free buffer as it is and emits nothing |
| SseDecoder.CarryThroughRead | src/app/api/chat/route.ts:62-64 | decoding `x` and then `c`, with `x`'s tail carried as the buffer, is decoding `x + c` |
| SseDecoder.DecodeAllLast | src/app/api/chat/route.ts:58-64 | if the earlier reads decode as one read of their text, so do the reads with one more chunk |
| SseDecoder.DecodeAllNext | src/app/api/chat/route.ts:58-64 | after `i + 1` reads the state is the state after `i` reads followed by one read of chunk `i` |
| SseDecoder.DecodeAllIsOneRead | src/app/api/chat/route.ts:58-66 | read-by-read decoding from a newline-free buffer equals decoding the whole concatenated text in one read |
| SseDecoder.ChunkBoundaryInvariance | src/app/api/chat/route.ts:62-66 | two chunkings of the same text emit the same fragments and leave the same buffer |
| SseDecoder.UnterminatedLastLineDropped | src/app/api/chat/route.ts:59-64 | a final chunk with no newline emits nothing; it only lengthens the buffer |
| SseDecoder.Step | src/app/api/chat/route.ts:62-81 | the loop body over one read: the new buffer holds no newline; buffer plus chunk is the complete lines, each with its `"\n"`, then the new buffer; the fragments are those of the complete lines, in order |
| SseDecoder.DataLine | src/app/api/chat/route.ts:67-76 | the per-line pipeline gives the line's fragment, and non-empty text only for a `data: ` line |
| ChatRoute.Admit | src/app/api/chat/route.ts:9-22 | 400 with a non-empty error exactly when `question` is missing, falsy or not a string; the upstream is called exactly when the question is a non-empty string and the key is set and not `placeholder`, and the prompt is the question; the apology reply has status 200 |
| ChatRoute.Sends | src/app/api/chat/route.ts:75 | definition: one client send per fragment, in order |
| ChatRoute.SendsAppend | src/app/api/chat/route.ts:75 | the sends of two runs of fragments are those of the first followed by those of the second |
| ChatRoute.Effects.constructor | src/app/api/chat/route.ts:54-55 | a new stream has had nothing done to it |
| ChatRoute.Effects.Enqueue | src/app/api/chat/route.ts:75 | sending to an open stream appends exactly that send to the trace |
| ChatRoute.Effects.Close | src/app/api/chat/route.ts:86 | closing an open stream appends the close to the trace |
| ChatRoute.Effects.AppendToSheet | src/app/api/chat/route.ts:88 | the log call appends exactly that row to the trace |
| ChatRoute.Relay.constructor | src/app/api/chat/route.ts:50-56 | the relay starts with an empty buffer and answer, and nothing sent |
| ChatRoute.Relay.Receive | src/app/api/chat/route.ts:59-81 | one read: the buffer becomes the pending tail of old buffer plus chunk; `fullAnswer` grows by exactly the fragments sent, which are those of the read's complete lines; the stream stays open |
| ChatRoute.Relay.Emit | src/app/api/chat/route.ts:66-76 | each fragment is appended to `fullAnswer` and sent, in order |
| ChatRoute.Relay.Run | src/app/api/chat/route.ts:56-88 | given the chunks read before the loop ended, by `done` or by a read that threw: the client receives exactly the fragments of the complete lines read, in order, then one close, then one log call whose answer is the concatenation of those fragments |
| HtmlEscape.ReplaceAll | src/app/api/report/route.ts:114 | a global replace of a character that is absent changes nothing, and the output holds only kept characters other than the replaced one, or characters of the replacement |
| HtmlEscape.EscapeHtml | src/app/api/report/route.ts:112-118 | definition: the four replaces in the source's order; stated by EscapeHtmlIsCharwise, EscapedHasNoMarkup, EscapeHtmlIdentity and UnescapeEscapeHtml |
| HtmlEscape.ReplaceAllAppend | src/app/api/report/route.ts:113-117 | a global single-character replace distributes over concatenation |
| HtmlEscape.EscapeHtmlAppend | src/app/api/report/route.ts:112-118 | `escapeHtml` distributes over concatenation |
| HtmlEscape.ReplaceAllChar | src/app/api/report/route.ts:114-117 | a one-character text is replaced exactly when it is the replaced character |
| HtmlEscape.EscapeHtmlChar | src/app/api/report/route.ts:113-117 | each character goes through the chain to exactly its entity, and an entity introduced by one stage is not touched by a later one |
| HtmlEscape.EscapeHtmlIsCharwise | src/app/api/report/route.ts:113-117 | the replace chain equals single-pass escaping of each character to its entity |
| HtmlEscape.EscapedHasNoMarkup | src/app/api/report/route.ts:113-117 | the output holds no `<`, `>` or `"` |
| HtmlEscape.EscapeHtmlIdentity | src/app/api/report/route.ts:112-118 | text without `&`, `<`, `>` and `"` is returned unchanged |
| HtmlEscape.EscapeLessThan | src/app/api/report/route.ts:114-117 | `escapeHtml("<")` is exactly `&lt;`, not re-escaped |
| HtmlEscape.EntityInInputEscapedAgain | src/app/api/report/route.ts:114 | an entity already in the input has its `&` escaped, so it shows as the characters it was |
| HtmlEscape.UnescapeEntity | src/app/api/report/route.ts:114-117 | each entity decodes back to its character, whatever follows it |
| HtmlEscape.UnescapeEscapeHtml | src/app/api/report/route.ts:112-118 | escaping loses nothing: decoding the entities gives back the input, so distinct answers escape to distinct texts |
| AnswerFormat.RunEnd | src/app/api/report/route.ts:147 | the end of the longest run of matching characters: all in the run match and the next one does not |
| AnswerFormat.MatchBracketHeading | src/app/api/report/route.ts:130 | `/^【(.+?)】$/` matches exactly when the line is `【`, a non-empty capture without line terminators, `】`; the line is the capture in brackets |
| AnswerFormat.MatchMarkdownHeading | src/app/api/report/route.ts:138 | definition of the heading matcher; proved equal to the regex on trimmed lines by MarkdownHeadingIsRegex |
| AnswerFormat.MatchBullet | src/app/api/report/route.ts:147 | definition of the bullet matcher; proved equal to the regex on trimmed lines by BulletIsRegex |
| AnswerFormat.MatchNumbered | src/app/api/report/route.ts:158 | definition of the numbered-item matcher; proved equal to the regex on trimmed lines by NumberedIsRegex |
| AnswerFormat.MarkdownHeadingIsRegex | src/app/api/report/route.ts:138 | on a trimmed line the heading matcher matches exactly when some way of matching `/^#{1,3}\s+(.+)$/` exists, and its capture starts after the longest whitespace run, as greedy `\s+` leaves it |
| AnswerFormat.BulletIsRegex | src/app/api/report/route.ts:147 | the same for `/^[・\-\*]\s*(.+)$/` |
| AnswerFormat.NumberedIsRegex | src/app/api/report/route.ts:158 | the same for `/^(\d+)[.．]\s*(.+)$/`: the number is the whole leading digit run |
| AnswerFormat.FindStars | src/app/api/report/route.ts:152 | the first `**` at or after a position: it is one, and there is none before it |
| AnswerFormat.Emphasize | src/app/api/report/route.ts:152 | every bold piece of `/\*\*(.+?)\*\*/g` is a non-empty capture without line terminators in which the lazy `.+?` passed no `**` |
| AnswerFormat.EmphasizeRoundTrip | src/app/api/report/route.ts:152 | the bold replace keeps every character: putting the `**` back around the bold pieces gives the text |
| AnswerFormat.RenderInline | src/app/api/report/route.ts:152 | definition: plain pieces as they are, bold pieces between `<strong style="color: #202124;">` and `</strong>` |
| AnswerFormat.RemoveStars | src/app/api/report/route.ts:141 | `replace(/\*\*/g, "")` does not lengthen the text and keeps only its characters |
| AnswerFormat.RemoveStarsLeavesNoPair | src/app/api/report/route.ts:141 | no `**` is left in the heading text |
| AnswerFormat.RemoveStarsIdentity | src/app/api/report/route.ts:141 | text without `**` is kept as it is |
| AnswerFormat.ClassifyTrimmed | src/app/api/report/route.ts:130-178 | definition of the if-chain over the trimmed line; its precedence and captures are stated by ClassifyPrecedence |
| AnswerFormat.Classify | src/app/api/report/route.ts:127 | definition: the trimmed line classified |
| AnswerFormat.ClassifyPrecedence | src/app/api/report/route.ts:126-178 | each block kind is chosen exactly when its regex matches and none tried before it (【】, markdown heading, bullet, numbered) matches, and carries that regex's captures; a line is a spacer exactly when it trims to nothing; any other line is a paragraph of its whole trimmed text |
| AnswerFormat.Blocks | src/app/api/report/route.ts:126-127 | definition: one block per line, in order, each that of its trimmed text |
| AnswerFormat.BoldLeadLineIsBullet | src/app/api/report/route.ts:147 | a line trimming to `**` plus text is a `*` bullet whose item text keeps the second `*` |
| AnswerFormat.Pieces | src/app/api/report/route.ts:126-179 | definition of the loop's output as pieces: each block preceded by the list tag `inList` calls for; stated by PiecesElements, PiecesDepth, PiecesOpens and BulletsInsideLists |
| AnswerFormat.Layout | src/app/api/report/route.ts:126-182 | definition: the pieces and a final close if a list is still open; stated by LayoutShape |
| AnswerFormat.PiecesElements | src/app/api/report/route.ts:126-178 | the loop emits exactly one element per line, in line order |
| AnswerFormat.PiecesDepth | src/app/api/report/route.ts:124-175 | after each line the list tags are balanced and never nest, and one list is open exactly when the last line was a bullet |
| AnswerFormat.PiecesOpens | src/app/api/report/route.ts:147-149 | a `<ul>` is opened once per run of consecutive bullet lines |
| AnswerFormat.LayoutShape | src/app/api/report/route.ts:126-182 | the whole output is balanced and ends with no list open, holds one element per line in order, and opens one list per bullet run |
| AnswerFormat.BulletsInsideLists | src/app/api/report/route.ts:132-175 | an element is a bullet exactly when a list is open where it stands |
| AnswerFormat.RenderBlock | src/app/api/report/route.ts:133-178 | definition of each block's markup with the route's exact tags and styles: the 【】 title as captured, the markdown title with `**` removed, item, numbered and paragraph text with bold applied, the number followed by `.` |
| AnswerFormat.Render | src/app/api/report/route.ts:123-182 | definition: the pieces' markup concatenated; FormatLines is proved to produce the render of the layout |
| AnswerFormat.RenderStep | src/app/api/report/route.ts:126-178 | one more line adds the list tag its block calls for, then the block's element |
| AnswerFormat.LineStep | src/app/api/report/route.ts:126-178 | after one more line, the list is open exactly when that line is a bullet, and the markup has grown by its tag and element |
| AnswerFormat.CloseOpenList | src/app/api/report/route.ts:132 | appends `</ul>` exactly when a list was open; the list is then closed |
| AnswerFormat.OpenListUnlessOpen | src/app/api/report/route.ts:149 | appends the `<ul>` exactly when no list was open; the list is then open |
| AnswerFormat.FormatLine | src/app/api/report/route.ts:127-178 | one loop pass appends the list tag and element of the line's block by the regex precedence; `inList` then says whether the line was a bullet |
| AnswerFormat.FormatLines | src/app/api/report/route.ts:123-182 | the loop and the final close produce the rendered layout of the lines' blocks; inside the loop `inList` holds exactly when one list is open |
| AnswerFormat.FormatAnswerToHtml | src/app/api/report/route.ts:120-183 | the output is the rendered layout of the blocks of the escaped answer's lines |
| AnswerFormat.SplitClean | src/app/api/report/route.ts:122 | every line of a text without `<`, `>` and `"` has none of them |
| AnswerFormat.ClassifyTrimmedClean | src/app/api/report/route.ts:130-177 | the captures taken out of a clean trimmed line are clean |
| AnswerFormat.ClassifyClean | src/app/api/report/route.ts:127 | a clean line trims to clean text and classifies to a clean block |
| AnswerFormat.EmphasizeClean | src/app/api/report/route.ts:141-177 | the bold replace and the `**` removal keep clean text clean |
| AnswerFormat.CleanBlockInserted | src/app/api/report/route.ts:133-178 | a block whose captures are clean inserts only clean text between its tags, bold pieces and the `**`-free heading title included |
| AnswerFormat.EscapedBlocksClean | src/app/api/report/route.ts:121-122 | since the answer is escaped before any markup is added, every block of its lines has clean captures, and every text the markup shows (titles as shown, numbers, plain and bold pieces) holds no `<`, `>` or `"` |
| ReportRoute.CheckRequired | src/app/api/report/route.ts:8-9 | rejected with 400 and the fixed error exactly when `email`, `question` or `answer` is falsy; otherwise the fields are passed on unchanged |
| ReportRoute.AbsentFieldRejected | src/app/api/report/route.ts:8-9 | a field that is missing, `null` or `""` gets the 400 reply |

## Left out

- UTF-8 decoding: `TextDecoder` is taken to deliver text, so chunks are strings. A multi-byte character cut between reads is not modelled.
- JSON parsing: `JSON.parse` and the field path `candidates[0].content.parts[0].text` are a parameter `extract`. A text field that is a truthy non-string, such as a number, would be sent by the route; it is not modelled.
- Network and SaaS calls are not modelled: the upstream `fetch` and its error replies (`route.ts:24-48`), the report's expansion request and its fallback (`report/route.ts:12-58`), the Resend e-mail send and its HTML template, and the spreadsheet client. `appendToSheet` is recorded as an event.
- Concurrency is reduced to the order of effects: `ReadableStream`, awaits, the unawaited `appendToSheet(...).catch` and client disconnects. A read that throws ends the `chunks` given to `Relay.Run`.
- `console.error` diagnostics and HTTP headers are not modelled; statuses are modelled only for the request checks.
- JsValues.Truthy: numbers are integers, so `NaN` and fractions are not modelled. Only zero versus non-zero matters to the checks.
- AnswerFormat.LayoutShape: `<ul>` balance is stated on the piece sequence (open list, close list, element) that is rendered. It is not stated by counting `<ul` and `</ul>` substrings in the final HTML.
- AnswerFormat.MarkdownHeadingIsRegex: stated for trimmed lines only, the only lines the route matches. The same holds for AnswerFormat.BulletIsRegex and AnswerFormat.NumberedIsRegex.
- AnswerFormat.Emphasize: stated as properties of the pieces and a round trip. It does not restate the full backtracking semantics of the regex engine.
