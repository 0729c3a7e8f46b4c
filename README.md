# Recipe-Assistant chat client: streamed reply consumer

This project models the part of the Recipe-Assistant browser client that
sends a chat message and reads the reply (`sendMessage` in
`static/js/script.js`). The reply arrives as newline-delimited JSON. The client:

- appends each decoded chunk to a string `buffer` and splits the buffer on `'\n'`;
- keeps the text after the last newline in `buffer` and handles every complete line in order;
- skips blank lines, and logs and drops lines that fail to parse;
- shows a truthy `error` and abandons the rest of that chunk;
- appends a `response` delta to `fullResponse` and shows the whole accumulation;
- only logs a `done: true` record.

A message that is blank after `trim()` is ignored. A failed request or a failed read shows a fixed apology.

Files and modules:

- `framing.dfy` (module `Framing`): `split('\n')`, the complete lines and the
  remainder of a text, and how they behave under concatenation.
- `records.dfy` (module `Records`): JavaScript `trim`, JSON values with
  their truthiness and string conversion, the classification of a line, and
  `ProcessLines`, which specifies the inner `for` loop. It also holds the
  per-line and whole-chunk lemmas.
- `consumer.dfy` (module `Consumer`): the class `StreamConsumer`. It holds
  `buffer`, `fullResponse`, the bot message text and the console log. Its
  `Feed` method runs the line loop and is proved against the function
  `FeedSpec`. `ReadAll` specifies the outer read loop. The chunk-boundary
  lemmas are here too.
- `chat.dfy` (module `Chat`): the class `ChatWindow` (input field and
  messages), `SendMessage`, the reading method `ReadReply`, the function
  `ReplyText` for the bot message's final text, and worked examples.

The model keeps these behaviours of the code:

- Nothing marks a turn as in progress, so a second message can be sent while a reply is still streaming.
- A truthy `error` ends only the handling of the current chunk, because `break` leaves the inner `for`. Later chunks are still read. They append to `fullResponse` and overwrite the shown error (`ErrorBreakIsPerChunk`).
- An empty-string `error` is falsy and is handled like a record without `error` (`EmptyErrorIgnored`).
- A `done: true` record only writes a log entry. Reading goes on until the reader reports done.
- Text left in `buffer` when the reader reports done is never parsed, so a final record without a trailing newline is lost (`TrailingSegmentLost`).
- An error record shows its own `error` text. The fixed apology is shown only when the request or a read fails.

## Model

| member | source | states |
|---|---|---|
| Framing.Split | static/js/script.js:102 | `split('\n')` always yields at least one segment |
| Framing.JoinSplit | static/js/script.js:102 | no segment of the split contains '\n', and joining the segments with '\n' gives the text back |
| Framing.SplitJoin | static/js/script.js:102 | splitting the '\n'-join of newline-free segments gives those segments back (the other round trip) |
| Framing.Complete | static/js/script.js:102-105 | definition: the lines the loop handles, every segment of `split('\n')` but the last |
| Framing.Rest | static/js/script.js:105 | definition: the new buffer, the last segment (`lines.pop()`); when that segment is empty, `|| ''` gives the same empty string, so the new buffer is always the last segment |
| Framing.Decompose | static/js/script.js:99-105 | framing invariant: the text equals its complete lines, each followed by '\n', plus the kept remainder; the remainder and the lines contain no '\n' |
| Framing.NoNewline | static/js/script.js:102-105 | a text releases no line exactly when it holds no '\n', and it then stays whole in the buffer |
| Framing.SplitAppend | static/js/script.js:99-105 | splitting `x + y` gives the complete lines of `x`, then the split of `x`'s remainder followed by `y` |
| Framing.CompleteAppend | static/js/script.js:99-105 | chunk step: lines released from `x + y` are those of `x` and then those of its remainder extended by `y`; the final remainder is the same |
| Records.IsSpace | static/js/script.js:108 | definition: the whitespace and line-terminator characters JavaScript's `trim()` removes |
| Records.SkipLeading | static/js/script.js:51 | scanning from the front stops at the first non-whitespace character; everything before it is whitespace |
| Records.SkipTrailing | static/js/script.js:51 | scanning from the back stops after the last non-whitespace character; everything after it is whitespace |
| Records.Trim | static/js/script.js:51-52 | `trim()` is empty exactly when the text is all JavaScript whitespace; otherwise it starts and ends with non-whitespace |
| Records.TrimCutsWhitespace | static/js/script.js:51 | `trim()` returns the text with only a leading and a trailing run of whitespace removed: a slice between an all-whitespace prefix and an all-whitespace suffix |
| Records.Truthy | static/js/script.js:113 | definition: the truthiness test `if (parsed.error)`; the empty string, `false`, `null`, 0 and NaN are falsy |
| Records.Text | static/js/script.js:115-123 | definition: string conversion of a JSON value by `textContent =` (115) and by `+=` onto `fullResponse` (121) |
| Records.Classify | static/js/script.js:108-130 | definition: a line is blank (`continue`), fails to parse (dropped), carries a truthy `error` (shown, then `break`), or is accepted with its `response` text if the key is present and whether `done === true` |
| Records.AcceptRecord | static/js/script.js:119-130 | definition: append the delta to `fullResponse` and show the whole of it; add a "stream complete" entry for `done` |
| Records.StepLine | static/js/script.js:108-134 | definition: the effect of one line on `fullResponse`, the shown text and the log, including the two `console.error` calls of the `catch` as one log entry |
| Records.ProcessLines | static/js/script.js:107-135 | definition: the inner `for` loop, lines in order until one with a truthy `error`, after which the loop stops |
| Records.BlankLine | static/js/script.js:108 | a whitespace-only line changes nothing and handling continues with the next line |
| Records.MalformedLine | static/js/script.js:109-134 | a line that fails to parse leaves `fullResponse` and the shown text unchanged, is logged, and handling continues |
| Records.DeltaLine | static/js/script.js:119-125 | a `response` without a truthy `error` makes `fullResponse` the old value plus the delta and the shown text that whole value; handling continues |
| Records.ErrorLine | static/js/script.js:112-117 | a truthy `error` is shown, any `response` on the same record is ignored, `fullResponse` is unchanged, later lines are abandoned |
| Records.EmptyErrorIgnored | static/js/script.js:113 | an empty-string `error` is not an error: the record is handled as if it had no `error` key |
| Records.DoneLine | static/js/script.js:113-130 | for any record whose `error` is absent or falsy, `done: true` only adds a log entry; handling continues exactly as for the same record without `done` |
| Records.FullIsDeltas | static/js/script.js:119-121 | without error lines, `fullResponse` grows by exactly the concatenated deltas of the lines, in order |
| Records.ShownIsFull | static/js/script.js:120-123 | without error lines, the shown text ends as the whole `fullResponse` if some record had a `response`, and is untouched otherwise |
| Records.LogCountsDone | static/js/script.js:127-133 | without error lines, the log only grows, by at least one entry per `done: true` record |
| Records.ReplyFromLines | static/js/script.js:89-125 | starting from nothing, lines without an error leave the concatenated deltas shown, or nothing if no record had a `response` |
| Records.FullGrows | static/js/script.js:121 | `fullResponse` and the log only ever grow by extension, error lines included |
| Records.ErrorAbandonsRest | static/js/script.js:113-117 | after the first error line no later line of the chunk is handled: the result is the error shown over what the earlier lines produced |
| Records.ProcessAppend | static/js/script.js:107-135 | handling `a + b` with no error line in `a` is handling `a`, then `b` |
| Records.HelloExample | static/js/script.js:119-130 | records "Hel", "lo", then `done` give `fullResponse` and shown text "Hello" and one completion log entry |
| Consumer.FeedSpec | static/js/script.js:99-135 | definition: one chunk appended to the buffer, its complete lines handled by the inner loop, the last segment kept |
| Consumer.ReadAll | static/js/script.js:92-136 | definition: the outer `while (true)` loop, chunks handled in arrival order until the reader reports done |
| Consumer.StreamConsumer.constructor | static/js/script.js:86-89 | reading starts with empty `buffer`, empty `fullResponse`, an empty bot message and no log |
| Consumer.StreamConsumer.Feed | static/js/script.js:99-135 | one chunk: the new state is `FeedSpec` of the old; old buffer plus chunk equals the released lines, each followed by '\n', plus the new buffer, which has no '\n' |
| Consumer.ReadAllBuffer | static/js/script.js:92-105 | when the reader reports done, `buffer` holds exactly the text after the stream's last '\n' |
| Consumer.ReleasedIsComplete | static/js/script.js:92-107 | the lines released across all chunks are the complete lines of the whole stream text, whatever the chunk boundaries |
| Consumer.SameTextSameLines | static/js/script.js:99-107 | two splittings of the same stream text release the same lines: every '\n'-separated segment of the text except the last |
| Consumer.ReadAllProcesses | static/js/script.js:92-135 | with no error line, reading chunk by chunk produces what handling all released lines at once produces |
| Consumer.ReadsStreamLines | static/js/script.js:88-135 | with no error line, reading the chunks from an empty buffer handles exactly the complete lines of the whole stream text |
| Consumer.ChunkingIrrelevant | static/js/script.js:92-135 | with no error line, the final state does not depend on where the stream was cut into chunks |
| Consumer.FullGrowsAcrossChunks | static/js/script.js:89-125 | across any chunks, `fullResponse` only grows by extension |
| Consumer.TrailingSegmentLost | static/js/script.js:92-105 | a newline-free tail at the end of the last chunk, alone or after other lines of that chunk, leaves `fullResponse`, the shown text and the log exactly as without it, error lines or not: a last record without a trailing newline is never parsed |
| Consumer.BufferHoldsNoLine | static/js/script.js:102-105 | after any chunks the buffer holds no '\n' |
| Consumer.TailReleasesNothing | static/js/script.js:99-105 | appending newline-free text after a chunk's last '\n' releases no further line |
| Consumer.ErrorBreakIsPerChunk | static/js/script.js:107-117 | an error line then a delta line shows the error when they share a chunk, but shows the delta when the stream is cut between them |
| Chat.ReplyText | static/js/script.js:82-143 | a refused request (the throw at 82-84) or a failed read leaves the fixed apology written by the `catch` at 138-143 as the bot message; otherwise the text the reading loop leaves shown (`ReadAll`) |
| Chat.ReadReply | static/js/script.js:86-136 | the read loop feeds every chunk in order to a fresh consumer; its result is the bot message text `ReadAll` specifies |
| Chat.Reply | static/js/script.js:70-143 | the request and the reading give the bot message exactly `ReplyText`: the apology on failure, otherwise what the reading loop leaves shown |
| Chat.ChatWindow.constructor | static/js/script.js:2-3 | the chat box and the input field a turn works on; modelled as starting with empty input and no messages |
| Chat.ChatWindow.SendMessage | static/js/script.js:50-143 | blank input changes nothing; otherwise the input is cleared and the trimmed user message and the bot message with `ReplyText` are appended |
| Chat.ReplyIsDeltas | static/js/script.js:92-135 | with no error line, the reply is the concatenated deltas of all complete lines of the stream text, for any chunking, or empty if no record had a `response` |
| Chat.MalformedLineSkipped | static/js/script.js:107-134 | "A", a malformed line, "B" and an unterminated `done` give the reply "AB" for every chunking |
| Chat.ErrorReplacesPartialReply | static/js/script.js:113-123 | "Hi" followed by an error "boom" leaves "boom" shown, not "Hi" |

## Left out

- `TextDecoder` with `stream: true` is not modelled. Chunks are taken as already-decoded strings, so multi-byte characters split across chunks are out of scope.
- `JSON.parse` is a parameter `parse`, a total classification of a line into `Malformed` or a record. A JSON `null` counts as `Malformed`, because its `.error` access throws into the same `catch`. Other non-object JSON values are records without keys.
- JSON values other than strings, booleans and `null` are described only by their truthiness and their `String(...)` text (`Value.Other`). Number formatting and object conversion are not modelled.
- `fetch`, `response.ok` and `reader.read()` are I/O. A turn receives a `Transport`. It is either a refusal (a thrown `fetch` or a non-OK status; both reach the same `catch`), or the list of chunks read plus whether a later read threw.
- Chat.ChatWindow.SendMessage: it writes the bot message once, with its final text. The source rewrites the message after each record; those intermediate renders are not kept.
- No turn-in-progress state exists, but SendMessage runs one turn to completion as a single call. Two turns interleaving their reads, which the source allows, cannot be expressed in this model.
- Console output is kept only as a log of parse failures and "stream complete" entries. The error text passed to `console.error` in the outer `catch` is not kept.
- DOM and presentation are left out: the welcome message, typing indicator, `scrollToBottom` timers, send-button opacity, `appendMessage` markup, `clearChat` with its `confirm`, the emoji button's `Math.random`, and `getTimestamp`.
- `app.py` (Flask routing, the MongoDB query, the streaming call to the model server) is network and database I/O and is not part of this model.
- `load_data.py` (CSV loading into MongoDB) is not part of this model.
