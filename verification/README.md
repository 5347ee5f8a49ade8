# RadiChat, verified

A Dafny model of one RadiChat batch session and proofs of what the program promises about it. `dafny verify dfyconfig.toml` checks the whole project.

The layers are those of the Go code, bottom up:

- `ByteText.dfy`, `Trimming.dfy`, `Source.dfy`: byte strings, `strings.TrimSpace` with the law that determines it, and a buffered reader over a finite source that ends in EOF or in an error.
- `Redaction.dfy`: the streaming secret filter and its whole-text counterpart. Both are explained by one notion, the cut of a text at the leftmost copies of the secret.
- `EventStream.dfy`, `Fields.dfy`, `Wire.dfy`: server-sent event reading with exact byte counts, and the mock server's printer, line-ending converter and segmenters as its inverse (a subset of sections 9.2.5 and 9.2.6 of the WHATWG HTML Living Standard; lone CRs end lines, a byte order mark is not stripped).
- `Delivery.dfy`, `Decoder.dfy`, `Verdicts.dfy`, `MockStream.dfy`, `Completion.dfy`: the stream decoder and its verdict in every case, the callback behind the filter, and one completion from reply to answer.
- `Conversation.dfy`: staged turns, oldest-pair trimming and overflow-checked accounting.
- `InputLines.dfy`: bounded input lines with physical line numbers.
- `Session.dfy`, `Runs.dfy`, `Repl.dfy`: the log of a run with what each entry must be, what that means for requests and lines, and the loop that produces it.
- `DuplicateKeys.dfy`: the recursive duplicate-key check over JSON tokens (section 4 of RFC 8259).

Objects whose methods update fields are classes, loops are loops, and each method is tied to a specification function or to ghost state; the lemmas are about those.

What is outside the program is a parameter. JSON decoding of a payload is an arbitrary function to outcome classes. The endpoint is an arbitrary reply per request, cancellation an arbitrary answer each time it is asked about, and every write to the caller's callback or the record file may fail. A lone read or write error is taken to persist.

## Where the code and its documents part

- `docs/protocol.md` says that a bearer token is not printed. Tokens may be any printable ASCII, and for some the mark itself completes a copy: with token `a[`, the text `aa[` is shown as `a[redacted]`. `NeverShownExactly` gives the exact set of tokens for which the promise holds on every text, a check of the token alone. Without square brackets the promise fails exactly for the parts of the word `redacted`.
- `docs/protocol.md` lists LF and CRLF as line ends; the code, followed here, also accepts a lone CR.
- `docs/cli.md` speaks of unrecovered turn failures; in the code a failed turn is never recovered, and EOF after any failed line exits 1, while `/quit` always exits 0 once its record is written.

## Model

| member | source | states |
|---|---|---|
| `Trimming.TrimSpaceSplits` | internal/repl/repl.go:91 | A text is white space, its trimmed part and white space, and that part neither starts nor ends in white space |
| `Trimming.TrimSpaceIs` | internal/repl/repl.go:91 | There is no other way to see a text so, whatever white space surrounds it |
| `Trimming.SpacesAreEncoded` | internal/repl/repl.go:91 | White space is the UTF-8 encoding of the code points with the Unicode property White_Space |
| `Redaction.CutIsUnique` | internal/client/client.go:318-343 | A text has exactly one cut into secret-free runs, copies and a held-back tail, so the pieces it arrived in cannot matter |
| `Redaction.CutOfIsCut` | internal/client/client.go:318-343 | Every text has such a cut, found by searching copy by copy |
| `Redaction.OnlineIsBatch` | internal/client/client.go:353-357 | Leftmost non-overlapping replacement on the whole text is the runs joined by marks, followed by the held-back tail |
| `Redaction.FilterPieces` | internal/client/client.go:318-343 | For every nonempty secret and every list of pieces, the pushes' outputs followed by `pending` are the replacement on the whole text |
| `Redaction.BatchRedaction` | internal/client/client.go:353-362 | The suffix test always holds, and the whole-text implementation gives what the online filter gives after its flush |
| `Redaction.PendingIsLongestPrefix` | internal/client/client.go:322-342 | `pending` is shorter than the secret and is the longest suffix, since the last copy, that starts the secret |
| `Redaction.LengthConserved` | internal/client/client.go:318-362 | Exact length of the shown text from copies and tail; at most ten times the input, and at most nine bytes more for secrets of ten bytes or more |
| `Redaction.ShownRuns` | internal/client/client.go:318-351 | What is shown is literal runs joined by marks, and no run holds a copy of the secret |
| `Redaction.FirstCopyShown` | internal/client/client.go:318-343 | The text before the first copy of the secret is shown as it is, and then `[redacted]` |
| `Redaction.TailShown` | internal/client/client.go:318-351 | Text where no copy starts and none may be growing is shown as it is, and a start of the secret at its end as `[redacted]` |
| `Redaction.NoMarkNoCopy` | internal/client/client.go:318-362 | When no part of the mark lines up with the secret, nothing shown holds the secret |
| `Redaction.NeverShownExactly` | internal/client/client.go:318-362 | The secret is never shown, in any text, if and only if no part of the mark lines up with it |
| `Redaction.LeaksWithoutBrackets` | internal/client/client.go:318-351 | For a secret without square brackets that condition is: it is not part of the word redacted |
| `Redaction.BracketTokenIsShown` | internal/config/config.go:333-344 | A token the configuration accepts, and a text in which the filter shows it |
| `Redaction.ValidTokensNeverShown` | internal/config/config.go:333-344 | For the tokens the configuration accepts: never shown, in any text, if and only if no part of the mark lines up; and they hold no line break |
| `Redaction.SecretFilter.constructor` | internal/client/client.go:311-316 | A filter starts with nothing pending and nothing given out |
| `Redaction.SecretFilter.Push` | internal/client/client.go:318-343 | After any push, all text given out and what is pending are the cut of all text pushed |
| `Redaction.SecretFilter.Flush` | internal/client/client.go:345-351 | With the flush, all text given out is the redaction of all text pushed |
| `Redaction.SecretFilter.StateOfWholeText` | internal/client/client.go:318-343 | The filter's state depends on the whole text only, and output plus pending is the batch replacement |
| `Redaction.SecretFilter.RedactAssembledText` | internal/client/client.go:353-362 | The assembled text is redacted to what the filter delivers, flush included |
| `EventStream.ReadSSELine` | internal/client/stream.go:177-223 | The first line by its first break, within the limit; the count reported is the bytes taken despite the look-ahead; no CR is ever kept to strip |
| `EventStream.ReadSSEEvent` | internal/client/stream.go:141-175 | The payload of the block up to a blank line, its error cases, and a count equal to the bytes taken |
| `Fields.FieldsRoundTrip` | internal/client/stream.go:141-234 | An event of comments, other fields and data fields, with and without the optional space or a colon, is read back exactly when it fits, as its data values with one LF between neighbours |
| `Fields.EveryLineIsPrinted` | internal/client/stream.go:155-171 | Every line there is is one of those, so that covers all events |
| `Fields.FieldAtColon` | internal/client/stream.go:225-234 | A field is its name and what follows the first colon, without one leading space |
| `Fields.SplitTells` | internal/client/stream.go:161 | A text is determined by what stands between its LFs |
| `EventStream.NextEvent` | internal/client/stream.go:141-175 | Every event takes at least one byte and no more than there are, so reading ends |
| `EventStream.EventCount` | internal/client/stream.go:141-223 | An event takes at most one byte more than a positive limit |
| `EventStream.EventSettled` | internal/client/stream.go:141-223 | An event whose last break cannot grow is the same whatever bytes follow and however the source ends |
| `EventStream.ReadAllIsGroup` | internal/client/stream.go:141-223 | For every stream and limit, the events read are the first groups of its lines split at blank ones, and all of them unless an event is too large |
| `Wire.BlockRoundTrip` | internal/client/stream.go:141-223 | Any field lines printed with any one line end are read back whole exactly when they fit, and are too large otherwise |
| `Wire.RawEventRoundTrip` | internal/mockllm/scenarios.go:55-56 | A printed event is read back as its payload, with its exact size, exactly when that size fits |
| `Wire.RawEventsRoundTrip` | internal/mockllm/scenarios.go:55-81 | A printed stream is read back as its payloads in order, and then the end of the source |
| `Wire.ToCrlf` | internal/mockllm/scenarios.go:102-113 | The converter's loop computes the conversion the next lemmas are about |
| `Wire.CrlfReplaces` | internal/mockllm/scenarios.go:102-113 | The conversion is: replace every CRLF by LF, then every LF by CRLF |
| `Wire.CrlfIdempotent` | internal/mockllm/scenarios.go:102-113 | Converting twice changes nothing more |
| `Wire.CrlfKeepsLines` | internal/mockllm/scenarios.go:102-113 | For every byte string the converted text has the same lines and the same unfinished rest |
| `Wire.CrKeepsLines` | internal/client/stream.go:207-219 | A text without CR has the same lines with every LF replaced by CR |
| `Wire.LineEndsKeepPayloads` | internal/mockllm/scenarios.go:102-113 | Converting line ends does not change the payloads read: of the two readings one begins with the other, and the one no large event stopped is the whole |
| `Wire.WireBytes` | internal/mockllm/fragment.go:39-49 | The wire is the segments one after the other |
| `Wire.Fragment` | internal/mockllm/fragment.go:63-80 | Nothing for invalid offsets; otherwise the slices between them, rejoining to the data |
| `Wire.FragmentEveryN` | internal/mockllm/scenarios.go:116-129 | Nonempty segments of n bytes, only the last one shorter, rejoining to the data |
| `Delivery.DeltaSink.OnDelta` | internal/client/client.go:238-252 | What the callback was handed is, at all times, what the filter has given out |
| `Delivery.DeltaSink.Flush` | internal/client/client.go:256-262 | After the flush the callback was handed the redaction of all deltas |
| `Decoder.DecodeStream` | internal/client/stream.go:31-135 | On every exit the deltas passed on are the returned text, a prefix of the stream's deltas within the limit; the result is the fold over the payloads, unless cancellation or a failing write cut it short |
| `Decoder.TakeChunk` | internal/client/stream.go:78-116 | One choice's checks in order; only accepted text is passed on |
| `Decoder.SucceedsExactly` | internal/client/stream.go:39-134 | Decoding succeeds if and only if [DONE] is reached within the limits, every payload is acceptable, there is a choice, the last finish reason is allowed and the output fits; its text is then all deltas |
| `Verdicts.FinishesBy` | internal/client/stream.go:119-134 | After [DONE] with all payloads accepted, the last nonempty finish reason decides: none, "stop" or "length" succeed with it, any other fails with the text kept, and no choice at all fails without text |
| `Verdicts.StopsAt` | internal/client/stream.go:70-106 | The first payload that is not accepted ends the turn with the error of its kind and the text before it |
| `Verdicts.EndsWithoutDone` | internal/client/stream.go:46-65 | Without [DONE] the text so far is kept with the error the stream ended in |
| `Verdicts.ScriptFails` | internal/client/stream.go:43-65 | That error is the limit exceeded, or else follows from how the source ended |
| `Verdicts.AcceptedMost` | internal/client/stream.go:70-106 | One of these cases always applies |
| `Decoder.ScriptOfLines` | internal/client/stream.go:39-77 | The payloads up to [DONE] are always the first of those of the text's lines, and all of them unless a limit ended the script |
| `Decoder.ScriptSettled` | internal/client/stream.go:73-76 | Bytes after a settled [DONE] event, and the way the source then ends, change nothing |
| `MockStream.StreamDecodes` | internal/mockllm/scenarios.go:56-81 | A mock stream of plain payloads and the marker is decoded as exactly those payloads, whatever follows |
| `MockStream.MockTurn` | internal/client/client.go:232-267 | Printed, read, decoded and filtered: in calm conditions the turn of a good mock stream is the shown deltas of its payloads, its finish reason and no error, whatever follows |
| `MockStream.PaddedDone` | internal/client/stream.go:66-73 | [DONE] with white space around it ends the stream |
| `MockStream.BlankIsSkipped` | internal/client/stream.go:66-69 | An event whose data is white space is passed over |
| `Completion.LimitIsUnseen` | internal/client/client.go:232-235 | Reading through the limit, one byte past the stream limit, gives the script of the whole body, for every body and limit |
| `Completion.Client.StreamResult` | internal/client/client.go:152-268 | The text is the deltas of some first payloads as shown; the turn is the one the reply alone decides unless cancellation or a failing write cut it short; what the caller was handed is the text, but for a last mark when an error comes before the flush |
| `Completion.Client.DecodeBody` | internal/client/client.go:232-267 | The same for a streaming body of any length; the script behind it is that of the body itself |
| `Completion.Client.AnswersGood` | internal/client/client.go:232-267 | Success means a good body whose deltas are all shown and handed on, and in calm conditions a good body always succeeds |
| `Completion.Client.ShowText` | internal/client/client.go:253-263 | The returned text is redacted as a whole; on success the flush makes what was handed on equal to it |
| `Completion.LaterBytesIgnored` | internal/client/client.go:232-253 | Bytes after a settled [DONE] do not change the turn, through the stream limit too |
| `Completion.TokenNotShown` | internal/client/client.go:254-256 | No returned text shows a token that does not line up with the mark |
| `Completion.ShownLength` | internal/client/client.go:254-256 | A shown text is at most ten times its deltas, and equal to them without a token |
| `Conversation.Estimate` | internal/chat/conversation.go:139-152 | The exact sum, or overflow exactly when the sum exceeds 64 bits |
| `Conversation.Fits` | internal/chat/conversation.go:155-178 | The exact comparison, with each error exactly in its case |
| `Conversation.TrimIsLeast` | internal/chat/conversation.go:58-75 | The number of dropped oldest pairs is the least that makes the request fit, and exists whenever system and user message alone fit |
| `Conversation.TrimToFit` | internal/chat/conversation.go:58-75 | The trimming loop finds that number and never runs out of pairs to drop; its request is in order and fits |
| `Conversation.RequestInOrder` | internal/chat/conversation.go:115-127 | System message first, then the kept history message by message, the user message last; user and assistant alternate |
| `Conversation.Conversation.constructor` | internal/chat/conversation.go:34-40 | Empty history, and a system message exactly for a nonempty prompt |
| `Conversation.Conversation.Stage` | internal/chat/conversation.go:43-76 | Success exactly when system and user message alone fit, short of overflow; the request has the system message first, the kept history in order and the new message last, and fits; committed history is unchanged |
| `Conversation.Conversation.Commit` | internal/chat/conversation.go:79-86 | The history becomes the staged one with the new pair, and stays in complete pairs |
| `Conversation.Conversation.Abort` | internal/chat/conversation.go:89-91 | A stage that trimmed and is aborted leaves history as it was |
| `Conversation.Conversation.Clear` | internal/chat/conversation.go:94-97 | Nothing committed or staged remains |
| `InputLines.SplitRejoins` | internal/repl/input.go:58-88 | The physical lines rejoin to the input |
| `InputLines.SplitAtEveryLf` | internal/repl/input.go:58-88 | No physical line holds an LF |
| `InputLines.Drain` | internal/repl/input.go:77-84 | An overlong line is taken exactly through its own LF |
| `InputLines.ReadBoundedLine` | internal/repl/input.go:58-88 | A line is rejected exactly when its bytes before the LF exceed the bound; the bytes taken are exact |
| `InputLines.TakeLine` | internal/repl/input.go:30-88 | One read from a line start is the next line of the whole input's split, and ends at a line start |
| `InputLines.InputReader.ReadLine` | internal/repl/input.go:30-56 | The k-th result is the k-th physical line with number k and all trailing CRs removed, or its rejection, or the end |
| `Session.SystemPromptFits` | main.go:144-159 | The startup check accepts exactly the configurations whose prompt is empty or, with 96 units and the reserve, is within the budget |
| `Session.AcceptedFits` | internal/chat/conversation.go:58-75 | A request sent in a run fits the budget, and would not with fewer pairs dropped |
| `Session.RejectedNeverFits` | internal/chat/conversation.go:47-57 | A message found not to fit would not with any number of pairs dropped |
| `Session.LogTrims` | internal/repl/repl.go:124-182 | In every run the committed history is the last k pairs of the ok records since the last clear, and k plus their trimmed pairs is their number |
| `Session.CommittedStep` | internal/repl/repl.go:124-206 | Ok records extend the history, clear records empty it, and all others change nothing |
| `Session.WrittenSaysHistory` | internal/repl/repl.go:176-206 | The accepted records alone determine the history, unless the record of the very last change was refused |
| `Session.HistoryIsBounded` | internal/chat/conversation.go:139-178 | After any run the estimate of system prompt and history is at most twice the budget, less the reserve, plus 32 (with a token, eleven times the budget) |
| `Session.NoOverflowInRun` | internal/chat/conversation.go:43-76 | With a budget up to 2^61 (2^59 with a token) no turn of any run fails by accounting overflow |
| `Session.AnswersHideToken` | internal/repl/repl.go:176-182 | No recorded answer of any run shows a token that does not line up with the mark |
| `Session.OutputHidesToken` | internal/repl/repl.go:140-182 | For such a token without a line break, as every accepted one is, nor does all that a run prints to the output, taken together and failing turns included |
| `Session.CalmRunsAgree` | internal/repl/repl.go:59-189 | With nothing cancelled and no delta write failing, records, requests and answers of a run are decided by configuration, input and replies |
| `Session.RecordLinesIncrease` | internal/repl/repl.go:59-189 | Record line numbers strictly increase, and a line taken has a record exactly when it is overlong or not blank |
| `Runs.RequestsInOrder` | internal/repl/repl.go:124-147 | Every request of a run is the system prompt unless empty, the history committed at that time without its oldest pairs, message by message, and the line; roles alternate |
| `Runs.CommandLines` | internal/repl/repl.go:100-121 | Quit and clear records are exactly those of lines that are the command between white space; unknown commands exactly those of other lines whose first byte after white space is a slash |
| `Runs.BlankLines` | internal/repl/repl.go:91-99 | A line within the bound leaves no record exactly when it is white space throughout |
| `Runs.LongLines` | internal/repl/repl.go:51-85 | Lines recorded as too long are exactly those longer than 4096 bytes and than the budget |
| `Runs.CancelledIsInterrupted` | internal/repl/repl.go:155-174 | A call that ends cancelled is recorded as interrupted, never as an error, and ok records are exactly those of calls without error |
| `Repl.Recorder.Emit` | internal/repl/repl.go:212-217 | The writer holds the accepted records in order; success exactly when there is no writer or it accepts the record |
| `Repl.CallAndSettle` | internal/repl/repl.go:147-175 | The answer decides between commit and abort; no turn stays staged, the commit cannot fail, and the output is what the call handed on and the line break |
| `Repl.PrintBreak` | internal/repl/repl.go:148-154 | A line break is printed after an answer that does not end in one, and after an empty answer without error |
| `Repl.TakeTurn` | internal/repl/repl.go:124-188 | One message line: its request is the system prompt, the history trimmed least, and the line, in that order; its record is what came of it |
| `Repl.HandleCommand` | internal/repl/repl.go:192-210 | Handled exactly when the line is /quit or /clear between white space, with their records and exits |
| `Repl.HandleOverlong` | internal/repl/repl.go:78-85 | An overlong line leaves an unsent error record without input |
| `Repl.HandleLine` | internal/repl/repl.go:100-188 | A nonblank line leaves exactly one record, and the loop goes on unless that is a quit, an interruption or a failed write |
| `Repl.TakeGot` | internal/repl/repl.go:91-189 | A line within the bound leaves one right record unless it is blank, and the last line ends the run with the exit code of the log |
| `Repl.TakeOverlong` | internal/repl/repl.go:78-85 | An overlong line is recorded, counts as a failure, and ends the run only when its record is refused |
| `Repl.OneLine` | internal/repl/repl.go:59-189 | One turn of the loop keeps log, history, requests, output and failure flag in agreement |
| `Repl.Run` | internal/repl/repl.go:45-190 | Over whole runs: one right record per handled line taken; history, requests and output as the log says; the accepted records saying the same history; nothing after a quit or failed write; a write failure only with a writer that fails; nothing staged, too long exactly the lines over 4096 bytes and the budget, and the exit code from the log |
| `DuplicateKeys.ValueDecides` | internal/config/config.go:388-436 | On the tokens of any value, whatever follows, the check takes exactly those tokens if no object at any depth repeats a key, and reports a key that some object repeats otherwise |
| `DuplicateKeys.ConsumeJSONValue` | internal/config/config.go:383-436 | The recursive method decides as that specification does, on every token stream |

## Left out

- HTTP transport, TLS, redirects, timers and connection closing: a reply is its outcome, and a cancelled connection is a source that ends in an error.
- The goroutine of `ReadLine`: an interrupted wait takes nothing from the input; what the goroutine still reads is not observed, as the session ends.
- `UnreadByte` failing: it cannot after a successful read, so the branch that would keep a CR is not modelled.
- JSON encoding and decoding, delta text extraction and error classification: arbitrary outcome classes of a payload.
- Wording of errors, redaction of error messages, prompts and trim notices.
- Flag parsing, files, environment lookup, endpoint and token validation.
- Token syntax in `DuplicateKeys`: the decoder delivers tokens and a syntax error is the end of the stream.
- The mock server and its recorder, segment delays, the scenario catalog, the OCI verification scripts.
- The machine's memory: byte counts and lengths are unbounded integers, except in context accounting, where 64-bit overflow is explicit.
