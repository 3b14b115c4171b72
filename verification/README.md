# fizzpy: verified model of the response path

This project models what happens to a response in fizzpy between the TLS read callbacks and the parsed `Response`,
and the client around it: the core's read state machine (`_core.cpp`), the blocking socket (`fizzpy/_tls.py`), the
incremental HTTP/1.1 parser and the request builder (`fizzpy/_http.py`), and the pool, resend and redirect protocol
(`fizzpy/__init__.py`, `fizzpy/aio.py`, `fizzpy/_common.py`). `dafny verify dfyconfig.toml` checks all of it.

## How it is laid out

Code that updates objects in place is a class whose methods are proved equal to a function on the object's state
(`Headers`, `ResponseParser`, `TlsConnection`, `TlsSocket`, `Client`; also the loops `BuildRequest`, `RunExchange`,
`RunPerform`, `RunRequest`). The theorems are about those functions and about all runs of state machines built from
them.

| file | what is in it |
|---|---|
| `ByteStrings.dfy`, `PyInt.dfy` | `find`, `split`, `strip`, `lower`, `join`; `int(text, base)` with sign, underscores and `0x`; `str(n)` |
| `HeaderMap.dfy`, `FieldLists.dfy` | the header mapping, against the plain list of lines added to it; values sent on several lines |
| `ParserSpec.dfy` | one `_parse` pass as a function on the parser's fields |
| `HttpParser.dfy` | the parser as a class with the source's fields and loops, and its work bound |
| `Segmentation.dfy` | cutting the input differently changes nothing |
| `Framing.dfy` | bytes kept, phases ordered, one framing, exact consumption, early EOF |
| `Grammar.dfy` | status lines, header sections and chunked bodies written out, and read back |
| `HeaderSection.dfy` | header sections with folded lines, and exactly when they are read as RFC 9112 means them |
| `ContentCoding.dfy` | what decompression can change about a response, and exactly when it makes the parser raise |
| `MessageFraming.dfy` | how header lines and status code decide where a body ends, and what whole messages parse to |
| `Rejections.dfy` | what the parser refuses, and with which error |
| `Requests.dfy` | the request builder, against a reference request parser |
| `TlsRead.dfy` | the read callbacks, with every interleaving of reads, data, EOF, errors, deadlines and close |
| `TlsStream.dfy` | `recv` on top of them, with every interleaving of the two; `timeout_to_ms` |
| `Exchanges.dfy` | the read loop of `_exchange` against the one-shot parse; `_perform` and the resend rule |
| `ConnectionPool.dfy` | any number of tasks sharing a client: ownership and request/response matching |
| `PoolHistory.dfy` | what the pool does with connections over a run, told from its events: keys, reuse, closing, number of writes |
| `Refinement.dfy` | the pool's connections and exchanges are those of `TlsRead.dfy` and `Exchanges.dfy` |
| `Redirects.dfy` | the loop of `request`, against any server |

## How the pieces compose

1. The parser's outcome depends only on the bytes fed (`AnyTwoSegmentations`).
2. What reads return is the delivered stream, in order and without loss (`RunsKeepInv`, `ReadsRefinePipe`,
   `StreamConservation`).
3. So an exchange is independent of scheduling (`ScheduleIndependence`), and one that returns leaves its connection
   with nothing unread and no read outstanding (`ReturnsAtRest`), because a self-delimited answer is consumed exactly
   (`ExactConsumption`).
4. The pool's model is built from these: each step of a connection that a task reads from is a step of the model or
   one the task does not see (`NetStepIsSysStep`), and each task, among any number of others, is always where the read
   loop is on what its reads were told (`EveryTaskIsReadLoop`).
5. So pooled connections are clean, no two operations overlap on a connection, and every response belongs to its own
   request (`PoolOwnsExclusively`, `OperationsNeverOverlap`, `ResponsesMatchRequests`). The contract of at most one
   outstanding read, which the core does not check (`OverlappingReadIsLost` shows what breaking it costs), is
   discharged here.
6. Told from the events of a run alone: what a read is told (`ReadToldByEvents`), what a request returns
   (`PerformReturns`), which connection it uses (`PoolIsAskedFirst`, `KeptIsTakenNext`, `ConnectionsKeepTheirKey`), and
   which answers are followed (`FollowedExactly`).

## What is assumed

- Bytes are Latin-1 characters, so `decode("latin-1")` is the identity.
- Each event-loop callback is one atomic step. The transport delivers non-empty buffers, and nothing after it has
  reported end of stream or an error, or after a local close.
- For request/response matching, the peer answers each request with one self-delimited final response and sends
  nothing else, but may close at any time, also in the middle of an answer. Responses to HEAD, interim (1xx)
  responses and unsolicited bytes are excluded by that hypothesis, not handled by the client.
- Parser errors are final: the client drops a parser that has raised.
- The decompressors and the resolution of a relative URL are parameters. A decompressor returns data, raises an error
  that `_decompress` catches, or raises another one. `CutGzipRaises` assumes one fact of the gzip library: a stream cut
  inside its ten-byte header (section 2.3 of RFC 1952) raises EOFError.

## Where the code and its documentation disagree

The model follows the code.

- `feed_eof` (`fizzpy/_http.py:245-251`) promises that an early EOF in a body is tolerated by finalizing with what was
  received. For a chunked body that has not reached its trailers it raises instead, or, on a chunk boundary, leaves the
  response incomplete (`CutChunkRaises`); and for a gzip body cut short the decompressor raises EOFError
  (`CutGzipRaises`).
  `EarlyEofTolerated` is the exact condition.
- 1xx, 204 and 304 "carry no body regardless of headers" (`fizzpy/_http.py:327`), but Transfer-Encoding is looked at
  first: with a line that says chunked the parser waits for chunks, as after a 204 (`NoContentWaits`). `BodilessExactly`
  is the exact condition.
- `append_to_last` (`fizzpy/_http.py:99-106`) promises to extend the most recently added value. After lines named
  A, B, A it extends B's value (`ContinuationMisplaced`; `AppendToLastExactly` is the exact condition). On an empty
  mapping it raises StopIteration, not the KeyError it documents; the parser never gets there.
- Folded lines are handled "per RFC 7230" (`fizzpy/_http.py:100-104`, `fizzpy/_http.py:303-309`). Apart from the case
  above, a value that begins on the continuation keeps a leading space, as in a `Location` header broken after its colon
  (`ValueOnNextLine`), and one whose last continuation is empty a trailing space. Folded or not, a value loses the bytes
  0x85 and 0xA0 at its ends, which are part of it in RFC 9110 and white space to `str.strip` (`HighSpaceLost`).
  `SectionReadsExactly` is the exact condition for whole sections.
- `_decompress` (`fizzpy/_http.py:460-462`) means to surface the raw bytes of a body that cannot be decompressed.
  `gzip.decompress` raises EOFError on a truncated stream, which is not among the errors caught. `CompletesExactly` is
  the exact condition for every message, `GzipLength` and `GzipChunked` are its cases for gzip.
- `Client` (`fizzpy/__init__.py:81-83`) says that dead pooled connections are replaced for idempotent retries. The
  method plays no part in the decision: a POST whose pooled connection is closed before the response begins is sent
  twice (`PostSentTwice`). `IdempotentRetriesExactly` is the exact condition.

## Model

| member | source | states |
|---|---|---|
| `HeaderMap.Headers.Add` | fizzpy/_http.py:87-92 | the loop-and-update form is insertion into an insertion-ordered dict: a known lower-case key gets the value appended, a new one goes last |
| `HeaderMap.Headers.AppendLast` | fizzpy/_http.py:99-106 | the text is folded onto the last value of the dict's last key; on an empty mapping it fails and changes nothing |
| `HeaderMap.Headers.AllItems` | fizzpy/_http.py:126-130 | one pair for each value, in the dict's order |
| `HeaderMap.GetListIsFilter` | fizzpy/_http.py:94-97 | after any sequence of `add` calls, `get_list` is the case-insensitive, order-preserving filter of the lines added |
| `FieldLists.GetJoins` | fizzpy/_http.py:108-112 | `get` is the values of the lines with that name, in any case and in order, joined with a comma and a space; None if there is none |
| `FieldLists.TwoValues` | fizzpy/_http.py:108-112 | for two lines: the first value, a comma and a space, the second |
| `FieldLists.GetSays` | fizzpy/_http.py:322-324 | searching the joined value for a word such as chunked or close finds it exactly when one of the lines has it, in any case |
| `HeaderMap.ItemsAreGrouped` | fizzpy/_http.py:126-130 | `items` is the stable grouping of the lines added by first appearance of their name |
| `HeaderMap.GroupedCount` | fizzpy/_http.py:126-130 | that grouping has exactly as many lines as were added |
| `HeaderMap.FromLinesKeys` | fizzpy/_http.py:81-92 | keys are distinct, and the dict's last key is the newest distinct name |
| `HeaderMap.AppendToLastExactly` | fizzpy/_http.py:99-106 | `append_to_last` changes exactly the most recently added line if and only if that line's name is the newest distinct name |
| `HeaderMap.ContinuationMisplaced` | fizzpy/_http.py:99-106 | the counterexample: after A, B, A the text lands on B's value |
| `HeaderSection.FieldReads` | fizzpy/_http.py:310-315 | a field line with any optional white space is added with its name and value stripped as `str.strip` does |
| `HeaderSection.ContinuationReads` | fizzpy/_http.py:303-309 | a folded line extends the mapping's last value, and is rejected when no header precedes it |
| `HeaderSection.ShortStays` | fizzpy/_http.py:300-315 | once a continuation has been misplaced, no later line of the section makes the result right again |
| `HeaderSection.UnfoldsExactly` | fizzpy/_http.py:300-315 | for every section of lines the parser takes for fields and continuations, whatever bytes they have: each continuation goes to the line before it if and only if every one follows a line whose name is the newest distinct name so far |
| `HeaderSection.SectionReadsExactly` | fizzpy/_http.py:300-315 | for every section of fields and continuations: read as sections 5.1 and 5.2 of RFC 9112 mean it (folds as spaces, outer white space left out) if and only if, besides, no folded field has an empty own value or an empty last continuation, and no field's own value begins or ends with 0x85 or 0xA0 |
| `HeaderSection.ValueBelow` | fizzpy/_http.py:303-315 | for every name and value, a value that begins on the continuation is held with a leading space that it does not have |
| `HeaderSection.ValueOnNextLine` | fizzpy/_http.py:303-315 | the counterexample with a folded value: a `Location` broken after its colon is held with a leading space |
| `HeaderSection.HighSpaceLost` | fizzpy/_http.py:313-315 | the counterexample without folding: a value that is 0x85 or 0xA0 is held as the empty value |
| `PyInt.ParseDigits` | fizzpy/_http.py:402-402 | on plain digit strings Python's permissive `int` and the RFC's digits agree |
| `PyInt.SignedDigits` | fizzpy/_http.py:402-402 | Python's `int` takes a sign before the digits |
| `PyInt.UnderscoreSkipped` | fizzpy/_http.py:402-402 | and skips a single underscore between digits |
| `PyInt.HexPrefix` | fizzpy/_http.py:402-402 | and in base 16 a prefix `0x` or `0X` |
| `PyInt.PrefixUnderscore` | fizzpy/_http.py:402-402 | with an underscore allowed after it |
| `PyInt.UnderscoresRefused` | fizzpy/_http.py:402-402 | an underscore at the front, at the end or beside another makes the text no number |
| `MessageFraming.NoNumber` | fizzpy/_http.py:334-337 | but text with anything else in it is no number |
| `PyInt.DecimalRoundTrip` | fizzpy/_http.py:58-58 | printing and reading back a Content-Length is the identity |
| `Grammar.StatusLineExactly` | fizzpy/_http.py:188-280 | the status lines accepted, and what is read from them, are exactly: version, space, three digits, then nothing or a space and a reason, and one stray LF at the end |
| `Grammar.HeadReadsBack` | fizzpy/_http.py:266-319 | every status line and header lines the parser accepts are read back from their rendering, and the bytes after the blank line are left for the body |
| `Grammar.ChunkedDecodes` | fizzpy/_http.py:372-432 | the chunked decoder inverts section 7.1 of RFC 9112: any non-empty chunks, any hexadecimal spelling, any extensions, any trailer section; the output is the data and the bytes after the message stay |
| `Grammar.ChunkedMessage` | fizzpy/_http.py:239-432 | a whole chunked response parses to its parts, no proper prefix of it completes or fails, and what follows it is untouched |
| `Grammar.FixedLengthMessage` | fizzpy/_http.py:239-363 | the same for a response with Content-Length |
| `Grammar.CutChunkRaises` | fizzpy/_http.py:245-253 | the counterexample to a tolerated early EOF: five bytes announced, two received, then EOF raises |
| `ContentCoding.ParseRecodes` | fizzpy/_http.py:434-463 | decompression decides nothing about a pass but the content, or an uncaught error in its place, at its very end |
| `ContentCoding.CompletesExactly` | fizzpy/_http.py:434-463 | every message, in every framing, whole or cut by EOF, completes exactly when the same bytes complete without decompression and their body does not make a decompressor raise an uncaught error; else that error takes its place |
| `ContentCoding.GzipLength` | fizzpy/_http.py:351-363 | a gzip response with a Content-Length, all there or cut short by EOF: the decompressed content, the body as it came, or the error, as the library does on exactly the bytes received |
| `ContentCoding.GzipChunked` | fizzpy/_http.py:372-463 | the same for a whole chunked gzip response and its concatenated data |
| `ContentCoding.CutGzipRaises` | fizzpy/_http.py:245-253 | the counterexample for gzip: three bytes of a stream of any longer length announced, then EOF, and the parser raises although the body is not chunked |
| `ContentCoding.ContentExactly` | fizzpy/_http.py:445-463 | what every response carries, in every framing, whole or cut short: for gzip and deflate what the library makes of the body (raw DEFLATE only where zlib fails, the body itself where both do), otherwise the body |
| `MessageFraming.FramingDecided` | fizzpy/_http.py:321-341 | for every head: chunked if a Transfer-Encoding line says so, else no body for 1xx, 204 and 304, else until close without a Content-Length, else that length; rejected exactly when that length counts and is no number |
| `MessageFraming.BodilessMessage` | fizzpy/_http.py:327-330 | a 1xx, 204 or 304 that does not say chunked is done at the blank line with an empty body, whatever Content-Length says and whatever follows |
| `MessageFraming.BodilessExactly` | fizzpy/_http.py:322-330 | such a response is complete at the blank line if and only if no line says chunked |
| `MessageFraming.NoContentWaits` | fizzpy/_http.py:322-330 | the counterexample: a 204 that says chunked is not complete at the blank line |
| `MessageFraming.LengthMessage` | fizzpy/_http.py:332-338 | one Content-Length of digits: exactly that many bytes are the body, no proper prefix completes, the rest is untouched |
| `MessageFraming.NegativeLengthMessage` | fizzpy/_http.py:332-338 | a negative Content-Length completes with an empty body |
| `MessageFraming.BadLengthMessage` | fizzpy/_http.py:335-337 | a Content-Length that counts and is no number raises as soon as the head is there |
| `MessageFraming.TwoLengths` | fizzpy/_http.py:332-337 | so do two Content-Length lines, even equal ones |
| `MessageFraming.CloseMessage` | fizzpy/_http.py:340-341 | with neither header every byte after the head is body, no `feed` completes it, and EOF does |
| `MessageFraming.ChunkedByLines` | fizzpy/_http.py:322-325 | the body is read as chunks exactly when a Transfer-Encoding line says chunked |
| `Rejections.BadStatusLine` | fizzpy/_http.py:275-277 | a first line that is no status line raises, whatever follows |
| `Rejections.BadHeaderLine` | fizzpy/_http.py:310-312 | a line without a name before a colon raises, after any lines that are taken |
| `Rejections.LeadingFold` | fizzpy/_http.py:305-307 | a folded line with no field before it raises |
| `Rejections.BadChunkSize` | fizzpy/_http.py:400-404 | a chunk size that is no hexadecimal number raises, after any chunks |
| `Rejections.BadTerminator` | fizzpy/_http.py:429-430 | chunk data not followed by CRLF raises, after any chunks |
| `Rejections.NegativeChunk` | fizzpy/_http.py:402-432 | a negative chunk size is an empty chunk |
| `HttpParser.ResponseParser.Feed` | fizzpy/_http.py:239-243 | the new fields (or the error) are those of one pass on the old fields with the data appended, and, before EOF, those of one `feed` of everything ever fed to a new parser |
| `HttpParser.ResponseParser.FeedEof` | fizzpy/_http.py:245-253 | the same for the end of stream; the work done over the parser's life stays within bounds |
| `HttpParser.ResponseParser.Run` | fizzpy/_http.py:255-264 | the driver is the specification's pass, with a bound on the turns of the chunked loop |
| `HttpParser.ResponseParser.StatusLineStep` | fizzpy/_http.py:266-281 | the status-line step, in place |
| `HttpParser.ResponseParser.HeadersStep` | fizzpy/_http.py:283-319 | the header step, in place, including its own call of the body step |
| `HttpParser.ResponseParser.HeaderBlockStep` | fizzpy/_http.py:300-315 | the loop over header lines is the recursive reading of the block, with its first error |
| `HttpParser.ResponseParser.FramingStep` | fizzpy/_http.py:321-341 | the framing decision, in place |
| `HttpParser.ResponseParser.FixedLengthStep` | fizzpy/_http.py:351-363 | the Content-Length step, in place |
| `HttpParser.ResponseParser.UntilCloseStep` | fizzpy/_http.py:365-370 | the read-until-close step, in place |
| `HttpParser.ResponseParser.ChunkedStep` | fizzpy/_http.py:372-432 | the `while True` loop terminates, computes the recursive decoding and takes exactly `Turns` turns |
| `HttpParser.ResponseParser.TrailerStep` | fizzpy/_http.py:376-390 | the trailer turn, in place |
| `HttpParser.ResponseParser.SizeStep` | fizzpy/_http.py:392-411 | the chunk-size turn, in place |
| `HttpParser.ResponseParser.DataStep` | fizzpy/_http.py:413-432 | the chunk-data turn, in place |
| `HttpParser.ResponseParser.FinalizeStep` | fizzpy/_http.py:434-443 | finalizing, in place |
| `HttpParser.TurnsBound` | fizzpy/_http.py:372-432 | every turn but the last deletes two bytes or more, so a call takes at most half the buffered bytes plus one turns |
| `Segmentation.BodyQuiescent` | fizzpy/_http.py:255-319 | the body step leaves a state on which it does nothing, so the second `_parse_body` of a pass is idle |
| `Segmentation.ParseMore` | fizzpy/_http.py:255-264 | a pass over some bytes and then a pass with more is one pass over all of them |
| `Segmentation.FeedSplit` | fizzpy/_http.py:239-243 | one `feed` cut in two anywhere has the same outcome |
| `Segmentation.SegmentationInvariance` | fizzpy/_http.py:239-432 | from any state a pass has left, any sequence of `feed` calls has the outcome of one `feed` of the concatenation |
| `Segmentation.AnyTwoSegmentations` | fizzpy/_http.py:8-11 | any two ways of cutting the same bytes, with or without a closing EOF, reach the same response, error or incomplete state |
| `Framing.ParseAdvances` | fizzpy/_http.py:255-264 | a pass removes bytes from the front only, never moves the phase back, and keeps head and framing once the headers have ended |
| `Framing.Conservation` | fizzpy/_http.py:239-370 | at any two moments of a parser's life: the buffer is the unconsumed end of what was fed, consumption and body only grow, and exactly one framing is chosen and kept |
| `Framing.ExactConsumption` | fizzpy/_http.py:239-443 | a message that leaves the parser done with an empty buffer is consumed exactly: no proper prefix completes or raises, and anything after it stays in the buffer |
| `Framing.FixedLengthExact` | fizzpy/_http.py:351-363 | with Content-Length N the body is the first N bytes after the headers, the surplus stays buffered, and without EOF the parser is done exactly when N bytes are in; a negative N acts as zero |
| `Framing.UntilCloseExact` | fizzpy/_http.py:365-370 | without framing headers every byte is body, and only EOF completes |
| `Framing.EarlyEof` | fizzpy/_http.py:245-253 | what EOF does after every byte string that has not failed, and that it neither completes nor raises exactly in the states with an empty buffer before the status line, right after it, or awaiting a chunk size |
| `Framing.EarlyEofTolerated` | fizzpy/_http.py:245-253 | EOF in a body completes the response if and only if the body is not chunked or has reached its trailers, and what was received can be decompressed or passed on; the response then carries what was received |
| `Requests.BuildRequest` | fizzpy/_http.py:35-67 | the list-building loops produce the rendering, and fail exactly when it is not Latin-1 |
| `Requests.FillDefaults` | fizzpy/_http.py:49-58 | Host and Content-Length are filled in first, in that order, unless the caller supplied them in any case |
| `Requests.EncodableExactly` | fizzpy/_http.py:66-66 | a request is built exactly when its method, path and headers, and its host unless a header replaces it, are Latin-1 text, whatever its body |
| `Requests.FieldsAreMeant` | fizzpy/_http.py:49-64 | the fields sent are Host and then Content-Length, each unless the caller supplied it in any case, and then the caller's in order |
| `Requests.FramingFields` | fizzpy/_http.py:52-58 | a well-formed request has one Host field, no transfer coding, and with a body one Content-Length, which is right; a caller's own right Content-Length is kept |
| `Requests.RequestReadsBack` | fizzpy/_http.py:35-67 | a reference parser that rejects what RFC 9112 has rejected (names and methods that are not tokens, white space in targets and before colons, CR, LF and NUL in values, any number of Host fields but one) recovers method, path, headers in order, body, and what follows |
| `Requests.RequestsReadBack` | fizzpy/_http.py:35-67 | and does so for any sequence of requests on one connection |
| `TlsRead.TlsConnection.RunRead` | _core.cpp:473-490 | the posted read task, in place: buffered bytes, then the error, then end of stream, else park and arm |
| `TlsRead.TlsConnection.OnBufferAvailable` | _core.cpp:529-537 | the data callback, in place |
| `TlsRead.TlsConnection.OnReadEof` | _core.cpp:539-544 | the end-of-stream callback, in place |
| `TlsRead.TlsConnection.OnReadErr` | _core.cpp:546-551 | the error callback, in place |
| `TlsRead.TlsConnection.OnReadTimeout` | _core.cpp:784-800 | the deadline callback, in place |
| `TlsRead.TlsConnection.TakePendingRead` | _core.cpp:761-769 | the parked promise is taken out and its deadline cancelled |
| `TlsRead.TlsConnection.FulfillRead` | _core.cpp:803-810 | the buffered chunks are coalesced in order into one result and cleared |
| `TlsRead.TlsConnection.RunClose` | _core.cpp:507-514 | a local close stops delivery and settles nothing |
| `TlsRead.StepKeepsInv` | _core.cpp:470-551 | every event keeps the invariant: a parked read implies an empty buffer, no end of stream and no error; an armed timer implies its own parked read; settled reads and buffer together are the bytes delivered |
| `TlsRead.RunsKeepInv` | _core.cpp:470-551 | so it holds throughout every run and interleaving |
| `TlsRead.ReadToldByEvents` | _core.cpp:473-490 | what a read is told when the loop runs it, from the events before it alone: all bytes sent and not yet read, else the error that came, with its message, else the end of stream that came; else it waits, with its own deadline if it has one |
| `TlsRead.EndLeavesNoneParked` | _core.cpp:539-551 | once the stream has ended or failed no read waits, whether or not one did when that happened |
| `TlsRead.ParkedReadSettles` | _core.cpp:529-551 | a parked read is settled by the very next data, end of stream, error or deadline, with that event's result, and by nothing else |
| `TlsRead.SettledOnce` | _core.cpp:758-800 | in every run each read is settled at most once, in order, and all but an outstanding one have been |
| `TlsRead.OwnDeadline` | _core.cpp:758-800 | in every run a read is told that it timed out exactly when the deadline that fires is its own, and only if it has one |
| `TlsRead.ClosedReadNeedsDeadline` | _core.cpp:507-514 | after a local close a parked read can still be settled if and only if it has a deadline |
| `TlsRead.EmptyBufferLooksLikeEnd` | _core.cpp:529-537 | why the transport must not deliver empty buffers: a parked read takes one for the end of the stream |
| `TlsRead.OverlappingReadIsLost` | _core.cpp:466-490 | why the caller must keep to one outstanding read: a second parked read replaces the first, which nothing that happens later ever settles, and whose deadline ends the second |
| `TlsRead.ReadsRefinePipe` | _core.cpp:466-551 | to a caller the connection is a byte pipe: each read gets the next bytes of the peer's stream, and an empty one has seen all of it |
| `TlsStream.TimeoutToMs` | fizzpy/_common.py:22-34 | 0 exactly for None, and within 32 bits |
| `TlsStream.DeadlineTight` | fizzpy/_common.py:22-34 | never shorter than asked for, and less than a millisecond longer |
| `TlsStream.DeadlineMonotone` | fizzpy/_common.py:22-34 | a longer timeout never has a shorter deadline |
| `TlsStream.TlsSocket.Recv` | fizzpy/_tls.py:153-166 | `recv`, in place: from `_rbuf`, or nothing after EOF, or the settled read re-sliced |
| `TlsStream.RecvHandsOut` | fizzpy/_tls.py:153-166 | `recv` hands out as much of what is there as its size allows, from the front, and keeps the rest; a negative size leaves that many bytes at the end |
| `TlsStream.TlsSocket.ReadInto` | fizzpy/_tls.py:95-99 | the bytes received overwrite the front of the buffer and nothing else; a failed read leaves it alone |
| `TlsStream.TlsSocket.Close` | fizzpy/_tls.py:252-256 | closes the connection once |
| `TlsStream.StackRunsKeepInv` | fizzpy/_tls.py:153-173 | the invariant of socket and connection together holds throughout every run of both |
| `TlsStream.StreamConservation` | fizzpy/_tls.py:153-173 | in every reachable state the bytes handed out, `_rbuf`, the settled read on its way and the core's buffer are the bytes delivered; no answer exceeds its size; an empty answer to a positive size means all of the stream was handed out |
| `TlsStream.SettingsTold` | fizzpy/_tls.py:224-256 | in every run a waiting `recv` has the deadline of the timeout in force when it was called, and the core delivers exactly until the socket is closed |
| `TlsStream.DeadlineSound` | fizzpy/_tls.py:234-236 | from every reachable state in which a `recv` with a timeout waits, the loop's own steps bring it to its return, even with a silent peer or after a local close; its deadline loses nothing |
| `Exchanges.RunExchange` | fizzpy/__init__.py:183-234 | the read loop with its parser object is the exchange function |
| `Exchanges.LoopIsOneShot` | fizzpy/__init__.py:204-228 | on data and a possible end of stream, the loop has the result of parsing the concatenation at once |
| `Exchanges.ScheduleIndependence` | fizzpy/__init__.py:204-228 | for every interleaving of reads with data and end of stream, and every coalescing, an exchange that finishes has the result of the one-shot parse of everything delivered, and one that is parked is undecided by it |
| `Exchanges.ReusableExactly` | fizzpy/__init__.py:237-240 | a connection is kept exactly after an HTTP/1.1 response that is not delimited by close and whose Connection lines do not say close |
| `Exchanges.ReturnsAtRest` | fizzpy/__init__.py:230-233 | if the peer sent only (part of) one self-delimited answer, a returning exchange leaves no read outstanding and nothing unread in the core |
| `Exchanges.StaleExactly` | fizzpy/__init__.py:191-227 | exactly when a pooled connection is given up: the write failed, or the first read failed or found the end of stream, or bytes came and the stream ended where the parser neither completes nor raises |
| `Exchanges.OpenPlaces` | fizzpy/__init__.py:223-227 | after some bytes, that is only right after the status line or on a chunk boundary, with nothing buffered |
| `Exchanges.RunPerform` | fizzpy/__init__.py:141-162 | `_perform`: the request built, the pooled attempt, then at most one fresh connection, and what each is given to send |
| `Exchanges.PerformReturns` | fizzpy/__init__.py:155-162 | what `_perform` returns on clean replies: the one-shot parse of what the fresh connection delivered if there is no pooled one or it goes stale, and otherwise of what the pooled one delivered, with nothing sent on another |
| `Exchanges.PerformReturnsAnswer` | fizzpy/__init__.py:155-162 | a request answered with one self-delimiting message returns the response it parses to, whatever pieces it came in and whatever followed |
| `Exchanges.PerformReturnsLength` | fizzpy/__init__.py:204-234 | in particular a response with a Content-Length: its status, fields and content, and its connection is kept exactly if it is HTTP/1.1 and no Connection line says close |
| `Exchanges.PerformRaises` | fizzpy/__init__.py:162-214 | what it raises on a fresh connection: the reason of the connect, of the write, or of the read that failed before the response was decided |
| `Exchanges.PooledRaises` | fizzpy/__init__.py:204-227 | on a pooled connection whose response had begun, the failed read is raised and nothing is sent again |
| `Exchanges.RefusedExactly` | fizzpy/__init__.py:141-162 | exactly the requests with text outside Latin-1 are refused, with nothing sent and no connection opened |
| `Exchanges.ResendRule` | fizzpy/__init__.py:155-162 | only the request itself is transmitted, at most twice, and at most one fresh connection is opened; twice exactly when a pooled connection went stale and a fresh one was made; staleness never reaches the caller |
| `Exchanges.IdempotentRetriesExactly` | fizzpy/__init__.py:81-83 | the promise of idempotent retries is kept by a request exactly when it is idempotent, or its pooled connection does not go stale, or no fresh one can be made |
| `Exchanges.PostSentTwice` | fizzpy/__init__.py:155-162 | the counterexample: a POST on a pooled connection that is closed before the response begins is transmitted twice |
| `Exchanges.MalformedIsReported` | fizzpy/__init__.py:204-221 | a malformed response is raised with the parser's error and never sent again |
| `ConnectionPool.Client.Take` | fizzpy/__init__.py:242-245 | the most recently pooled connection of the key, which leaves the pool, or none |
| `ConnectionPool.Client.Give` | fizzpy/__init__.py:247-249 | the connection goes last in its key's list |
| `ConnectionPool.Client.Drain` | fizzpy/__init__.py:251-255 | the pool is emptied, and what was in it is what will be closed |
| `ConnectionPool.SysStepKeepsInv` | fizzpy/__init__.py:141-257 | every step of any task, of `close`, of cancellation and of the peer keeps the ownership and matching invariant |
| `ConnectionPool.SysRunsKeepInv` | fizzpy/aio.py:111-219 | so it holds throughout every run of any number of tasks |
| `ConnectionPool.TasksOwnExclusively` | fizzpy/aio.py:125-132 | in every reachable state a connection in use has one user, and has not been closed by the client |
| `ConnectionPool.PoolOwnsExclusively` | fizzpy/__init__.py:242-257 | in every reachable state a pooled connection is in one slot and nobody's, open, with nothing unread and no operation outstanding |
| `ConnectionPool.OperationsNeverOverlap` | fizzpy/__init__.py:191-210 | whenever a write or a read is submitted, nothing else is outstanding on its connection |
| `ConnectionPool.CompleteIsWhole` | fizzpy/__init__.py:206-221 | a parse that completes has read the peer's whole answer and nothing else |
| `ConnectionPool.ResponsesMatchRequests` | fizzpy/__init__.py:141-249 | in every run each response returned is the parse of what the peer sent of its answer to that very request, all of it and nothing else; that is the whole answer unless the peer closed before its end |
| `PoolHistory.ConnectionsKeepTheirKey` | fizzpy/__init__.py:149-162 | in every run a pooled connection was opened by a request for the host and port it is pooled under, and one in use by a request for the same host and port |
| `PoolHistory.KeptIsTakenNext` | fizzpy/__init__.py:242-249 | a connection that is kept is the one the next request for that host and port takes |
| `PoolHistory.PoolIsAskedFirst` | fizzpy/__init__.py:154-162 | in every run a request asks the pool before it opens a connection, takes the newest pooled one for its host and port if there is one, and may give its connection up as stale exactly if it came from the pool |
| `PoolHistory.KeptOrClosed` | fizzpy/__init__.py:230-233 | an exchange that returns either pools its connection, open, or closes it; a stale one is closed and its request goes on to a new one for the same key |
| `PoolHistory.PooledWereReusable` | fizzpy/__init__.py:230-240 | in every run the latest response on a pooled connection was one that lets it be kept |
| `PoolHistory.CloseClosesAll` | fizzpy/__init__.py:251-257 | closing the client empties the pool and closes every connection that was in it |
| `PoolHistory.ServedOnNew` | fizzpy/__init__.py:155-249 | in every state a request with nothing pooled for its key can run to its end on a new connection: one response logged, the parse of the peer's answer, and the connection pooled exactly if it may be kept |
| `PoolHistory.TwoWritesAtMost` | fizzpy/__init__.py:155-162 | among any number of tasks, a request is written at most twice and opens at most one connection |
| `PoolHistory.StoppedSendsNothing` | fizzpy/__init__.py:162-214 | after a failed connect or a cancellation a request is not written again and opens nothing |
| `Refinement.NetStepIsSysStep` | _core.cpp:470-551 | every step of a connection that a task reads from is a step the pool's model allows, with the same bytes read and unread, or one that the task does not see |
| `Refinement.StreamChanges` | fizzpy/__init__.py:191-215 | a new answer and a peer that closes are seen the same way on both sides |
| `Refinement.WriteStarts` | fizzpy/__init__.py:191-205 | a task whose request was written starts on its read loop; one whose write failed ends as the exchange does |
| `Refinement.EveryTaskIsReadLoop` | fizzpy/__init__.py:204-234 | among any number of interleaved tasks, a task's state is always that of the client's read loop on what its reads were told |
| `Redirects.RunRequest` | fizzpy/__init__.py:110-139 | the loop of `request` sends the run's requests in order and ends as the run does |
| `Redirects.RedirectBudget` | fizzpy/__init__.py:118-139 | for every server, at most max(0, max_redirects) + 1 requests, and it raises exactly when one more redirect follows |
| `Redirects.FollowedExactly` | fizzpy/_common.py:54-170 | a request is followed by another exactly when redirects are followed, budget is left, and its answer is a 301, 302, 303, 307 or 308 with a non-empty Location; otherwise the run ends with that answer, or raises if it leads on |
| `Redirects.RunIsChain` | fizzpy/_common.py:151-170 | each later request goes where the answer to the one before redirects to, resolved against that one's URL |
| `Redirects.UpperExactly` | fizzpy/__init__.py:118-118 | the method sent is the caller's, with its letters in capitals and nothing else changed |
| `Redirects.LaterVerbsUpper` | fizzpy/_common.py:165-165 | every request that follows a redirect has its method in capitals, whatever the first one's case |
| `Redirects.NeverRewritten` | fizzpy/_common.py:164-170 | method, body and headers stay the caller's to the end if and only if no answer followed is a 303 to something other than GET and HEAD, or a 301 or 302 to a POST |
| `Redirects.RewrittenOnce` | fizzpy/__init__.py:136-138 | the method is rewritten at most once in a run, only to GET; before that the originals, after that no body, and the headers without the body headers |
| `Redirects.KeepHeadersSplits` | fizzpy/_common.py:173-183 | exactly the three body headers are dropped; the others stay, in order |
| `Redirects.RewrittenSendsNoBody` | fizzpy/_common.py:173-183 | a rewritten request goes out without content-length, content-type and transfer-encoding |

## Left out

- Fizz, folly, OpenSSL, pybind11, the handshake, certificate checks and reference counting: libraries behind the callbacks.
- The write side of the core: only that a write succeeds or fails, and that one is outstanding, is in the pool's steps.
- `run_sync` and `run_async`: a submitted operation is taken to hand its one settlement to its one waiter; a late result after cancellation is dropped, as `_set_result` does.
- gzip and deflate, charset decoding, JSON, `urlsplit`, `urljoin`, `parse_url`, certifi: library calls; decompression and joining are parameters.
- The shared `Headers` object of parser and `Response`: the response holds the mapping's value, so later mutation through the alias is not modelled.
- Parser fields after an error: the client never looks at them.
- `TlsStream.TimeoutToMs`: exact reals, so rounding, infinities and NaN in float timeouts are not modelled.
- `TlsStream.TlsSocket.ReadInto`: `recv_into` with an explicit size larger than its buffer is not modelled.
- `PyInt.ParseDigits`: Python's limit of 4300 digits on decimal text is not modelled.
- `Redirects.RunRequest`: `upper()` is modelled on ASCII letters only; header names are lowered on Latin-1 only.
- `Requests.RequestReadsBack`: caller headers that RFC 9110 and RFC 9112 do not allow (names that are not tokens, CR, LF or NUL in values, two Host fields), and ones that supply their own Transfer-Encoding or a Content-Length that is not that of the body, are built as the code does but are outside the round trip.
- `TlsRead.RunsKeepInv`: after a local close without a deadline nothing settles a parked read; `TlsRead.ClosedReadNeedsDeadline` says so, and settlement is claimed otherwise.
- `probe.py`, `__main__.py`, `contrib`, `normalize_extensions`, `makefile`, `setsockopt`, `fileno`, `TlsConfig`: adapters, terminal output and library-shaped members with no hard property.
