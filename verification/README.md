# chhttp: a verified model

chhttp is an HTTP/1.1, Server-Sent-Events, WebSocket and multipart engine over libuv. Below its sockets it
is a set of deterministic machines over bytes and a few small concurrency protocols. This project models
those machines and protocols in Dafny and proves what their code and documentation promise.

Two kinds of models are used.

- **Step systems** for the protocols between threads and coroutines: the connection pool with its waiter
  hand-off (`ConnectionPool`, `PoolSafety`, `PoolReuse`), the completion channel of `Task` (`TaskChannel`), the worker
  pool (`WorkerPool`) and the file-action queue (`FileActions`). A state holds the fields of the source, an
  action is one atomic step of one party, and the theorems quantify over every run, that is over every
  interleaving of any number of participants. The pool is also written as a class whose methods update the
  fields in place and are proved equal to the steps.
- **Classes and methods against reference functions** for everything that reads or writes bytes: HTTP
  (`Headers`, `HttpHead`, `HttpFraming`, `HttpHeadRoundTrip`, `HttpWriter`, `HttpFields`, `HttpBody`, `HttpCuts`,
  `HttpChunks`, `HttpSpelling`, `HttpRequests`, `HttpMessages`, `HttpServing`, over `ReadBuffer`), SSE (`Sse`,
  `SseRoundTrip`, `SseLines`), multipart
  (`MultipartHead`, `MultipartScan`, `MultipartParser`, `MultipartLimits`, `MultipartHeadRoundTrip`,
  `MultipartWriter`, `MultipartSpelling`, `MultipartEdges`), WebSocket (`Utf8`, `WebSocketFrames`, `WebSocket`,
  `WebSocketClosing`), routes (`RoutePatterns`, `Routes`), Base64 and URLs (`Base64`, `Base64Texts`, `UrlText`,
  `Paths`). The imperative code is proved equal to a function
  of the whole input, and the promises are proved about that function: independence of how the input is
  cut, round trips with the writer of the other side and with other spellings of the same thing, exactness of limits.

`Wrappers`, `Text`, `Octets` and `HeaderFields` hold the shared vocabulary. Bytes are characters where the code treats
them as text, and numbers below 256 where it calculates with them (WebSocket, UTF-8, Base64). 64-bit
overflow is modelled where the code tests for it (`MAX_U64`). A connection is the list of blocks that are
still to arrive before the peer closes it; theorems about reading hold for every such list.

`dafny verify dfyconfig.toml` checks the whole project.

## Where code and promise differ

- **Trailers and cuts.** `read_line` refuses a line feed inside a line only while the CRLF has not arrived
  (src/protocol.cpp:434-443). `HttpBody.CutsDoNotMatter` gives the exact condition for a line: it is read the
  same way under every cut if and only if it does not contain a line feed or does not fit anyway;
  `HttpBody.BadCut` gives, for every other line, one cut that is refused and one that is taken.
  `HttpCuts.BodyCutsDoNotMatter` is the same for a whole body with its trailers: all cuts agree if and only if
  a strict and a lax reading of the bytes do, and `HttpCuts.BadBodyCut` gives two cuts with different verdicts
  for every other body. Chunk-size lines are not affected (`HttpBody.Reader.ReadSize`), because a size with a
  line feed is invalid, and the two readings agree on everything the writers send.
- **Control characters in multipart names.** `validate_part_metadata` rules out only line breaks in the
  name and filename (src/streaming_body.cpp:313-325), while `parse_part_head` refuses any other control
  character as well. `MultipartHeadRoundTrip.HeadRoundTrip` says exactly when a printed header block is
  parsed back, and `ControlCharacterIsRefused` is a concrete part that is not.
- **Trimmed values of multipart parts.** The parser trims the content type and the values of custom fields
  (src/streaming_body.cpp:265-311), so a part comes back with the trimmed values; names, filenames and contents
  come back as they were written (`MultipartWriter.RoundTrip`).
- **Finishing twice.** `RequestBodySink::finish` does not record a body that is too short
  (src/protocol.cpp:1623-1643), so a second call on the sink reports success
  (`HttpRequests.Sink.Finish`). `write_request` calls it once.
- **Order of fields.** `serialize_head` substitutes in place, `Headers::set` erases and appends. They agree
  on the value list of every name (`HttpFraming.SubstitutionActsLikeSet`), not on the order of the fields.
- **Fairness.** Waiters of the pool are not served in order, and nothing here claims that they are.

## Model

| member | source | states |
|---|---|---|
| ConnectionPool.Pool.WakePoolWaiter | src/client.cpp:412-426 | the loop over the queue is the waking step: it drops waiters that cannot be woken and notifies at most one |
| ConnectionPool.Pool.ReturnSlot | src/client.cpp:428-439 | giving back a slot counts down, erases the entry at zero and wakes |
| ConnectionPool.Pool.AwaitSuspend | src/client.cpp:370-397 | a suspended request is queued last and no longer owns a notification |
| ConnectionPool.Pool.AwaitResume | src/client.cpp:399-409 | a resumed request leaves the queue and takes over the notification it was given |
| ConnectionPool.Pool.PassGate | src/client.cpp:946-975 | one pass of the queue gate admits a request exactly when the origin is not full, and suspends it otherwise |
| ConnectionPool.Pool.PopIdle | src/client.cpp:482-497 | idle connections are tried from the back, dead ones give back their slots |
| ConnectionPool.Pool.TryAcquire | src/client.cpp:465-508 | a request leases an idle connection, reserves a slot, or suspends |
| ConnectionPool.Pool.Adopt | src/client.cpp:609-616 | an established connection uses the slot reserved for it |
| ConnectionPool.Pool.Fail | src/client.cpp:510-513 | a failed connection attempt gives its slot back |
| ConnectionPool.Pool.GiveBack | src/client.cpp:629-652 | a lease ends in the idle list or gives its slot back |
| ConnectionPool.Pool.Discard | src/client.cpp:623-627 | a discarded lease gives its slot back |
| ConnectionPool.Pool.Unregister | src/client.cpp:910-923 | a request that exits passes on a notification it still owns |
| PoolSafety.StepKeepsInv | src/client.cpp:331-439 | every step of every request keeps conservation, single ownership and the counting invariant behind the wakeups |
| PoolSafety.EveryStateIsSound | src/client.cpp:465-508 | the invariant holds in every state of every run |
| PoolSafety.SlotsAreConserved | src/client.cpp:482-513 | the count of an origin is idle plus users, within both limits; no connection is idle twice, leased twice, or idle and leased |
| PoolSafety.NoLostWakeup | src/client.cpp:412-439 | while somebody waits un-notified, the free capacity of the origin is at most the number of outstanding notifications |
| PoolSafety.WaiterIsQueued | src/client.cpp:379-381 | an un-notified waiter is in the queue where a wakeup finds it |
| PoolSafety.NobodyIsStranded | src/client.cpp:910-923 | when every other request of an origin is gone, nobody still waits |
| PoolSafety.ErasedPoolIsEmpty | src/client.cpp:432-436 | the pool entry erased at count zero never holds an idle connection and no lease is left |
| PoolSafety.ReleaseSlotRestores | src/client.cpp:428-439 | one wakeup repairs the invariant after a slot is given back |
| PoolSafety.WakeRestores | src/client.cpp:412-426 | waking covers one free slot more |
| PoolSafety.PopWaiterSpec | src/client.cpp:415-424 | the woken waiter is the first one in the queue that can be woken, and everything before it is dropped |
| PoolReuse.ReleaseReusesOrCloses | src/client.cpp:629-652 | a connection that is given back becomes the last idle one exactly when it may be used again and there is room; otherwise it is closed, idle nowhere, and its slot is given back |
| PoolReuse.ConnectionIsReused | src/client.cpp:479-497 | the next request of the origin leases exactly that connection and takes no slot |
| PoolReuse.FreshConnectionIsKept | src/client.cpp:609-652 | a new connection is kept like any other when its first lease ends |
| PoolReuse.FailureReturnsSlot | src/client.cpp:510-513 | a failed connection attempt gives its slot back and leaves the idle connections alone |
| PoolReuse.AcquireReuses | src/client.cpp:482-493 | the last open idle connection is leased, the closed ones behind it give their slots back, and no slot is taken |
| PoolReuse.AcquireReserves | src/client.cpp:494-508 | without an open idle connection a slot is reserved if one is free, and the request is queued last otherwise |
| PoolReuse.GateHoldsWhenFull | src/client.cpp:946-975 | the queue gate holds a request back exactly when every slot is taken and no connection is idle |
| PoolReuse.ResumeLeavesQueue | src/client.cpp:399-409 | a resumed request leaves the queue, everybody else stays in it, and a slot notification becomes its own |
| PoolReuse.ExitPassesOn | src/client.cpp:910-923 | a notification that was not used goes to a waiter whenever there is one |
| PoolReuse.NudgeOwnsNothing | src/client.cpp:342-348 | a timer or a cancellation notifies its own request without giving it a slot notification |
| TaskChannel.EveryStateIsSound | include/chhttp/chhttp.hpp:53-158 | the invariant of handoff word, reference count and mutex holds in every state of every interleaving |
| TaskChannel.FrameIsNeverTouchedAfterDestruction | include/chhttp/chhttp.hpp:242-262 | no step is possible once the frame is destroyed |
| TaskChannel.ResultIsReadAfterPublication | include/chhttp/chhttp.hpp:312-327 | the result is read once, after it was stored and completion published |
| TaskChannel.BlockExistsWhenNotified | include/chhttp/chhttp.hpp:91-97 | the block that publication locks exists and the frame is alive |
| TaskChannel.SleeperIsNotified | include/chhttp/chhttp.hpp:138-151 | completion is never published behind a sleeping consumer without a wake pending |
| TaskChannel.SomebodyCanMove | include/chhttp/chhttp.hpp:121-157 | no deadlock before both parties are done |
| TaskChannel.RunsAreBounded | include/chhttp/chhttp.hpp:102-157 | the number of steps of a run is bounded by a constant plus its spurious wakeups |
| TaskChannel.SettledRuns | include/chhttp/chhttp.hpp:242-262 | at the end the frame was destroyed exactly once and a registered continuation resumed exactly once |
| TaskChannel.ResultIsDelivered | include/chhttp/chhttp.hpp:312-327 | a consumer that blocked or awaited has read the result once at the end, one that dropped its task has not, and only an awaiting one registers a continuation |
| TaskChannel.LastReleaseFindsCompletion | include/chhttp/chhttp.hpp:243-246 | whoever drops the last reference finds completion published |
| WorkerPool.EveryStateIsSound | src/server.cpp:312-345 | the invariant of queue, sleepers and notifications holds in every state of every run |
| WorkerPool.NoStrandedWork | src/server.cpp:312-325 | a queued job always has an awake worker or a pending notification, although notification is skipped when nobody sleeps |
| WorkerPool.JobsRunOnceInOrder | src/server.cpp:326-345 | jobs start in submission order, none starts twice |
| WorkerPool.QueueDrainsBeforeExit | src/server.cpp:332-337 | once all workers are gone every job has run |
| WorkerPool.EveryStepCounts | src/server.cpp:249-257 | during shutdown every step, spurious wakeups included, lowers a rank, because nobody falls asleep any more |
| WorkerPool.ShutdownEnds | src/server.cpp:249-257 | after the stop flag is set a run takes a bounded number of steps: two for each queued job and worker, and the pending notifications |
| WorkerPool.ShutdownCompletes | src/server.cpp:249-257 | when nothing can move any more, every worker has exited and every submitted job has run |
| WorkerPool.ShutdownMakesProgress | src/server.cpp:249-257 | while a worker is left during shutdown, a step other than a spurious wakeup is possible |
| FileActions.ActionsRunOnceInOrder | src/streaming_body.cpp:465-508 | executed, running and pending actions are together the accepted ones in order, and one task at most works for a sink |
| FileActions.SubmissionIsAccepted | src/streaming_body.cpp:465-477 | an action is refused only when a task is needed and the file pool has none |
| FileActions.WorkDescends | src/streaming_body.cpp:479-508 | every step of the file pool lowers a rank, so the work for a sink ends |
| FileActions.NothingIsForgotten | src/streaming_body.cpp:479-508 | when the file pool has nothing to do for a sink, every accepted action has been executed in order |
| ReadBuffer.Buffer.Consume | src/detail.hpp:56-59 | consuming drops a prefix of the unread bytes |
| ReadBuffer.Buffer.Append | src/detail.hpp:66-78 | appending adds bytes at the end of the unread ones, with or without compaction |
| ReadBuffer.Buffer.AppendView | src/detail.hpp:80-87 | the same for a borrowed block |
| ReadBuffer.Buffer.Clear | src/detail.hpp:60-65 | clearing leaves no unread bytes |
| Headers.Container.Erase | src/common.cpp:35-41 | erasing drops exactly the fields of a name and reports whether there were any |
| Headers.Container.Set | src/common.cpp:30-33 | setting erases and appends |
| Headers.ValuesReplaced | src/common.cpp:30-66 | after setting, the name has the new value alone and all other names keep their values |
| HttpHead.ValueHasToken | src/common.cpp:1236-1252 | a token is found exactly when it is an item of the comma-separated value |
| HttpHead.VisitField | src/protocol.cpp:336-395 | one field: validated, kept, and its control recorded |
| HttpHead.ParseHead | src/protocol.cpp:302-409 | the cursor loop computes the reference reading of a head |
| HttpHead.PrintFields | src/protocol.cpp:817-850 | the two loops print the caller's fields with substitutions and then the unused overrides |
| HttpHead.SerializeHead | src/protocol.cpp:792-853 | a head is printed exactly when start line, fields and overrides are valid |
| HttpFraming.EmittedValues | src/protocol.cpp:817-850 | per name a printed head has the override alone, nothing when omitted, or the caller's values |
| HttpFraming.SubstitutionActsLikeSet | src/protocol.cpp:786-791 | substituting while printing equals erasing and setting, name by name |
| HttpHeadRoundTrip.FieldsAmount | src/protocol.cpp:336-395 | framing, connection flags and host count of a parsed head are determined by the value list of each name |
| HttpHeadRoundTrip.HeadEndIsFound | src/protocol.cpp:286-299 | the first blank line of a printed head is its end |
| HttpHeadRoundTrip.FramingIsRead | src/protocol.cpp:302-409 | a printed head is accepted and its announced framing, fields and connection tokens are read |
| HttpHeadRoundTrip.LengthsAgree | src/protocol.cpp:361-378 | the lengths of all fields and list items are taken together exactly when they are the same number |
| HttpHeadRoundTrip.AcceptedFraming | src/protocol.cpp:361-409 | a head is accepted exactly when its framing is unambiguous: no framing field, lengths that all agree, or `chunked` alone without a length |
| HttpWriter.WriteRequestHead | src/protocol.cpp:1666-1725 | the head of a request as its overrides are collected |
| HttpWriter.BuildResponseHead | src/protocol.cpp:1810-1854 | the head of a response as its overrides are collected |
| HttpWriter.FramingIsAnnounced | src/protocol.cpp:1690-1702 | whatever framing fields the caller supplied, exactly the intended framing is printed |
| HttpWriter.RequestHeadIsRead | src/protocol.cpp:1666-1725 | a request head is sent exactly for valid requests, and parsing it gives the intended framing, request line, fields and connection tokens |
| HttpWriter.ResponseHeadIsRead | src/protocol.cpp:1810-1854 | a response head is read with the framing of its status and body and with the combined keep-alive decision |
| HttpFields.RequestFieldsSurvive | src/protocol.cpp:1666-1725 | name by name outside the framing, a receiver sees the values of the caller; `Connection` and `User-Agent` are generated only for a caller without them |
| HttpFields.ResponseFieldsSurvive | src/protocol.cpp:1810-1854 | the same for a response: `Connection` is replaced, `Server` generated only when missing, everything else kept |
| HttpBody.CutsDoNotMatter | src/protocol.cpp:427-454 | reading a line is independent of the cuts if and only if a line that fits has no line feed inside |
| HttpBody.BadCut | src/protocol.cpp:434-443 | every other line has a cut that is refused and a cut that is taken |
| HttpBody.ArrivedIsBetween | src/protocol.cpp:427-454 | under every cut a line is taken if a strict reader takes it, and only if a lax one does |
| HttpBody.Reader.ReadHead | src/protocol.cpp:271-300 | the head is found exactly when the first blank line of the stream lies within the limit, whatever the blocks |
| HttpBody.Reader.ReadLine | src/protocol.cpp:427-454 | the line that arrives under these blocks |
| HttpBody.Reader.ReadSize | src/protocol.cpp:578-611 | the chunk size and the bytes behind it depend on the stream alone |
| HttpBody.Reader.DeliverExactly | src/protocol.cpp:656-692 | exactly the wanted bytes are delivered, or everything there is when the stream is too short |
| HttpBody.Reader.ReadTrailers | src/protocol.cpp:612-648 | the trailers as they arrive, with the byte limit and the forbidden names, and exactly what is left behind them |
| HttpBody.Reader.ReadChunked | src/protocol.cpp:577-707 | in every case the delivered bytes are exactly the payload up to the first defect; the end is the one that arrives under these blocks |
| HttpBody.Reader.ReadSized | src/protocol.cpp:709-752 | a sized body is read exactly when it fits the limit and is complete; the rest stays |
| HttpBody.Reader.ReadUntilEof | src/protocol.cpp:754-776 | a body that ends with the connection is read exactly when it fits the limit |
| HttpBody.Reader.ReadBody | src/protocol.cpp:456-777 | the body by its framing as it arrives, never more delivered than the limit; a strict reading is taken and only a lax one is |
| HttpCuts.BodyCutsDoNotMatter | src/protocol.cpp:456-777 | a body is read alike under all cuts if and only if a strict and a lax reading of its bytes agree |
| HttpCuts.BadBodyCut | src/protocol.cpp:427-454 | every other body is taken at once and refused under a cut in two pieces |
| HttpBody.DechunkedWithinLimit | src/protocol.cpp:649-655 | the payload never exceeds the body limit, also in a broken stream |
| HttpBody.SizeLineIsOneLine | src/protocol.cpp:583-608 | a size line with a line feed is never a size |
| HttpChunks.Writer.WriteChunk | src/protocol.cpp:1893-1940 | a producer write becomes no frame, one frame, or frames of at most 64 KiB |
| HttpChunks.ChunksAreSmall | src/protocol.cpp:1893-1940 | a write is printed as chunks of at most 64 KiB, none empty, that hold its bytes in order |
| HttpChunks.WritesAreRead | src/protocol.cpp:577-707 | any list of producer writes closed by the last chunk is decoded to its concatenation and leaves the rest |
| HttpChunks.DecodedWasChunked | src/protocol.cpp:577-707 | whatever is decoded to its end is a sequence of chunks whose size lines match their data, a zero size and trailers |
| HttpChunks.Exchange | src/protocol.cpp:577-707 | the same for the reader under every fragmentation |
| HttpSpelling.ListComesBack | src/protocol.cpp:247-265 | the items of any comma-separated list, with blanks around them, are read in order |
| HttpSpelling.TokenInList | src/common.cpp:1236-1252 | a token is found in a written list exactly when one of its items is that token in any case |
| HttpSpelling.FieldLineIs | src/protocol.cpp:322-337 | a field line is its name and its value, whatever blanks surround the value |
| HttpSpelling.RefusedLines | src/protocol.cpp:325-329 | folded lines and lines without a colon are refused |
| HttpSpelling.AcceptedIsValid | src/protocol.cpp:302-409 | an accepted head has no control characters and its names are tokens |
| HttpSpelling.CaseIsIgnored | src/common.cpp:936-953 | names are compared without regard to the case of ASCII letters |
| HttpSpelling.NumbersIgnoreCase | src/protocol.cpp:603-608 | chunk sizes mean the same in upper and lower case |
| HttpSpelling.SizeWithExtension | src/protocol.cpp:596-602 | a size may carry an extension that is not empty and looks like a field value |
| HttpSpelling.TrailersAreRead | src/protocol.cpp:612-648 | printed trailers are read back if and only if none is forbidden and all are within the limit |
| HttpRequests.Sink.Write | src/protocol.cpp:1574-1615 | a write is refused exactly when it exceeds the declared length or the sink has failed or finished |
| HttpRequests.Sink.Finish | src/protocol.cpp:1623-1643 | finishing succeeds exactly when the declared length is met, and closes a chunked body; a second call sends nothing and reports what a write recorded |
| HttpRequests.WriteRequest | src/protocol.cpp:1666-1770 | a request is sent exactly when its head is valid and a declared length is kept; the bytes are head and framed body |
| HttpRequests.RequestsWithHead | src/protocol.cpp:1666-1684 | which requests can be sent, by the kind of their body: names, target, fields, version, and no buffered body beside a stream |
| HttpMessages.WriteResponse | src/protocol.cpp:1869-1889 | head and body of a response; no body for HEAD and for statuses without one |
| HttpMessages.ReadResponse | src/protocol.cpp:1373-1560 | the reader takes the next response that is not informational, between the strict and the lax reading of the stream |
| HttpMessages.StatusLineIs | src/protocol.cpp:1386-1404 | a status line is accepted exactly when it is a known version, a space, three digits that make at least 100, and nothing or a space with a reason |
| HttpMessages.ResponseIsRead | src/protocol.cpp:1373-1415 | a written response is recovered with status, version, fields, body and keep-alive flag, and exactly the following bytes stay |
| HttpMessages.BodyIsRecovered | src/protocol.cpp:1869-1889 | for every status from 200 on but 204, 205 and 304 the body itself is sent and recovered, unless the request was HEAD |
| HttpMessages.BodyIsNotSent | src/protocol.cpp:855-858 | for HEAD, 101, 204, 205 and 304 the head alone is sent |
| HttpMessages.HeadEndsMessage | src/protocol.cpp:1409-1412 | such a response ends with its head, whatever length it announces: the next message follows at once |
| HttpMessages.LengthIsAnnounced | src/protocol.cpp:1826-1843 | a head announces no length for 1xx and 204, zero for 205, and the length of the body otherwise |
| HttpMessages.UnframedIsReadToEnd | src/protocol.cpp:1413-1414 | without framing fields the body is everything up to the end of the connection, refused exactly above the limit, and the connection is not kept alive |
| HttpMessages.StreamIsRead | src/protocol.cpp:1858-1867 | the same for a response whose body is streamed in chunks |
| HttpMessages.ContinueIsSkipped | src/protocol.cpp:1266-1271 | the interim response sent for an expectation is invisible to a waiting client |
| HttpMessages.InterimIsSkipped | src/protocol.cpp:1415-1557 | every 1xx response but 101 is skipped |
| HttpMessages.Converse | src/protocol.cpp:1373-1560 | any sequence of whole and streamed responses on one connection is recovered in order, under every fragmentation, with the body that was meant for each |
| HttpServing.RequestLineIs | src/protocol.cpp:1180-1201 | a request line is accepted exactly when it is a token, a target and a known version between single spaces |
| HttpServing.StartRequest | src/protocol.cpp:1175-1246 | request line, host rule, routing target and expectation of a parsed head |
| HttpServing.RoutingIs | src/protocol.cpp:1210-1236 | a target spelled with percent escapes leads to the path and the query parameters that were spelled |
| HttpServing.AbsoluteRouting | src/protocol.cpp:1214-1224 | an absolute target is dispatched by what its URL leads to, and refused when the URL is invalid |
| HttpServing.ReadRequest | src/protocol.cpp:1250-1371 | the next request of the stream and the bytes behind it; an expected body is announced before it is read |
| HttpServing.FieldsControl | src/protocol.cpp:336-395 | host count, host validity and expectations of a parsed head are determined by the values of `Host` and `Expect` |
| HttpServing.RequestIsRead | src/protocol.cpp:1175-1246 | a sent request is accepted if and only if it names one host, expects nothing unknown and has a target that can be routed; then name, target, path, query, version, fields, body, keep-alive flag and the rest of the stream are recovered |
| HttpServing.FlagSurvives | src/protocol.cpp:1703-1705 | without a `Connection` field of the caller the server sees the keep-alive flag of the request |
| HttpServing.Serve | src/server.cpp:636-662 | pipelined requests are recovered in order under every fragmentation, up to the first refused one or the first that ends the connection |
| UrlText.UrlDecode | src/common.cpp:241-273 | the decoding loop, with its shortcut for texts without escapes |
| UrlText.DecodableTexts | src/common.cpp:241-273 | a text is decoded exactly when two hexadecimal digits follow each percent sign |
| UrlText.EscapedComesBack | src/common.cpp:223-273 | every sequence of bytes comes back from its encoding |
| UrlText.ParseQuery | src/common.cpp:275-304 | the loop over the parts of a query |
| UrlText.PartsOfQuery | src/common.cpp:275-304 | the first equals sign ends a key, a part without one has an empty value, and empty parts are skipped |
| UrlText.MakeQuery | src/common.cpp:306-315 | the printed query: encoded keys and values, joined by ampersands |
| UrlText.QueryRoundTrip | src/common.cpp:275-315 | parsing a printed query gives its parameters back in order, with or without a question mark in front |
| Sse.FeedIsSplitIndependent | src/sse.cpp:122-155 | feeding pieces equals feeding their concatenation, including failures, limits and CR LF across a cut |
| SseLines.LinesAreProcessed | src/sse.cpp:122-155 | lines that end in LF, CR or CR LF, cut anywhere, are processed one after the other |
| SseLines.LineEndsAreAlike | src/sse.cpp:149-152 | a text means the same with every line feed printed as CR or as CR LF |
| SseLines.FieldSpellings | src/sse.cpp:71-77 | one space behind the colon is dropped, a line without a colon is a field without a value, and unknown fields are ignored |
| SseLines.CommentIsIgnored | src/sse.cpp:70-70 | a comment changes nothing |
| SseLines.MarkIsIgnored | src/sse.cpp:65-68 | a byte order mark is ignored in front of the first line only |
| SseLines.InvalidIsIgnored | src/sse.cpp:100-118 | an identifier with a zero character and a delay that is not a number are ignored |
| SseLines.RetryIsKept | src/sse.cpp:106-118 | a valid delay belongs to the next event and is remembered |
| SseLines.BlankLine | src/sse.cpp:30-62 | a blank line delivers one event if there is data and none otherwise, and uses up type and delay either way |
| SseLines.RetainedIsBounded | src/sse.cpp:78-135 | whatever arrives, the retained bytes stay within the limits of a line and of an event |
| Sse.Parser.FeedBytes | src/sse.cpp:122-155 | the segment-wise loop equals the byte-wise reference |
| Sse.Parser.Process | src/sse.cpp:64-120 | a line is interpreted as its field, a comment or a dispatch |
| Sse.Parser.DispatchEvent | src/sse.cpp:30-62 | a dispatch delivers the event with default type and last id and clears the fields |
| Sse.Parser.FinishStream | src/sse.cpp:157-167 | the end of the stream dispatches nothing and drops what is incomplete |
| SseRoundTrip.FormatSse | src/common.cpp:913-930 | an event is printed as its fields, one data line per line, and a blank line |
| SseRoundTrip.RoundTrip | src/common.cpp:913-930 | printed events, cut anywhere, are delivered in order with default type and inherited id, when each printed line and each event is within its limit |
| SseLines.RoundTripWith | src/common.cpp:913-930 | the same with every line end printed as CR or as CR LF |
| MultipartHead.SplitParameters | src/streaming_body.cpp:183-205 | splitting at semicolons outside quotes |
| MultipartHead.DecodeParameter | src/streaming_body.cpp:207-219 | trimming and unescaping a parameter |
| MultipartHead.UnescapeQuoted | src/streaming_body.cpp:207-263 | unescaping inverts quoting, without line breaks |
| MultipartSpelling.SpelledDispositionIsRead | src/streaming_body.cpp:265-311 | a disposition with any parameters, spelled as tokens or in quotes and with blanks around the equals sign, gives the part the texts of its last name and filename |
| MultipartSpelling.OpenQuoteIsRefused | src/streaming_body.cpp:207-212 | a quote that is not closed is refused |
| MultipartSpelling.AcceptedBlock | src/streaming_body.cpp:303-310 | a header block is accepted only with one disposition and at most one type, and all its fields are kept |
| MultipartSpelling.PartFieldsSurvive | src/streaming_body.cpp:327-344 | a printed part keeps the values of all its fields but disposition and type, which are written from its own |
| MultipartHead.ParsePartHead | src/streaming_body.cpp:265-311 | the header block of a part |
| MultipartHead.SerializePartHead | src/streaming_body.cpp:327-344 | the printed header block of a part |
| MultipartHeadRoundTrip.HeadRoundTrip | src/streaming_body.cpp:265-344 | a printed block is parsed back exactly when neither name has a control character |
| MultipartHeadRoundTrip.ControlCharacterIsRefused | src/streaming_body.cpp:313-325 | a part that the writer accepts and the parser refuses |
| MultipartParser.Parser.ParseFirstBoundary | src/streaming_body.cpp:809-839 | the search for the opening marker, resumed across false candidates |
| MultipartParser.Parser.ParseSuffix | src/streaming_body.cpp:840-850 | after a delimiter the ending is always there, so the malformed-suffix failure is unreachable |
| MultipartParser.Parser.ParseHeaders | src/streaming_body.cpp:851-873 | the header block of a part, with its limits |
| MultipartParser.Parser.ParseBody | src/streaming_body.cpp:874-900 | data is released up to the earliest possible delimiter |
| MultipartParser.Parser.ParseAvailable | src/streaming_body.cpp:805-908 | the loop terminates, and what it reports and keeps is right for every continuation of the stream |
| MultipartParser.Parser.Feed | src/streaming_body.cpp:791-803 | accepted input is reported as the reference scan does, rejected input is rejected under every continuation, and the buffer stays bounded |
| MultipartParser.ParsePieces | src/streaming_body.cpp:791-916 | for every cut of every stream: same verdict as the reference scan, same events with adjacent data merged, in the shape (begin data* end)* |
| MultipartEdges.OpeningMarker | src/streaming_body.cpp:809-839 | the first marker opens the body exactly at the start of a line and in front of a line end or two hyphens; the preamble is ignored |
| MultipartEdges.DelimiterIs | src/streaming_body.cpp:874-893 | data ends at a delimiter exactly when a line end or two hyphens follow it |
| MultipartEdges.EpilogueIsIgnored | src/streaming_body.cpp:840-850 | whatever follows a complete body, it is read alike |
| MultipartLimits.AcceptedIsWithinLimits | src/streaming_body.cpp:924-943 | an accepted body keeps the limits of total size, part size and number of parts |
| MultipartWriter.WriteParts | src/streaming_body.cpp:1121-1133 | the written body of any parts |
| MultipartWriter.ContentLength | src/streaming_body.cpp:1105-1119 | the exact number of bytes written, or nothing when a size is unknown or does not fit into 64 bits |
| MultipartWriter.WithoutDelimiterIsClean | src/streaming_body.cpp:875-894 | content without the delimiter is safe to send |
| MultipartWriter.RoundTrip | src/streaming_body.cpp:1029-1133 | a written body is accepted and yields the same names, filenames and contents, with trimmed types and custom field values |
| MultipartWriter.Echo | src/streaming_body.cpp:791-916 | the same for the incremental parser under every cut |
| Utf8.Valid | src/protocol.cpp:880-911 | a text is accepted exactly when it is a concatenation of encoded Unicode scalar values |
| Utf8.DecodeIsWellFormed | src/protocol.cpp:880-911 | strict decoding and the definition of RFC 3629, section 4, agree on every byte sequence |
| Utf8.DecodeOfEncoded | src/protocol.cpp:880-911 | every list of scalar values is decoded from its encoding |
| Utf8.CutNearby | src/protocol.cpp:1090-1091 | a character boundary lies at most three bytes before any cut |
| Utf8.Truncate | src/protocol.cpp:1090-1091 | the longest well-formed prefix within the limit, at most three bytes shorter than the cut |
| WebSocketFrames.MaskedTwice | src/protocol.cpp:1004-1007 | masking twice gives the payload back |
| WebSocketFrames.MaskFlipsBits | src/protocol.cpp:1004-1007 | masking flips exactly the bits that are set in the byte of the mask that belongs to the position |
| WebSocketFrames.FrameLayout | src/protocol.cpp:1119-1161 | the bytes of a frame as section 5.2 of RFC 6455 lays them out |
| WebSocketFrames.LengthBytes | src/protocol.cpp:1142-1144 | the shift loop prints a length big-endian |
| WebSocketFrames.FrameIsParsed | src/protocol.cpp:1119-1161 | a sent frame is parsed by the other role, for all lengths, and the following bytes stay |
| WebSocketFrames.ParsedIsPrinted | src/protocol.cpp:945-1007 | whatever is accepted is exactly the minimal encoding of its frame, masked as the role demands |
| WebSocketFrames.VerdictIsStable | src/protocol.cpp:945-1007 | more bytes never change the verdict about a frame that was complete or faulty |
| WebSocketClosing.PrefixIsIncomplete | src/protocol.cpp:945-1001 | a frame that has not arrived whole is neither faulty nor complete |
| WebSocket.Channel.ReadFrame | src/protocol.cpp:945-1007 | the next frame or its fault, read as its bytes arrive |
| WebSocket.Channel.TakeDataFrame | src/protocol.cpp:1037-1070 | fragments are put together, and a text is judged as a whole |
| WebSocket.Channel.TakeCloseFrame | src/protocol.cpp:1009-1028 | a close frame is validated and echoed once |
| WebSocketClosing.CodesAreRegistered | src/protocol.cpp:913-918 | the valid close codes are 1000-1003, 1007-1014 and 3000-4999 |
| WebSocketClosing.CloseIsUnderstood | src/protocol.cpp:1009-1028 | a close frame is understood exactly when its code, most significant byte first, is registered and its reason well-formed |
| WebSocketClosing.ShortClose | src/protocol.cpp:1009-1013 | an empty close payload is code 1000, and a single byte is refused |
| WebSocketClosing.Handshake | src/protocol.cpp:1009-1098 | the code and the reason that one side sends are read by the other side and, from its echo, again, under every fragmentation |
| WebSocket.Channel.Read | src/protocol.cpp:945-1071 | the next message of the stream, with the answer that pings, close frames and faults get |
| WebSocket.Channel.Send | src/protocol.cpp:1073-1078 | a message is sent exactly when the channel is open, the size fits and a text is well-formed |
| WebSocket.Channel.Close | src/protocol.cpp:1084-1098 | one close frame with a valid code and the longest valid prefix of the reason within 123 bytes |
| WebSocket.Channel.SendFrame | src/protocol.cpp:1119-1161 | the bytes of a frame with the shortest length form |
| WebSocket.TakeKeepsLimit | src/protocol.cpp:1037-1054 | the accumulator and every delivered message stay within 64 MiB |
| WebSocket.PartsAreRead | src/protocol.cpp:1037-1054 | the rest of a fragmented message: interleaved control frames in order, then the whole message |
| WebSocket.ItemsAreRead | src/protocol.cpp:945-1071 | any sequence of messages, fragmented messages and control frames is read back in order |
| WebSocket.DeliveredWasSent | src/protocol.cpp:945-1071 | whatever is delivered is the concatenation of exactly the frames read for it, in a legal order, and well-formed if it is a text |
| WebSocket.Receive | src/protocol.cpp:945-1071 | the same for a channel under every fragmentation |
| RoutePatterns.CompilePattern | src/server.cpp:46-127 | a pattern is compiled element by element, or refused when malformed |
| RoutePatterns.LinearIsInOrder | src/server.cpp:117-126 | a linear pattern has a wildcard only at its end, no empty and no adjacent literals, and named parameters |
| RoutePatterns.CompileRoundTrip | src/server.cpp:46-127 | literals, `{name}`, `:name` at the start of a path segment and `*`, spelled as a pattern, are compiled to their segments, or to the regular expression that stands for them when a wildcard is not at the end |
| RoutePatterns.PatternKinds | src/server.cpp:46-58 | marked regular expressions are kept as they are, and texts without special characters are matched exactly |
| RoutePatterns.MalformedIsRefused | src/server.cpp:73-88 | an open brace and a parameter without a name are refused |
| RoutePatterns.Matcher.MatchSegments | src/server.cpp:132-170 | captures are extended by the values of the match, and restored when there is none |
| RoutePatterns.MatchIsGreediest | src/server.cpp:132-170 | a path matches if and only if it decomposes into the segments, and the values are the lexicographically greediest decomposition |
| RoutePatterns.Matcher.MatchPattern | src/server.cpp:172-196 | parameters change only when the pattern matches, by the decoded captures |
| RoutePatterns.CapturesOf | src/server.cpp:132-170 | every parameter and the wildcard are captured with their values, and literals are not |
| RoutePatterns.BoundValues | src/server.cpp:172-196 | the last capture of a name decides its parameter, and all other parameters are kept |
| RoutePatterns.ValuesAreDecoded | src/server.cpp:178-194 | an encoded value is bound decoded, and one that cannot be decoded as it is |
| Routes.Dispatcher.Build | src/server.cpp:899-918 | the index lists patterned routes in order and the first exact route of each text |
| Routes.Dispatcher.LocateRoute | src/server.cpp:922-958 | the merge of two buckets finds the least matching route |
| Routes.Dispatcher.FindRoute | src/server.cpp:960-982 | indexed dispatch equals trying all routes in order, with HEAD also served by GET, and binds the parameters of the found route alone |
| Base64.EncodeBlocks | src/common.cpp:1262-1276 | whole groups are written at their place and nothing else changes |
| Base64.Encode | src/common.cpp:1278-1295 | the encoding of RFC 4648, section 4, fills its buffer exactly |
| Base64.Decode | src/common.cpp:1297-1346 | the decoder with its fast path equals the quartet-wise definition |
| Base64.RoundTrip | src/common.cpp:1278-1346 | decoding an encoding gives the bytes back |
| Base64Texts.DecodableTexts | src/common.cpp:1309-1340 | a text is decoded exactly when it is whole quartets of letters with at most two padding characters at the end |
| Base64Texts.EncodedIsBase64 | src/common.cpp:1278-1295 | every encoding is such a text |
| Base64Texts.QuartetBits | src/common.cpp:1313-1342 | the bytes of a quartet are the leading bits of its letters, six from each, unused ones ignored |
| Base64.Encoder.Update | src/streaming_body.cpp:1145-1172 | the whole groups of pending and new bytes are printed, the rest is kept |
| Base64.Encoder.Finish | src/streaming_body.cpp:1174-1191 | the last group with its padding |
| Base64.EncodeStream | src/streaming_body.cpp:1145-1191 | any sequence of updates and a finish print the one-shot encoding |
| Base64.EncodedSizeIsExact | src/streaming_body.cpp:1198-1205 | the announced size is the length of the encoding, or the length does not fit into 64 bits |
| Paths.RemoveDotSegments | src/common.cpp:1025-1048 | on every absolute path the rewriting loop computes the stack of its segments |
| Paths.RemovedIsNormal | src/common.cpp:1025-1048 | the same for the rewriting as a function, empty segments kept |
| Paths.NormalPaths | src/common.cpp:1025-1048 | the result starts with a slash, has no dot segment and is a fixed point |
| Paths.DotSegments | src/common.cpp:1025-1048 | a single dot means nothing, two dots take back the segment before them, and at the root they are ignored |
| Paths.ResolveTarget | src/common.cpp:1163-1192 | the path of a reference behind the directory of the base is normalised; the query is the one of the reference, or of the base when the reference is empty |
| Paths.ResolveUrl | src/common.cpp:1163-1192 | the fragment is cut off; a reference with a scheme stays, one with an authority gets the scheme of the base, any other one is resolved behind the origin |
| Paths.DirectoryIsLongest | src/common.cpp:1180-1186 | the directory of the base is its longest part that ends with a slash |
| Paths.FragmentIsCut | src/common.cpp:1165-1165 | a reference ends at its first hash sign |
| Paths.SchemeIs | src/common.cpp:1012-1021 | a reference has a scheme exactly when its first colon ends a letter followed by letters, digits and `+`, `-`, `.` |

## Left out

- Sockets, TLS, DNS, libuv handles, threads and clocks: they appear as blocks that arrive, as the end of the stream, and as steps of the pool (a connection dies, a request is cancelled, a deadline passes, a timer fires). Failing and timed-out reads and writes are not modelled, so progress and round trips are stated for connections that deliver their bytes or close.
- Memory ordering: the atomic operations of `TaskState` are steps of one sequential order.
- Fairness: it is proved that no wakeup is lost and that somebody can always move, not that a particular waiter is served.
- Destroying a parent coroutine that is suspended on a task, and several consumers of one task.
- Consumer callbacks, progress callbacks, exceptions and allocation failure. The SSE handler is a function that accepts or refuses an event; HTTP bodies are buffered.
- Content decoding (zlib, Brotli, Zstd), CONNECT tunnels and proxies, redirects, authentication, `send_file`, static mounts.
- The target of an absolute URL in a request line is a function parameter of `HttpServing` (`parse_url`).
- Responses with a 1xx status sent by handlers; only the interim response for an expectation is covered.
- `std::regex` routes: a regular expression is an arbitrary function from pattern and path to captures; the generated expression is given as text and not compared with the linear matcher.
- `status_reason_view`: the reason phrase is a field of the modelled response.
- `parse_url`: `Paths.ResolveUrl` starts from scheme, origin and target of a parsed base, or from the failure to parse it.
- Paths.ResolveTarget: takes a reference whose fragment is already cut off and that has neither scheme nor authority; `Paths.ResolveUrl` has the branches in front of it.
- ConnectionPool.Pool.AwaitSuspend: the timer of a suspended request is started without failure; in the source a failing initialisation ends the request with an error instead of suspending it.
- HttpRequests.Sink.Write: connection errors and a progress callback that cancels are left out.
- HttpRequests.WriteRequest: connection errors and progress callbacks are left out.
- HttpMessages.ReadResponse: for trailers with a line feed the result is stated between the strict and the lax reading; `HttpCuts.BodyCutsDoNotMatter` says when these agree. Content decoding and the callback for a response head are left out.
- HttpServing.ReadRequest: the same for the trailers of a request; content decoding is left out.
- WebSocket.Channel.SendFrame: waiting for a concurrent writer and write errors are left out.
- Routes.Dispatcher.Build: the index of stream routes, which is built like the one of plain routes, is left out.
- Error messages and most error kinds: an operation succeeds or fails, except where a later step depends on the kind.
- Partial results of a rejected multipart body: `MultipartParser.ParsePieces` compares events only for accepted bodies.
- MultipartHead.ParsePartHead: header blocks come from the buffer of the parser, which is a plain string there; `ReadBuffer` is proved to behave like one.
- WebSocket.Channel.Read: sending waits for a concurrent writer in the source; here each call runs alone. The random mask of an answer is a parameter.
- The opening handshake of WebSocket and the selection of a subprotocol.
- The `boundary` parameter of a multipart content type and the check of its characters: the boundary is a field of the parser's configuration.
