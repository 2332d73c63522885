# Verification model of Wiregrid's clients and delivery helpers

A Dafny model of three parts of Wiregrid, and proofs about whole runs of each.

* **The native C client** (`Wire*.dfy`). A connection carries length-prefixed packets; each body is a
  version, a kind, an operation, a request id and up to 32 tagged fields. `WireCodec` has an independent
  encoder, the parser's specification and the in-place parser and writer. `WireReader` keeps a partial
  header and body across calls that time out. `WireEvents` has the ring buffer. `WireLedger` keeps the books
  of a connection as a value, scripts of the host included: what a read, a request and a poll do is a
  function of the books, and the lemmas say which books balance and what that means. `WireClient` is the
  client with its buffers and loops, whose methods are proved to compute these functions. `WireCalls` has
  the public calls and runs of them, and `WireApi` has them as methods. `WireEnds` tells from the scripts
  alone how waits, reads, writes, polls and requests end, `WireSays` what the peer reads of each call, and
  `WireCalm` compares runs over differently cut streams. What the peer, the kernel, the clock and the allocator do is a script
  read by `WireHost.Host`; every theorem is for every script.
* **The LFE delivery algebra** (`Lfe*.dfy`). Grouped acknowledgement, one-pass coalescing, hash
  partition, lanes as interleaved processes that may crash or be killed at any step, the composition of
  coalescing and lanes and its clean runs, the ordered and unordered kernels, and folds. Handlers, selectors, key functions
  and reducers are arbitrary functions that may fail; the runtime is a set of reservations from which
  `ack_many` takes the listed ids, or fails having taken any part of them; the order in which a map lists
  its keys is arbitrary.
* **The browser indexes and the request client** (`Ui*.dfy`). `UiTimeline` is the indexed timeline,
  `UiPlain` the plain list operations it is measured against, `UiScan` the scanning operations it
  speeds up. `UiClient` is the event-driven request client with its pending map, byte budget, timers and
  wrapping ids; `UiCalls` keeps its invariants as laws about a value, `UiIds` the pigeonhole argument.
  `OrderedMap` is the JavaScript `Map` of ECMA-262, section 24.1: entries in insertion order.

Main results, hardest first: `WireCalls.RunsAreFaithful`, `WireCalls.SameBytesSameRun`, `WireApi.Run`,
`WireEnds.PollDoes` and `WireEnds.AnswerArrives` for the C client; `LfeFlow.NothingReleasedUnhandled`, `LfeFlow.CleanRunIsExact`,
`LfeFlow.KeysKeepTheirOrder`, `LfeFlow.EveryEnvelopeCounted` and `LfeFinish.CleanRunExists` for the
composed LFE flow;
`UiClient.ChatClient.Run`, `UiTimeline.Timeline.Apply` and `UiScan.TimelineAgrees` for the browser code.

One property does not hold of every input and is proved with its exact condition: after a timeline has
taken over a container, every row's nonce is indexed if and only if no later row of the document carries
the nonce of a row that stayed (`UiTimeline.Timeline.constructor`). `UiTimeline.SharedNonceIsLost` and
`UiTimeline.SharedNonceStays` take over two rows with one nonce and show what goes wrong.

## Model

| member | source | states |
|---|---|---|
| WireBytes.NumOfU32 | native/c/src/wiregrid.c:179-188 | Reading a big-endian word undoes writing it |
| WireBytes.U32OfNum | native/c/src/wiregrid.c:179-188 | Writing a word gives back the four bytes it was read from |
| WireBytes.BytesCompareAsWords | native/c/src/wiregrid.c:179-188 | Words compare as their written bytes do, first byte first: network order |
| WireCodec.DecodeOfEncode | native/c/src/wiregrid.c:190-259 | A frame with at most 32 distinct nonzero tags and fields of at most 1 MiB is parsed back exactly |
| WireCodec.Layout | native/c/src/wiregrid.c:202-217 | Version, kind, operation, id and the first field stand where the format puts them |
| WireCodec.EncodeOfDecode | native/c/src/wiregrid.c:239-259 | Every accepted buffer is the encoding of its own result, which is well formed |
| WireCodec.AcceptsExactlyEncodings | native/c/src/wiregrid.c:239-259 | The parser accepts a buffer if and only if it encodes a well-formed frame |
| WireCodec.DecodeFieldsOfEncode | native/c/src/wiregrid.c:190-200 | Encoded fields, parsed behind fields already seen, come back in order |
| WireCodec.EncodeOfDecodeFields | native/c/src/wiregrid.c:246-257 | The fields an accepting pass returns encode to exactly the bytes it consumed |
| WireCodec.Find | native/c/src/wiregrid.c:261-264 | A lookup fails exactly when no field has the tag, and otherwise returns a field with it |
| WireCodec.SeenTag | native/c/src/wiregrid.c:253-254 | The duplicate scan answers whether an earlier field has the tag |
| WireCodec.ParseField | native/c/src/wiregrid.c:247-256 | One turn of the loop accepts exactly a lawful field and moves behind it |
| WireCodec.ParseFields | native/c/src/wiregrid.c:245-258 | The offset loop over the buffer computes the recursive specification, rejections included |
| WireCodec.ParseFrame | native/c/src/wiregrid.c:239-259 | The in-place parser accepts and returns exactly what the specification does |
| WireCodec.AppendField | native/c/src/wiregrid.c:190-200 | A field is refused as too long, refused for lack of room with the buffer untouched, or spliced in at the offset |
| WireStream.Split | native/c/src/wiregrid.c:219-237 | Every body cut from a stream has a length the reader would allocate |
| WireStream.SplitPackets | native/c/src/wiregrid.c:219-237 | Splitting undoes packing and then splits whatever follows by itself |
| WireStream.SplitMonotone | native/c/src/wiregrid.c:219-237 | More bytes never change the bodies that are already complete |
| WireStream.ReadingIsUnique | native/c/src/wiregrid.c:219-237 | Frames and partial remainder are determined by the bytes received |
| WireHost.DrainConserves | native/c/src/wiregrid.c:159-177 | Waiting for bytes loses and invents none, and succeeds exactly when all of them came |
| WireHost.WriteIsPrefix | native/c/src/wiregrid.c:141-157 | A write that succeeds has sent all of its bytes, one that fails a proper prefix |
| WireHost.Host.Recv | native/c/src/wiregrid.c:162-174 | A receive takes a prefix of the next chunk, or reports an interruption, a wait or a break |
| WireHost.Host.Send | native/c/src/wiregrid.c:144-154 | A send puts a prefix of the bytes on the wire, or nothing, as the script says |
| WireReader.ReadSome | native/c/src/wiregrid.c:162-174 | One turn of the read loop yields bytes or ends it with the result the script determines |
| WireReader.ReadInto | native/c/src/wiregrid.c:159-177 | The buffer receives what the script brings and keeps earlier bytes; the result is ok exactly when it is full |
| WireReader.ReadEnds | native/c/src/wiregrid.c:219-237 | A read adds to the saved bytes what it takes from the stream, succeeds exactly when that completes the packet, and refuses only bad lengths |
| WireReader.FrameReader.FillHeader | native/c/src/wiregrid.c:221-222 | The saved bytes grow by what the script brings of the missing header, and the result is the script's |
| WireReader.FrameReader.MakeRoom | native/c/src/wiregrid.c:223-229 | A length is rejected exactly when it is below 7 or above the limit, refused exactly when malloc refuses, and the saved bytes stay |
| WireReader.FrameReader.FillBody | native/c/src/wiregrid.c:230-231 | The saved bytes grow by what the script brings of the missing body, and the result is the script's |
| WireReader.FrameReader.ReadFrame | native/c/src/wiregrid.c:219-237 | The outcome is the function of the saved bytes and the scripts: header, length, memory, body; a whole frame is handed over, otherwise everything that came is saved |
| WireReader.FrameReader.Reset | native/c/src/wiregrid.c:109-114 | Closing drops the partial frame and nothing else |
| WireEnds.Divided | native/c/src/wiregrid.c:159-177 | Every script divides into what keeps a wait going and what stops it |
| WireEnds.DrainDoes | native/c/src/wiregrid.c:159-177 | A wait takes what it needs of the bytes at hand, or all of them and reports what stopped it; interruptions never do, and a call that may not block reports a timeout |
| WireEnds.ReadDoes | native/c/src/wiregrid.c:219-237 | Every way a read can end, blocking or not: no length yet, bad length, refused memory, unfinished body, whole packet; every byte at hand is accounted for |
| WireEnds.WriteDoes | native/c/src/wiregrid.c:141-157 | A write that nothing stops puts everything on the wire; a stopped one has put there exactly what was accepted, and reports why |
| WireEvents.RingPush | native/c/src/wiregrid.c:315-317 | Filling the slot behind the last one appends, around the end of the ring too |
| WireEvents.RingPop | native/c/src/wiregrid.c:323-326 | Clearing the head slot and moving on removes the oldest event and no other |
| WireEvents.EventQueue.Push | native/c/src/wiregrid.c:309-319 | The queue's contents grow by the event at the end |
| WireEvents.EventQueue.Pop | native/c/src/wiregrid.c:321-328 | The oldest event leaves; nothing is found exactly when the queue is empty |
| WireEvents.EventsGrow | native/c/src/wiregrid.c:285-307 | A longer reading of the stream only adds events at the end |
| WireEvents.EventParts | native/c/src/wiregrid.c:285-307 | A frame is no event exactly when operation, id, topic or payload is wrong; otherwise each part of the event is the data of its own tag |
| WireEvents.EventOfIs | native/c/src/wiregrid.c:285-307 | A body is an event exactly when it encodes an event frame whose fields say what the event says, tag by tag |
| WireEvents.JudgeMeans | native/c/src/wiregrid.c:348-368 | A frame is the answer exactly when it is a response with the id and operation of the request and the status ok or error; events are kept, all else is refused |
| WireLedger.ReadInSync | native/c/src/wiregrid.c:219-237 | After any read the bytes received are the packets of the frames read and an unfinished remainder |
| WireLedger.ReadKeeps | native/c/src/wiregrid.c:219-237 | A read adds one frame whose event or answer is still to be booked, or only bytes of an unfinished one |
| WireLedger.ConsiderKeeps | native/c/src/wiregrid.c:348-382 | A frame considered while a request waits leaves sound books that still wait, or balanced ones that are open exactly after an answer |
| WireLedger.ConsiderSorts | native/c/src/wiregrid.c:348-382 | A frame is kept as an event, accepted as the answer, or spoils the stream for a stated cause |
| WireLedger.AwaitKeeps | native/c/src/wiregrid.c:343-383 | Whatever comes while a request waits, the books balance at the end and the stream is open exactly after an answer |
| WireLedger.RequestKeeps | native/c/src/wiregrid.c:330-383 | Whatever a request meets, the books balance afterwards; once sent, the stream stays open exactly when it was answered |
| WireLedger.PollKeeps | native/c/src/wiregrid.c:589-604 | Whatever a poll meets, the books balance afterwards |
| WireLedger.RequestStream | native/c/src/wiregrid.c:330-383 | No request loses or invents a byte of the peer's stream, or hands an event over |
| WireLedger.PollStream | native/c/src/wiregrid.c:589-604 | A poll loses no byte and hands over exactly the event it returns |
| WireEnds.PollDoes | native/c/src/wiregrid.c:589-604 | Every way a poll can end: queued events first, open or closed; closed; no packet yet and every byte saved; an event handed over; or the stream closed for a stated reason |
| WireEnds.QueueDrains | native/c/src/wiregrid.c:589-593 | Polls hand over the queued events in order, open or closed, and touch nothing else |
| WireEnds.ClosedDrains | native/c/src/wiregrid.c:589-593 | After a close, polling hands over exactly what was queued, and then reports the close |
| WireLedger.AwaitDoes | native/c/src/wiregrid.c:343-383 | The wait ends with the answer and all events before it queued in order, or is abandoned after a read or frame that a cause explains |
| WireLedger.RequestDoes | native/c/src/wiregrid.c:330-383 | Every way a request can end: not sent, cut off while written, answered or abandoned |
| WireEnds.AnswerArrives | native/c/src/wiregrid.c:343-383 | When events there is room for and then the answer are at hand, the wait queues these events in order and returns that answer, whatever follows |
| WireLedger.EventsAreTheStreams | native/c/src/wiregrid.c:309-383 | While open, events delivered and then queued are exactly the events of all bytes received, read as one unsplit stream |
| WireLedger.NothingInvented | native/c/src/wiregrid.c:309-383 | Open or closed, delivered and queued events are a prefix of the events of the peer's stream, and at most one event read is missing |
| WireLedger.ChunkingIsInvisible | native/c/src/wiregrid.c:159-237 | Of two clients of one stream, however it was cut up, the one with more bytes has the other's frames and events as a prefix; with equal bytes all is equal |
| WireLedger.Lockstep | native/c/src/wiregrid.c:330-383 | While open between calls, the wire splits into exactly the requests, the stream's responses are exactly the answers, and they pair off by id and operation |
| WireLedger.RequestIsReadable | native/c/src/wiregrid.c:202-217 | A request of well-formed fields is parsed by the peer as sent |
| WireCalm.CalmRead | native/c/src/wiregrid.c:159-237 | When host and peer fail nothing, a blocking read brings the next packet exactly when its bytes are there, and never times out an answer at hand |
| WireCalm.SameRead | native/c/src/wiregrid.c:219-237 | Two scripts of the same bytes end a read alike, however these are cut up, delayed or interrupted |
| WireCalm.SameAwait | native/c/src/wiregrid.c:343-383 | Two scripts of the same bytes end a wait with the same answer and the same books |
| WireCalm.SameRequest | native/c/src/wiregrid.c:330-383 | Two scripts of the same bytes end a request alike |
| WireCalls.StepKeeps | native/c/src/wiregrid.c:385-604 | Every public call keeps the books balanced and the stream whole, and hands over exactly what it returns |
| WireCalls.PageFits | native/c/src/wiregrid.c:568-582 | A page that is handed out fits its buffers, so neither it nor its cursor is cut |
| WireSays.OneStringSays | native/c/src/wiregrid.c:385-396 | A string call writes nothing but the request with that one field, all of it when nothing hinders |
| WireSays.PublishSays | native/c/src/wiregrid.c:505-518 | The peer reads topic, payload, content type and class of a publish, each under its tag; what is too long is refused before anything moves |
| WireSays.HelloSays | native/c/src/wiregrid.c:468-475 | The peer reads the user and the token of the handshake |
| WireSays.HistorySays | native/c/src/wiregrid.c:541-563 | The peer reads the topic, the cursor and, in decimal, a limit other than zero; unlawful arguments are refused |
| WireSays.DigitsAreDecimal | native/c/src/wiregrid.c:548-551 | The digits of a limit read as a decimal number give the limit back, without leading zeros |
| WireSays.PageIs | native/c/src/wiregrid.c:564-584 | The page is the payload of the answer and the next cursor its cursor; what does not fit is refused with the length needed; no payload ends the stream |
| WireSays.BuffersHold | native/c/src/wiregrid.c:574-582 | The buffers hold the page and the NUL-terminated cursor in front, and their old bytes behind |
| WireCalls.RunKeeps | native/c/src/wiregrid.c:330-604 | After any run the books balance and what was delivered is what the calls returned, in order |
| WireCalls.RunsAreFaithful | native/c/src/wiregrid.c:309-604 | In any run under any scripts: while open, events returned and then queued are exactly those of the bytes received and requests pair off with answers; open or closed, they are a prefix of the peer's stream and at most one event read is missing |
| WireCalls.SameBytesSameRun | native/c/src/wiregrid.c:159-604 | Two clients that make the same blocking calls over the same bytes, cut up in any two ways without failures, get the same outcomes from every call |
| WireCalls.FirstExchange | native/c/src/wiregrid.c:475-483 | The first call on a fresh connection ends ok or with a remote error exactly when it is the one answered exchange, and which of the two is told by the answer's status |
| WireClient.WriteAll | native/c/src/wiregrid.c:141-157 | What goes out and how the write ends are what the script determines |
| WireClient.SendRequest | native/c/src/wiregrid.c:202-217 | An oversized frame or refused memory writes nothing; otherwise the packet goes out as the script lets it |
| WireClient.CopyFields | native/c/src/wiregrid.c:290-304 | The copies are all tried in order; they succeed together exactly when the script refuses none of them |
| WireClient.EventFromFrame | native/c/src/wiregrid.c:285-307 | Every part is copied or none: refused exactly when operation, id, topic or payload is wrong, out of memory exactly when a copy is refused; each part of the event is the data of its own tag |
| WireClient.Examine | native/c/src/wiregrid.c:348-368 | A frame is sorted into event, lawful answer to this request, or unlawful, exactly as its judgement says |
| WireClient.Client.constructor | native/c/src/wiregrid.c:462-467 | A new client has empty books that balance |
| WireClient.Client.StreamError | native/c/src/wiregrid.c:109-120 | The stream is closed and the partial frame dropped; everything else on the books stays |
| WireClient.Client.Receive | native/c/src/wiregrid.c:219-237 | The result and the books are those the scripts determine for one read |
| WireClient.Client.QueueEvent | native/c/src/wiregrid.c:309-319 | An event is appended, or refused: full queue, malformed event, no memory |
| WireClient.Client.Accept | native/c/src/wiregrid.c:364-381 | A refusal leaves the server's reason, cut to the error buffer, or a fixed text |
| WireClient.Client.Consider | native/c/src/wiregrid.c:348-382 | A frame read while a request waits is kept, accepted or ends the stream, as its judgement says |
| WireClient.Client.Await | native/c/src/wiregrid.c:343-383 | The loop refines the recursive specification of the wait, which ReadKeeps, AwaitKeeps and AwaitDoes explain |
| WireClient.Client.Request | native/c/src/wiregrid.c:330-383 | Result, response and books are those the scripts determine, and the books balance |
| WireClient.Client.Poll | native/c/src/wiregrid.c:589-604 | Result, event and books are those the scripts determine, which PollDoes tells in full |
| WireApi.AppendIf | native/c/src/wiregrid.c:514-518 | A chain of appends stops at the first failure and otherwise holds the encoded fields so far |
| WireApi.OneField | native/c/src/wiregrid.c:385-392 | The buffer is large enough: only malloc can refuse, and it holds the encoded field |
| WireApi.PublishBuffer | native/c/src/wiregrid.c:511-518 | Twenty bytes and the four lengths always suffice |
| WireApi.HistoryBuffer | native/c/src/wiregrid.c:548-561 | The computed size always suffices, with and without cursor and limit |
| WireApi.HelloBuffer | native/c/src/wiregrid.c:468-473 | The computed size always suffices, with and without a token |
| WireApi.OneString | native/c/src/wiregrid.c:385-396 | An overlong string changes nothing; any other is one request with exactly that field |
| WireApi.Publish | native/c/src/wiregrid.c:505-527 | Overlong parts and oversized bodies are refused before anything happens; any other is one request with the four fields |
| WireApi.TakePage | native/c/src/wiregrid.c:564-584 | A page is copied whole with its NUL-terminated cursor, refused as too large with both buffers untouched, or the stream is closed for want of a payload |
| WireApi.History | native/c/src/wiregrid.c:541-587 | Unlawful arguments only empty the cursor; otherwise one request, and both buffers and the books end as its answer says |
| WireApi.Connect | native/c/src/wiregrid.c:448-484 | There is a client exactly when the peer answered the handshake with the status ok, and then that exchange, with id 1, is its only one; any other answer is a remote error and no client |
| WireApi.Step | native/c/src/wiregrid.c:385-604 | Each public call has the outcome and leaves the books its specification determines |
| WireApi.Run | native/c/src/wiregrid.c:330-604 | Any calls in any order: each outcome is that of its call in the books the calls before left |
| LfeAcks.ReleasesOnlyListed | lib/wiregrid.ex:744-756 | A granted call removes exactly the listed ids of that session, a failing one no others |
| LfeAcks.GroupedIds | bindings/lfe/wiregrid_fast.lfe:133-141 | Every session collects its ids, each as often as it occurs, in reverse order; no group is empty |
| LfeAcks.GroupingSucceeds | bindings/lfe/wiregrid_fast.lfe:133-149 | Grouping fails exactly when an envelope lacks an id |
| LfeAcks.GroupsHoldPairs | bindings/lfe/wiregrid_fast.lfe:128-141 | The groups hold exactly the session and delivery ids of the envelopes, in any map order |
| LfeAcks.EveryItemPicked | bindings/lfe/wiregrid_fast.lfe:133-141 | Over a full list of distinct classes every item falls into exactly one bucket |
| LfeAcks.AckGroupsReleases | bindings/lfe/wiregrid_fast.lfe:151-160 | Success releases all groups and counts every id; failure releases nothing outside them |
| LfeAcks.AckGroupedReleases | bindings/lfe/wiregrid_fast.lfe:128-160 | Success releases exactly the given envelopes' reservations; failure no others; a missing id releases nothing |
| LfeAcks.AckedByIds | bindings/lfe/wiregrid_fast.lfe:128-160 | On success a reservation is gone exactly when an envelope carries its session and its delivery id |
| LfeAcks.WillingAckGrouped | bindings/lfe/wiregrid_fast.lfe:128-160 | When the runtime refuses nothing, only a missing id makes a grouped acknowledgement fail |
| LfeAcks.BoundedExactly | bindings/lfe/wiregrid_fast.lfe:182-191 | The bounded walk accepts exactly the lists within the limit |
| LfeAcks.OrdersExist | bindings/lfe/wiregrid_fast.lfe:130 | There are orders in which a map can list its keys, so the statements about all of them say something |
| LfeCoalesce.KeySortSorts | bindings/lfe/wiregrid_coalesce.lfe:74-78 | The sort by index is sorted and a permutation |
| LfeCoalesce.SurvivorsAre | bindings/lfe/wiregrid_coalesce.lfe:34-53 | The specification keeps exactly the durable envelopes and the ephemeral ones with no later one of their key, in order |
| LfeCoalesce.SupersededMeans | bindings/lfe/wiregrid_coalesce.lfe:34-53 | An envelope is superseded exactly when it and a later one are ephemeral and have the same key, where the delivery id stands in for a key that cannot be computed |
| LfeCoalesce.RaisingKeysStandAlone | bindings/lfe/wiregrid_coalesce.lfe:89-94 | Envelopes with different delivery ids whose key functions raise do not supersede each other |
| LfeCoalesce.CollectTracked | bindings/lfe/wiregrid_coalesce.lfe:34-53 | The pass knows at every point the durable envelopes, the latest of every key and only superseded others |
| LfeCoalesce.CollectHolds | bindings/lfe/wiregrid_coalesce.lfe:34-53 | The pass loses and duplicates no envelope |
| LfeCoalesce.OnePassIsSpecification | bindings/lfe/wiregrid_coalesce.lfe:34-78 | One pass equals the quadratic specification; selected and superseded together are a permutation of the input |
| LfeCoalesce.SecondPassKeepsAll | bindings/lfe/wiregrid_coalesce.lfe:34-78 | A second pass keeps everything and supersedes nothing |
| LfeCoalesce.LatestReleasesSuperseded | bindings/lfe/wiregrid_coalesce.lfe:11-72 | Whatever the runtime does, only superseded envelopes are released; on success the survivors go on and the counts add up |
| LfeCoalesce.LatestReleasesAll | bindings/lfe/wiregrid_coalesce.lfe:55-72 | On success every superseded envelope of a batch without duplicate ids has been released |
| LfeCoalesce.LatestSucceeds | bindings/lfe/wiregrid_coalesce.lfe:11-18 | Unless the runtime refuses, a batch goes through exactly when it is within the limit and has its ids |
| LfePartition.PartitionPicks | bindings/lfe/wiregrid_lane.lfe:29-37 | Each lane's list is the reverse of the envelopes hashed to it |
| LfePartition.PartitionIsExact | bindings/lfe/wiregrid_lane.lfe:26-42 | Each lane is the input filtered by hash of key, no lane is empty or twice listed, every envelope is in one lane |
| LfePartition.LanesAreBounded | bindings/lfe/wiregrid_lane.lfe:26-42 | There are never more lanes than allowed, and lane numbers stay below the count |
| LfePartition.LanesAreHashes | bindings/lfe/wiregrid_lane.lfe:26-37 | An envelope is in the lane of the hash of its key, or of its delivery id when the key cannot be computed |
| LfeLanes.HandledSnoc | bindings/lfe/wiregrid_pipeline.lfe:63-82 | The successful envelopes are collected in order, each as its handler decides |
| LfeLanes.EndKeeps | bindings/lfe/wiregrid_pipeline.lfe:69-82 | An envelope that is decoded and whose handler returns ok or {ok, _} is noted and then counted; any other return is a failure, a raise ends the lane, and the notes say exactly what came of the prefix |
| LfeLanes.GroupKeeps | bindings/lfe/wiregrid_pipeline.lfe:63-68 | The acknowledgements prepared are exactly those of the envelopes whose handlers have returned success |
| LfeLanes.AckKeeps | bindings/lfe/wiregrid_fast.lfe:151-160 | One acknowledgement releases only deliveries whose handler in this lane has returned success before |
| LfeLanes.ProcessKeeps | bindings/lfe/wiregrid_lane.lfe:44-102 | Every step of a lane, a kill included, keeps the lane's invariant; only acknowledging steps release, and only deliveries whose handler had returned success before |
| LfeLanes.LaneSoFar | bindings/lfe/wiregrid_pipeline.lfe:63-82 | At any moment what a lane has begun is a prefix of its envelopes, and what has succeeded is a prefix of what its handlers make of these |
| LfeLanes.ParentCounts | bindings/lfe/wiregrid_lane.lfe:57-95 | Receiving a result, noticing a death or timing out counts each envelope of the lane once, with the lane's own counters when it sent them |
| LfeLanes.RunIsGood | bindings/lfe/wiregrid_lane.lfe:44-102 | Every state any interleaving can reach satisfies the invariant |
| LfeFlow.NothingReleasedUnhandled | bindings/lfe/wiregrid_flow.lfe:16-38 | In every interleaving with any crash or kill, at any moment, a released reservation was lawfully superseded, or its envelope was decoded and its handler has returned ok or {ok, _} by then |
| LfeFlow.DurableMeansHandled | bindings/lfe/wiregrid_flow.lfe:16-38 | In a batch without duplicate ids, when a durable delivery is no longer reserved its own handler has returned ok or {ok, _} |
| LfeFlow.NeverDone | bindings/lfe/wiregrid_pipeline.lfe:69-82 | An envelope that cannot be decoded, or whose handler answers anything else or raises, is never among the done |
| LfeFlow.RaisingKeepsTheLane | bindings/lfe/wiregrid_lane.lfe:97-102 | A handler that raises takes its lane with it: nothing of that lane is released and it never reports counters |
| LfeFlow.CleanRunIsExact | bindings/lfe/wiregrid_flow.lfe:16-38 | When all lanes report success, a selected delivery is released if and only if it could be decoded and its handler returned ok or {ok, _} |
| LfeFinish.LaneFinishes | bindings/lfe/wiregrid_lane.lfe:44-102 | A running lane left alone reports: its counters exactly when no handler raises and every handled envelope has its ids, a failure otherwise |
| LfeFinish.CleanRunExists | bindings/lfe/wiregrid_lane.lfe:57-102 | When no handler raises there is a run in which every lane reports its counters and the parent takes them all |
| LfeFlow.RefusedFlow | bindings/lfe/wiregrid_lane.lfe:123-134 | A flow starts only within all limits; unless the runtime refuses, lawful batches are refused exactly for lane count or timeout; a refused flow has released superseded envelopes at most |
| LfeFlow.EveryEnvelopeCounted | bindings/lfe/wiregrid_flow.lfe:16-38 | Selected and coalesced add up to the input; once all lanes are awaited handled and failed add up to selected, whatever happened to the lanes; handled is what the handlers did in the lanes that sent their counters, and all of it when every lane did |
| LfeFlow.LanesHandleAll | bindings/lfe/wiregrid_lane.lfe:26-42 | Handling lane by lane handles as many envelopes as handling the whole selection would |
| LfeFlow.LaneOrder | bindings/lfe/wiregrid_lane.lfe:26-55 | In any log of a run the entries of a key are a prefix of the key's envelopes |
| LfeFlow.KeysKeepTheirOrder | bindings/lfe/wiregrid_lane.lfe:26-55 | At any moment of any interleaving, envelopes of one lane key have been attempted in input order |
| LfeFlow.ReleasedWasHandled | bindings/lfe/wiregrid_pipeline.lfe:60-82 | What the lanes have released belongs to an envelope whose handler has returned ok or {ok, _}, in a lane that has been through all its envelopes without a raise |
| LfeFlow.SuccessReleases | bindings/lfe/wiregrid_pipeline.lfe:63-68 | A lane that reports success has released all it handled |
| LfeKernel.LoopSorts | bindings/lfe/wiregrid_kernel.lfe:24-63 | The loop acknowledges exactly the handled and the acknowledged undecoded, in order; its counters count what the selector and the handler answered |
| LfeKernel.KernelReleasesConsumed | bindings/lfe/wiregrid_kernel.lfe:16-76 | Exactly the envelopes acknowledged undecoded or handled are released, all others stay, counters add up to the batch |
| LfeKernel.KernelDecides | bindings/lfe/wiregrid_kernel.lfe:24-63 | For each reserved delivery, what becomes of it told by the answers of selector, decoder and handler |
| LfeKernel.KernelCounts | bindings/lfe/wiregrid_kernel.lfe:24-63 | The counters are the numbers of positions with each answer |
| LfeKernel.KernelSucceeds | bindings/lfe/wiregrid_kernel.lfe:16-76 | Unless the runtime refuses, a batch within the limit succeeds exactly when what is to be acknowledged has its ids |
| LfeKernel.FirstFailure | bindings/lfe/wiregrid_kernel.lfe:92-133 | Every batch has a first failure or none |
| LfeKernel.OrderedLoopStops | bindings/lfe/wiregrid_kernel.lfe:92-133 | The loop stops at the first failure with the consumed prefix, exact counters and the number of envelopes left |
| LfeKernel.OrderedReleasesPrefix | bindings/lfe/wiregrid_kernel.lfe:84-151 | Handled, acknowledged, kept and remaining add up to the batch; exactly the consumed envelopes before the first failure are released |
| LfeKernel.OrderedDecides | bindings/lfe/wiregrid_kernel.lfe:92-133 | For each reserved delivery of an ordered batch: kept ones and everything from the first failure on stay, the others go, told by the answers |
| LfeKernel.OrderedSucceeds | bindings/lfe/wiregrid_kernel.lfe:84-151 | Unless the runtime refuses, full success is reported exactly when nothing fails |
| LfeKernel.SuffixStaysReserved | bindings/lfe/wiregrid_kernel.lfe:80-84 | From the first failure on everything stays reserved |
| LfeFold.FoldEndsSomewhere | bindings/lfe/wiregrid_fold.lfe:27-45 | Every fold halts or raises at some position |
| LfeFold.LoopIsPlainFold | bindings/lfe/wiregrid_fold.lfe:27-45 | The loop computes the plain left fold of the reducer's answers up to the halting position and lists exactly the envelopes before it |
| LfeFold.FoldIsPrefix | bindings/lfe/wiregrid_fold.lfe:19-69 | The value is the plain fold over the successful prefix, exactly that prefix is released, and the rest is reported as remaining, also when acknowledging fails |
| LfeFold.FoldFollows | bindings/lfe/wiregrid_fold.lfe:27-69 | The value follows the reducer's answers envelope by envelope up to the first that cannot be decoded or is answered otherwise; exactly these envelopes are released |
| LfeFold.FoldRuns | bindings/lfe/wiregrid_fold.lfe:27-45 | Every fold has such a run of values, up to where it stops or raises |
| LfeFold.FoldSucceeds | bindings/lfe/wiregrid_fold.lfe:19-69 | Unless the runtime refuses, a fold within the limit is complete exactly when nothing halts it |
| LfeFold.RaisingReleasesNothing | bindings/lfe/wiregrid_fold.lfe:33 | A reducer that raises releases nothing |
| OrderedMap.Find | priv/ui/js/timeline.js:8-9 | A lookup finds the key's place, or no entry has the key |
| OrderedMap.UpdatesKeepKeys | priv/ui/js/timeline.js:17-23 | Setting and deleting keep keys distinct |
| OrderedMap.SetAndMove | priv/ui/js/timeline.js:34-36 | A key deleted and set again moves to the end; one only set keeps its place |
| UiIndex.LookupIsScan | priv/ui/js/timeline.js:44-46 | In a coherent timeline the nonce index answers what a scan of all rows would |
| UiIndex.ForgottenLinked | priv/ui/js/timeline.js:16-20 | Forgetting and removing a row keeps map order equal to container order, and the nonce index true and complete |
| UiIndex.AppendedLinked | priv/ui/js/timeline.js:71-74 | Appending a row keeps the indexes linked and complete |
| UiIndex.ReplacedSameLinked | priv/ui/js/timeline.js:54-59 | Replacing a row under its own id keeps its place and the indexes |
| UiIndex.ReplacedOtherLinked | priv/ui/js/timeline.js:60-70 | Replacing an optimistic row under a new id keeps its place in map and container |
| UiAdopt.KeepLastKeepsIds | priv/ui/js/timeline.js:33-37 | Of every id exactly one row stays, and every separator |
| UiAdopt.LastRowsStay | priv/ui/js/timeline.js:33-37 | A row stays exactly when no later row has its id, and the rows that stay keep their order |
| UiAdopt.KeepLastIgnores | priv/ui/js/timeline.js:35 | Dropping a row that has a later row of its id does not change which rows stay |
| UiAdopt.AdoptStep | priv/ui/js/timeline.js:33-37 | After each adopted row the nonce index holds exactly the nonces whose last carrier has kept its id |
| UiAdopt.AdoptRow | priv/ui/js/timeline.js:33-37 | One step of the adoption loop keeps everything known about the rows adopted so far |
| UiAdopt.AdoptedAll | priv/ui/js/timeline.js:33-37 | Once every row is adopted the indexes are linked and the container holds the last row of every id |
| UiAdopt.CoherentExactly | priv/ui/js/timeline.js:33-38 | Each row left is indexed by its nonce exactly when it is the document's last to carry it, so all are if and only if no later row carries one of their nonces |
| UiAdopt.RowIndexed | priv/ui/js/timeline.js:33-37 | A row that stays is what its nonce leads to exactly when no later row of the document carries it |
| UiPlain.ScanNonce | priv/ui/js/timeline.js:44 | A scan finds a row that carries the nonce, or no row does |
| UiPlain.SpecUpsertKeeps | priv/ui/js/timeline.js:40-78 | The plain upsert keeps separators, at most max rows, and distinct ids |
| UiPlain.UpsertRows | priv/ui/js/timeline.js:40-78 | The rows an upsert leaves, by position: the twin goes, the new row takes the place of the old or goes to the end, the last max stay |
| UiPlain.PutIsThere | priv/ui/js/timeline.js:26-32 | The row just put in is never the one evicted |
| UiPlain.RunsKeepSeparators | priv/ui/js/timeline.js:4-5 | No run of operations removes, adds or reorders a separator |
| UiTimeline.Timeline.constructor | priv/ui/js/timeline.js:6-38 | Of rows with one id the last stays, the oldest beyond max go, and nonces are fully indexed exactly under the stated condition |
| UiTimeline.Timeline.Trim | priv/ui/js/timeline.js:26-32 | Exactly the oldest rows beyond max are evicted and the index answers for the others are unchanged |
| UiTimeline.Timeline.AdoptAll | priv/ui/js/timeline.js:33-37 | The loop over the rows found establishes the adoption invariant for all of them |
| UiTimeline.Timeline.Known | priv/ui/js/timeline.js:42-45 | The row to replace is the one of the message's id, else the one its nonce leads to, and it is in the container |
| UiTimeline.Timeline.DropTwin | priv/ui/js/timeline.js:46-51 | An optimistic twin under another id goes; otherwise nothing changes |
| UiTimeline.Timeline.Place | priv/ui/js/timeline.js:54-74 | The row replaces the known one in place or is appended, with both indexes linked |
| UiTimeline.Timeline.Rebuild | priv/ui/js/timeline.js:60-69 | The rebuilt map has the new id in the old one's place |
| UiTimeline.Timeline.Upsert | priv/ui/js/timeline.js:40-78 | The container becomes what the plain list operation makes of it; afterwards exactly one row carries the message's nonce |
| UiTimeline.Timeline.Look | priv/ui/js/timeline.js:84 | A row is found exactly when the container has one of that id |
| UiTimeline.Timeline.Remove | priv/ui/js/timeline.js:85-91 | Exactly the row of the id goes, and the answer says whether there was one |
| UiTimeline.Timeline.Clear | priv/ui/js/timeline.js:92-96 | Every row goes and every separator stays |
| UiTimeline.Timeline.Destroy | priv/ui/js/timeline.js:97-103 | The indexes are emptied and later upserts refused |
| UiTimeline.Timeline.Apply | priv/ui/js/timeline.js:40-96 | Any run of upserts, removes and clears leaves the container the plain list operations leave |
| UiTimeline.SharedNonceIsLost | priv/ui/js/timeline.js:24 | Taking over two rows with one nonce keeps both and indexes only the second |
| UiTimeline.SharedNonceStays | priv/ui/js/timeline.js:40-78 | A message that then confirms the nonce replaces only the second row, so two rows still carry it |
| UiScan.Container.TrimTimeline | priv/ui/js/chat.js:109-113 | Exactly the oldest rows beyond max are removed |
| UiScan.Container.UpsertMessage | priv/ui/js/chat.js:89-97 | The first row of the id is replaced, else the row is appended, then the oldest go |
| UiScan.Container.ReconcileOptimistic | priv/ui/js/chat.js:99-107 | The first row with the nonce is replaced, else the row is appended, then the oldest go |
| UiScan.UpsertIsScan | priv/ui/js/chat.js:89-97 | With distinct ids, indexed and scanning upsert agree on a message whose nonce leads to no other row |
| UiScan.UpsertIsReconcile | priv/ui/js/chat.js:99-107 | Confirming an optimistic message under a new id agrees with the scanning reconciliation |
| UiScan.RunsAgree | priv/ui/js/chat.js:89-113 | From distinct ids any run of upserts with ids and without nonces leaves the same children through indexes and through scans |
| UiScan.TimelineAgrees | priv/ui/js/timeline.js:6-78 | A timeline over a container with distinct ids and at most max rows, after any such run, shows what the scanning functions show |
| UiIds.NthDistinct | priv/ui/js/client.js:129 | A full turn of the wrapping counter repeats no id and stays within 1 and 4294967295 |
| UiIds.NthIs | priv/ui/js/client.js:129 | The k-th following id, counted around 4294967295 |
| UiIds.Pigeonhole | priv/ui/js/client.js:127-130 | Distinct ids that are all pending are no more than the pending requests |
| UiIds.StepsAreFew | priv/ui/js/client.js:127-130 | As long as all following ids are pending, no more steps have been made than there are pending requests |
| UiCalls.RoomToSend | priv/ui/js/client.js:113-114 | An admitted request always fits beside what the socket has buffered |
| UiCalls.SettledSound | priv/ui/js/client.js:43-51 | Settling one request keeps budget, timers, exactly-once settlement and order |
| UiCalls.DeliveredSound | priv/ui/js/client.js:107-123 | Sending the oldest unsent request keeps all laws |
| UiCalls.AdmittedSound | priv/ui/js/client.js:141-149 | Admitting a request under a free id within the budget keeps all laws |
| UiCalls.DrainedSound | priv/ui/js/client.js:113 | The network draining the socket only makes room |
| UiCalls.TimerBelongs | priv/ui/js/client.js:142-146 | A live timer belongs to the one call it was started for, which is still pending |
| UiCalls.ExactlyOnce | priv/ui/js/client.js:43-51 | Counted over pending and settled, every admitted call occurs exactly once |
| UiCalls.TimersCount | priv/ui/js/client.js:142-146 | There are as many live timers as pending requests |
| UiCalls.SoundIsInOrder | priv/ui/js/client.js:43-149 | The laws give exactly-once settlement, admission order on the socket, the byte budget and one timer per request |
| UiCalls.ReadyQueuesNothing | priv/ui/js/client.js:90-96 | When all pending requests are sent no bytes are queued |
| UiClient.Refusal | priv/ui/js/client.js:132-140 | A request is admitted exactly when it can be serialised and fits with all that is queued and buffered; each refusal has its one reason |
| UiClient.ChatClient.Settle | priv/ui/js/client.js:43-51 | The request leaves with its timer and its share of the queue, and its promise is settled; an unknown id changes nothing |
| UiClient.ChatClient.Finish | priv/ui/js/client.js:52-59 | Every pending call is rejected once, in the order of admission, and the map is empty; a second call changes nothing |
| UiClient.ChatClient.Fail | priv/ui/js/client.js:60-65 | As Finish, and the socket is closed |
| UiClient.ChatClient.SendPending | priv/ui/js/client.js:107-123 | The request is sent, or rejected because the socket is shut or throws, never for lack of room |
| UiClient.ChatClient.Flush | priv/ui/js/client.js:94 | On an open socket that does not throw all waiting requests go out in order; on a shut one all are rejected |
| UiClient.ChatClient.OnMessage | priv/ui/js/client.js:77-105 | What each kind of server message does before and after readiness and after closing |
| UiClient.ChatClient.OnTimer | priv/ui/js/client.js:142-145 | A request timer settles exactly the call it was started for, though ids are reused |
| UiClient.ChatClient.OnConnectTimer | priv/ui/js/client.js:66-69 | The connect timer rejects all and closes |
| UiClient.ChatClient.OnSocketError | priv/ui/js/client.js:72 | A socket error rejects all and closes |
| UiClient.ChatClient.OnSocketClose | priv/ui/js/client.js:73-76 | A closed socket rejects all |
| UiClient.ChatClient.Close | priv/ui/js/client.js:169-172 | Closing rejects all and closes the socket |
| UiClient.ChatClient.NextId | priv/ui/js/client.js:129 | The loop stops within one step more than there are pending requests at the first free id |
| UiClient.ChatClient.Call | priv/ui/js/client.js:125-150 | Exactly when a call is admitted or refused and why, in bytes; and the whole new state when it is admitted, before and after readiness |
| UiClient.ChatClient.Enter | priv/ui/js/client.js:141-149 | Timer, map entry and bytes are added together, and a ready client sends before returning |
| UiClient.ChatClient.Run | priv/ui/js/client.js:1-174 | Every run of events keeps all laws; nothing is queued after readiness; a closed client has no pending request and no timer |

## Left out

- WireHost.Host.Recv: the clock, `poll`, DNS, dialling and signals appear only as scripted answers; after a finite script reads time out and writes succeed.
- WireApi.History: C strings are byte sequences, so NUL bytes inside them are not modelled; null clients and null topics are not either.
- WireApi.Publish: the copy of the server's event id into the caller's buffer, and that of the server version after a ping, are not modelled.
- WireApi.Connect: dialling is a parameter, and the text left in the caller's error buffer is not modelled.
- LfeAcks.ReleasesOnlyListed: the delivery runtime is an assumption; a refused call may have released any part of its list, and an id listed twice is counted twice.
- LfeLanes.ProcessKeeps: a lane does not restart and processes share nothing but the reservations; message passing is the parent's taking a result that was sent.
- LfeFlow.RefusedFlow: arguments that are not functions, integers or lists are not modelled, nor is a runtime that cannot report its limits.
- UiTimeline.Timeline.Upsert: a generated id is assumed to differ from every id shown, and nodes are told apart by a serial number.
- UiTimeline.Timeline.constructor: the row limit is taken after it has been clamped to 1 and 20000.
- UiScan.Container.UpsertMessage: a missing id is looked up as the text of undefined; the text of null is not told apart.
- UiScan.UpsertIsScan: messages whose nonce leads to another row are outside the comparison, because the scanning upsert leaves that row in place.
- UiClient.ChatClient.OnMessage: handlers run one at a time, and debug and notification callbacks are assumed not to call back into the client.
- UiClient.ChatClient.Call: serialisation is a function from the id to a byte length, or none when it throws.
- Promise scheduling, JSON, text encoding, scrolling, ARIA attributes and everything else of the DOM are not modelled.
- The LFE stage pipelines, routers, selectors, policies and worker loops would add easy members beside the kernel and the lanes.
- The other public LFE, Erlang and Elixir functions forward to parts of the runtime that are not part of this model.
