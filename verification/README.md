# The connection engine, modelled and proved

This project models the connection engine of the TCP server: the byte buffer every connection reads into and
writes from, the HTTP/1.1 request parser and the pipeline around it, the newline and length-prefix decoders, the
connection object, the reactor with its idle-timeout index, its mailbox and its write interest, the worker pool,
and the client on the other side of the wire. `dafny verify dfyconfig.toml` checks all of it.

## How it is laid out

| file | models |
|---|---|
| Config.dfy, Bytes.dfy | limits; byte strings and the searches for LF and CRLF |
| Sockets.dfy | the kernel: every result of `read` and `write` is scripted, so a theorem about all scripts covers every fragmentation and every error |
| Buffer.dfy | `Buffer`: two indices over an array, compaction, capped growth, `read_fd` |
| HttpText.dfy, HttpWords.dfy, HttpParser.dfy | `HttpParser`; words and what they are when lines are cut or joined |
| HttpFragmentation.dfy, HttpPrinting.dfy | what the parser does with cut-up input; a well-formed request is recovered, and exactly which lines are refused |
| HttpPipeline.dfy | the HTTP branch of `handle_read`: one pass |
| HttpReread.dfy, HttpSecondRead.dfy, HttpManyReads.dfy | requests that come in several reads: the state of the parser, what can be seen of the next read, and all reads of a connection |
| LineProtocol.dfy, LengthPrefix.dfy | the two framed protocols as functions on the byte stream |
| Serving.dfy | what handlers send while messages are handled, and when that closes the connection |
| Connection.dfy | `BaseConnection` and `EpollConnection`: send, shutdown, the four read handlers, the write handler |
| Timeouts.dfy, SubReactor.dfy | the deadline multimap, `check_timeouts`, the connection table and the shared metric |
| ReactorThreads.dfy | senders, reactor, eventfd, mailbox and EPOLLOUT as a transition system |
| ReactorLink.dfy | every run of that system is mirrored by a run of the tables of SubReactor.dfy |
| WorkerPool.dfy | the work queue, its workers and its destructor as a transition system |
| Client.dfy, ClientRoom.dfy | `TcpClient`, `writen`, `readn`; when the receive buffer has room |

Code that works by changing things step by step is a class or a method with loops; its `ensures` ties the new
state to a function of the old one, and the lemmas are about those functions. Threads are modelled as steps: one
critical section or one system call each, interleaved in any order.

## What the proofs found

The code is modelled as it is. Where a promise does not hold, the exact condition or a failing family is a lemma.

- `make_space` may return without the space it was asked for. `Buf.EnsureWritableExact` says exactly when,
  `SendGuardGap` says exactly which appends the overflow guard of `send` lets through nevertheless, and
  `GapIsReachable` gets there by ordinary use. The condition `RoomFor` is therefore a precondition of every append.
- The parser loses bytes at a cut between CR and LF, and at a cut behind an overlong partial line. `SafeCutExact`
  shows that no other cut is visible to any continuation.
- The repository's README (line 10) promises that the incremental parser supports fragmented arrival. The parser
  does, but its driver leaves an unfinished request in the input buffer and parses those bytes again with the next
  read. `HttpManyReads.NextReadExact` says exactly when that can be seen, after any number of reads: the requests
  queued, the outcome and the buffer are those of a single parse, whatever the next read brings, if and only if
  nothing is unfinished; or the request line is cut where the piece is blank, or has its first three words complete,
  or has a third word that is refused already; or the headers are cut where the unfinished piece and the request
  line, read together as one header line, are an acceptable field whose name has occurred or whose colon is in the
  piece. The last is the ordinary cut inside a header value, harmless unless the header is Content-Length and no
  digits have come (`InsideValueIsHarmless`). Inside the body and behind an overlong piece no cut is harmless:
  `CutInBodyFails` shows it for every well-formed request with a body, and `CutInVersionFails` for a family of
  request lines. If every cut is harmless, many reads dispatch what one read does (`HarmlessCutsDoNotMatter`,
  `ManyReadsAreOne`). `SameStateExact` is the stricter condition under which even the state of the parser is the
  same.
- The 400 response is appended to the output buffer and the shutdown behind it clears that buffer, so it is never
  written (`EpollConnection.Refuse`). Without a pool the 500 response of a handler that throws has the same fate: the
  pass ends in a shutdown before anything is written (`ResponsesFollow`).
- The length-prefix loop asks for four buffered bytes even when only a payload is missing. A last payload of one to
  three bytes can stay behind, and `FragmentationExact` shows that exactly the streams with such an ending depend on
  how they are cut.
- `check_timeouts` does not terminate when two due connections have last activity plus idle time exactly at the
  present instant (`TerminationExact`), which two connections accepted together and then silent bring about
  (`TwoTiesReachable`).
- `handle_read` takes a return value of 0 for the end of the stream, but `read_fd` also returns 0 for a wakeup without
  data, and when data is waiting and the buffer gives `read` no room. `ReadYieldsDataExact` says exactly when it
  returns a positive number, and `WaitingDataIsRefused` shows two bursts after which a healthy connection with data
  waiting is closed.
- Descriptors are registered edge-triggered (src/net/sub_reactor.cpp:98), and `read_fd` stops at a read of less than
  32 KiB. When that read was cut short by the buffer's own room, the bytes behind it are announced by no later edge.
  `BurstLeftExact` says exactly which bursts are left behind in part.
- The receive buffer of the client can lack room in the same way. `LineReceivedExact` says for one call of
  `receive_line` exactly when the line arrives for every cut of the stream. For sessions, `EchoSessionExact` shows that
  replies of more than 128 KiB in total can always be cut so that the client gets stuck, even if all messages are
  short. The overflow check of `receive_line` can never fire, because the storage itself is capped.

## Model

| member | source | states |
|---|---|---|
| Buffers.Buf.EnsureWritableExact | include/net/buffer_utils.h:68-152 | After `ensure_writable_bytes(len)` there are `len` writable bytes if and only if there already were, or the consumed prefix reaches 256 KiB and readable plus `len` fits in 4 MiB, or the prefix is below that, the free space around the data is too small and writer index plus `len` fits in 4 MiB |
| Buffers.SendGuardGap | src/net/base_connection.cpp:79-86 | Which appends the overflow guard of `send` admits although no room is made for them, both directions |
| Buffers.SendGuardDoesNotMakeRoom | src/net/base_connection.cpp:79-86 | An append the overflow guard admits and for which no room is made, with numbers |
| Buffers.GapIsReachable | include/net/buffer_utils.h:60-72 | A fresh buffer gets into that state by two appends of 128 KiB, 200000 bytes consumed and one more append, each of which has room |
| Buffers.FreshBufferHasRoom | include/net/buffer_utils.h:131-152 | A buffer nothing was consumed from has room exactly up to the 4 MiB cap |
| Buffers.GrowthExact | include/net/buffer_utils.h:131-152 | When the storage grows, it grows by half and by what was asked for, to 256 KiB at least and 4 MiB at most |
| Buffers.BufferIsQueue | include/net/buffer_utils.h:35-66 | Over any run of appends and retrieves the buffer is a byte queue: what was in it and what was put in equals what came out followed by what is left, through every compaction and growth |
| Buffers.ReadLoopConserves | include/net/buffer_utils.h:83-110 | Over any socket script `read_fd` appends exactly the bytes taken off the stream, in order; the storage never shrinks or passes 4 MiB; the result is the number of bytes added, or -1 for an error before any |
| Buffers.ReadFdBound | include/net/buffer_utils.h:83-110 | At most 129 reads that are not interrupted |
| Buffers.ReadYieldsDataExact | include/net/buffer_utils.h:87-110 | `read_fd` returns a positive number if and only if there is room for the read (the storage is not full behind a consumed prefix of 64 to 256 KiB, nor full at its cap behind a shorter one) and what comes first from the socket, interruptions apart, is data |
| Buffers.ReadErrorExact | include/net/buffer_utils.h:87-110 | `read_fd` returns -1 if and only if an error comes first, interruptions apart, and reports that error |
| Buffers.WaitingDataIsRefused | include/net/buffer_utils.h:87-100 | A burst of 120000 bytes of which all but one are consumed and one of 142144 bytes leave a buffer without room: the next read returns 0 although data is waiting |
| Buffers.BurstLeftExact | include/net/buffer_utils.h:87-110 | `read_fd` leaves part of a waiting burst behind if and only if buffered and waiting bytes together are more than the buffer can come to hold in one call: 4 MiB behind a consumed prefix of 256 KiB or more, the present storage less the prefix if that prefix is 64 KiB or more, or if less than 32 KiB are free behind the data while free and consumed space together make 64 KiB, and 4 MiB less the prefix otherwise |
| Buffers.Buffer.MakeSpace | include/net/buffer_utils.h:131-152 | Memmove and resize on the array act as compaction and growth on the abstract buffer and keep the readable bytes |
| Buffers.Buffer.Append | include/net/buffer_utils.h:60-66 | In place, the readable bytes grow by the argument |
| Buffers.Buffer.Retrieve | include/net/buffer_utils.h:35-48 | In place, the readable bytes lose their first `len`; a full retrieve resets both indices |
| Buffers.Buffer.RetrieveAsString | include/net/buffer_utils.h:51-55 | The first `len` readable bytes are returned and consumed |
| Buffers.Buffer.ReadFd | include/net/buffer_utils.h:83-110 | The loop over the array and the socket is the read loop the lemmas are about, with its result, its errno and its bound |
| HttpParsing.RunInvariant | src/http/http_types.cpp:27-95 | Every call keeps the parser's invariant (a body in progress is shorter than announced, a complete one has the announced length), consumes everything or stops in a final state, makes progress if there is anything to do, and its flags say what happened |
| HttpParsing.HttpParser.Parse | src/http/http_types.cpp:19-95 | The loop over the fields is `Run`; a complete request starts at 0 and its length is what was consumed |
| HttpParsing.HttpParser.TakeLine | src/http/http_types.cpp:41-70 | One complete line: request line, header or end of headers, and whether it failed |
| HttpParsing.HttpParser.GetRequest | src/http/http_types.cpp:165-170 | Hands the request over and starts afresh |
| HttpFragmentation.ParseSplit | src/http/http_types.cpp:19-95 | From any valid parser, feeding `a` and then `b` gives the parser, request, consumed bytes and flags of feeding `a + b`, unless the cut falls between CR and LF of a line or behind an overlong partial line |
| HttpFragmentation.SafeCutExact | src/http/http_types.cpp:29-36 | A cut is invisible to all continuations if and only if no partial line overflowed and no line state is left behind a CR |
| HttpFragmentation.FragmentationInvariance | src/http/http_types.cpp:19-95 | Feeding any number of chunks one after the other equals feeding their concatenation in one call, when every cut is clean |
| HttpFragmentation.PrefixDecides | src/http/http_types.cpp:27-95 | Bytes behind the consumed prefix have no influence on the result |
| HttpFragmentation.OverflowLosesBytes | src/http/http_types.cpp:30-36 | Behind an overlong partial line the next byte is refused, although the uncut input is consumed |
| HttpFragmentation.LineLimitExact | src/http/http_types.cpp:29-36 | A piece without the end of its line is refused if and only if it makes the line longer than 128 KiB; otherwise it is kept |
| HttpFragmentation.SplitCrlfIsMissed | src/http/http_types.cpp:29-36 | Cut between CR and LF the end of the line is not seen |
| HttpText.MatchesExact | include/common/string_utils.h:20-23 | Lower-casing a name and comparing it with a lower-case word is a match letter by letter in any mixture of case, both directions |
| HttpText.TrimExact | include/common/string_utils.h:6-10 | What `trim` returns is the one text with no white space at either end that is left when white space is taken off both ends |
| HttpText.StoulExact | src/http/http_types.cpp:134-136 | A value is read as a number if and only if it begins with white space, at most one sign and digits whose value is below 2^64, up to the first character that is no digit; a minus sign wraps around |
| HttpPrinting.PrintedRequestParses | src/http/http_types.cpp:97-162 | A well-formed request printed as in sections 3, 5 and 6.2 of RFC 9112 and followed by anything is parsed in one call into exactly its parts, consuming exactly its bytes; the names of its header fields, Content-Length and Connection among them, may be in any mixture of case |
| HttpWords.RequestLineExact | src/http/http_types.cpp:97-114 | A request line is accepted if and only if it is made of three words set off by white space, with the version acceptable, and then method, target and version are those words |
| HttpPrinting.FirstLineExact | src/http/http_types.cpp:97-114 | A request line stops the parser if and only if it has fewer than three words, or its third has five characters or more and does not begin with HTTP/ |
| HttpPrinting.HeaderLineExact | src/http/http_types.cpp:116-154 | A header line, with what was pending in front of it, stops the parser if and only if it cannot be read as a non-blank name, a colon and a value, or the name is Content-Length in any case and the value is no number within the limit |
| HttpPrinting.HeaderEffect | src/http/http_types.cpp:116-154 | An acceptable header line records the trimmed value under the trimmed name, and in any mixture of case Content-Length sets the length, Connection the keep-alive flag, Host, User-Agent and Content-Type their fields; nothing else changes |
| HttpPipeline.PassIsGreedySplit | src/net/epoll_connection.cpp:43-92 | A buffer that is complete requests followed by something that is not one yields exactly those requests, and the rest stays; a parse error behind them closes |
| HttpPipeline.PassTiles | src/net/epoll_connection.cpp:43-92 | Conversely every pass splits its buffer so: the raw views tile what was taken off it, and each of them parses alone to its request |
| HttpPipeline.PassOverflows | src/net/epoll_connection.cpp:69-77 | A 101st request closes and nothing is dispatched |
| HttpPipeline.PipelinedRequestsDispatched | src/net/epoll_connection.cpp:43-92 | Up to 100 pipelined printed requests (section 9.3.2 of RFC 9112) are dispatched one for one, in order, and the buffer is empty afterwards |
| HttpPipeline.WholePass | src/net/epoll_connection.cpp:43-92 | One read of everything goes on, behind the requests a first read of a part of it queues, with the bytes that read leaves |
| HttpPipeline.ReadsAtBoundary | src/net/epoll_connection.cpp:43-92 | When a first read ends on a request boundary the second one sees a fresh pass, and both together do what one read does if they hold at most 100 requests; otherwise the one read closes and dispatches nothing |
| HttpPipeline.UnfinishedBytesAreReadTwice | src/net/epoll_connection.cpp:87-91 | When a read ends inside a request, the next read parses the unfinished bytes a second time: same parser and same flags as if they stood in the stream twice (unless the first copy ends in CR and the second begins with LF, or the piece is overlong) |
| HttpManyReads.NextReadExact | src/net/epoll_connection.cpp:37-91 | After any number of reads with harmless cuts between them: whatever the next read brings, queue, outcome, close flag and buffer are as if the unfinished bytes had been read once, if and only if this cut is harmless, which can be checked beforehand on the unfinished piece and the recorded headers |
| HttpManyReads.SecondReadExact | src/net/epoll_connection.cpp:45-91 | The same behind any first read that leaves the connection alive |
| HttpManyReads.HarmlessCutsDoNotMatter | src/net/epoll_connection.cpp:37-91 | However a stream is cut, if every cut is harmless the same requests are dispatched in the same order and the same bytes are left |
| HttpManyReads.ManyReadsAreOne | src/net/epoll_connection.cpp:37-91 | Many reads with harmless cuts dispatch what one read of everything does, up to the limit of 100 for one read |
| HttpManyReads.InsideValueIsHarmless | src/net/epoll_connection.cpp:87-91 | A cut inside the value of a header with a name other than Content-Length is harmless |
| HttpManyReads.CutInBodyFails | src/net/epoll_connection.cpp:45-91 | Every well-formed request with a body that arrives in two reads with the cut inside the body: the first thing queued has the head of the request itself where the rest of the body should be, and what is dispatched is not the request, which one read dispatches |
| HttpReread.SameStateExact | src/net/epoll_connection.cpp:45-91 | The second read leaves the very same pass, down to the state of the parser, for every continuation, if and only if nothing was unfinished, or the cut is inside the headers and the unfinished piece and the request line read together are an acceptable field whose name has occurred |
| HttpReread.ExtraFieldExact | src/http/http_types.cpp:116-154 | Adding one field and then all recorded fields again leaves the request as it is if and only if the name of that field is recorded |
| HttpPipeline.CutInVersionFails | src/net/epoll_connection.cpp:53-60 | A family of well-formed requests that are dispatched from one read and refused from two |
| LineProtocol.SplitIsExact | src/net/epoll_connection.cpp:176-182 | The split loses nothing: LF-terminated lines without LF inside, then a rest without LF |
| LineProtocol.SplitIsUnique | src/net/epoll_connection.cpp:176-182 | LF-terminated lines without LF inside followed by a rest without LF are split back into exactly those lines and that rest |
| LineProtocol.LinesOverAnyFragmentation | src/net/epoll_connection.cpp:172-206 | Over any sequence of reads the messages handed over are the non-empty lines of the stream, one CR stripped, and the buffer holds what follows the last LF |
| LineProtocol.WrittenLinesArrive | src/net/epoll_connection.cpp:172-206 | Lines written with LF or with CR and LF, in any mixture and however the stream is cut, are handed over without their endings, the empty ones left out; the client reads all of them so |
| LineProtocol.EchoReplyExact | src/server/main.cpp:84-89 | A message is sent back with LF behind it, without a CR at its end |
| LineProtocol.EchoRoundTrip | src/server/main.cpp:84-89 | Messages that are not empty, hold no LF and do not end in CR come back equal and in order for every fragmentation in both directions |
| LengthPrefix.HeaderRoundTrip | src/net/epoll_connection.cpp:334-336 | A 32-bit length is written most significant byte first, and reading it back is the identity |
| LengthPrefix.FramesOverAnyFragmentation | src/net/epoll_connection.cpp:331-364 | Over any sequence of reads the frames are those of the ideal decoding of the stream, short of at most the last; which case applies can be told from the decoder's fields; the connection dies exactly on an excessive length |
| LengthPrefix.FragmentationExact | src/net/epoll_connection.cpp:332-361 | A stream is decoded in full for every fragmentation if and only if it does not end in a frame of 1 to 3 bytes with at most 3 bytes behind its header |
| LengthPrefix.FramesRoundTrip | src/net/epoll_connection.cpp:387-408 | What the framing writes is decoded in order for every fragmentation, in full when the last payload is empty or at least 4 bytes long |
| LengthPrefix.FramesDecode | src/net/epoll_connection.cpp:387-408 | The ideal decoding of written frames and an unfinished tail is those frames and that tail |
| Connections.EpollConnection.Send | src/net/base_connection.cpp:65-104 | A live connection accepts the bytes, behind its output, if and only if output and bytes together stay within 4 MiB, and otherwise is shut down and returns -1; a closed one or an empty message returns 0; socket plus buffer stays equal to everything accepted, and output has write interest |
| Connections.EpollConnection.React | src/net/base_connection.cpp:65-104 | A handler's sends are behind the output, in order, and the connection is open if and only if all of them stay within 4 MiB and the handler does not shut it down |
| Connections.EpollConnection.Shutdown | src/net/base_connection.cpp:24-54 | Only the first call has an effect; it empties both buffers |
| Connections.EpollConnection.HandleWrite | src/net/epoll_connection.cpp:209-249 | One write moves a prefix of the buffer to the socket and nothing else; interest is dropped exactly with an empty buffer; only an error closes |
| Connections.EpollConnection.HandleLineProtocol | src/net/epoll_connection.cpp:172-206 | The loop over the buffer hands over the messages of the split and keeps its rest, with what the handlers send behind the output, or stops behind the message whose handling closed the connection |
| Connections.EchoDone | src/server/main.cpp:84-89 | With the echo handler the connection survives if and only if nothing closes it and the echo of all messages stays within 4 MiB; then that echo is behind its output |
| Connections.EpollConnection.HandleProtobuf | src/net/epoll_connection.cpp:331-364 | The loop over buffer and fields is the decoder's drain; the connection survives if and only if the decoder does and all replies fit, and then the output has grown by one frame for each reply, in frame order |
| Serving.RepliesAreFrames | src/net/epoll_connection.cpp:349-408 | What is sent for a number of frames is the framing of the serialised replies, in frame order, with the word "empty" for an empty one and nothing where there is none |
| Serving.SerialisedRepliesAreSent | src/net/epoll_connection.cpp:387-408 | If every frame has a reply and no serialisation is empty, what is sent is exactly the framing of these serialisations |
| Serving.ServedOutput | src/net/base_connection.cpp:77-96 | A connection survives a number of messages if and only if no handler closes it and everything sent stays within 4 MiB; then all of it is behind its output, in order; otherwise the last message handled is the first that closes or overflows |
| Serving.EchoIsSent | src/server/main.cpp:84-89 | What the echo handler sends for a number of messages is their echo |
| Connections.EpollConnection.SendProtobuf | src/net/epoll_connection.cpp:387-408 | The output grows by the frame of the serialisation, or of the word "empty" for an empty one, unless that passes the cap |
| Connections.EpollConnection.ParseRequests | src/net/epoll_connection.cpp:43-92 | The loop over buffer, parser and queue is the pass the pipeline lemmas are about; the pipeline depth is the length of the queue |
| Connections.EpollConnection.Refuse | src/net/epoll_connection.cpp:51-60 | A parse error closes; the 400 response goes with the output buffer |
| Connections.EpollConnection.DispatchRequests | src/net/epoll_connection.cpp:94-156 | Requests leave the queue first in first out until it is empty or the handling of one closes the connection; without a pool an exception is answered with 500, and the last request of a closing pass closes |
| Connections.ResponsesFollow | src/net/epoll_connection.cpp:94-156 | After a pass the connection is open if and only if no handler closed it, all responses fit, and unless there is a pool no handler threw and nothing asked for closing; then everything the handlers sent is behind the output and the queue is empty |
| Connections.NextReadIsNextPass | src/net/epoll_connection.cpp:37-91 | What a pass leaves in a connection that stays open is where the pass of the next read starts |
| Connections.EpollConnection.HandleHttp | src/net/epoll_connection.cpp:37-156 | Both loops together: a pass that fails dispatches nothing, any other the requests it queued, in order, with the responses behind the output |
| Connections.EpollConnection.Receive | src/net/epoll_connection.cpp:15-29 | The connection stays open if and only if the buffer gives the read room and the first thing from the socket, interruptions apart, is data |
| Connections.EpollConnection.HandleRead | src/net/epoll_connection.cpp:9-169 | One read event in each mode: what arrives goes behind what is buffered, is decoded by the mode's decoder, and is answered by whatever the handlers send |
| Connections.OneMoreLine | src/net/epoll_connection.cpp:176-200 | One line more keeps the account of messages handed over and still to be split |
| Connections.OneMoreFrame | src/net/epoll_connection.cpp:332-361 | One frame more keeps the account of frames taken out and still to be decoded |
| Timeouts.TerminationExact | src/net/sub_reactor.cpp:363-377 | The scan ends if and only if at most one due entry belongs to a connection whose last activity plus idle time is this very instant |
| Timeouts.ScanOutcome | src/net/sub_reactor.cpp:363-377 | When the scan ends no entry is left below now, and which entries and which expired connections come out of it is determined from the tables alone, both directions |
| SubReactors.TwoTiesReachable | src/net/sub_reactor.cpp:363-377 | Two connections accepted at the same moment and silent for their idle time reach a tick that does not end |
| SubReactors.TickAgainstFullScan | src/net/sub_reactor.cpp:357-397 | A tick closes only connections idle for too long, and every one whose deadline, counted from registration or last activity, has passed; the others are untouched |
| SubReactors.TickIsFullScan | src/net/sub_reactor.cpp:357-397 | For a connection active since its registration the lazy index decides as a full scan does, both directions |
| SubReactors.ReachableIsValid | src/net/sub_reactor.cpp:92-119 | Over all runs: sorted index, one entry for each descriptor, entries only for registered connections, and a key no later than the deadline for every watched one |
| SubReactors.ActivityCounts | src/net/epoll_connection.cpp:31 | Over all runs a registered connection is the one its last effective registration brought, with the moment of its last activity since, as the list of events has it |
| SubReactors.EveryTickIsSound | src/net/sub_reactor.cpp:357-397 | Over all runs, in terms of the list of events: a tick closes a connection only if it is watched and every activity since its registration is longer ago than its idle time, and closes every watched one whose registration and last activity both are |
| SubReactors.MetricIsTotal | src/net/sub_reactor.cpp:312-349 | Over all runs of any number of reactors the shared metric is the sum of the table sizes, so zero once all are empty |
| SubReactors.SubReactor.Register | src/net/sub_reactor.cpp:92-112 | The registration functor on the fields: table, index and metric together, nothing for a descriptor already there |
| SubReactors.SubReactor.CloseConnection | src/net/sub_reactor.cpp:312-354 | The table entry and every index entry go, and the metric counts one off if there was one |
| SubReactors.SubReactor.EraseEntries | src/net/sub_reactor.cpp:325-331 | The iterator loop removes every entry of the descriptor and no other |
| SubReactors.SubReactor.DoPendingFunctors | src/net/sub_reactor.cpp:400-418 | The mailbox is swapped out and run oldest first |
| SubReactors.SubReactor.CollectExpired | src/net/sub_reactor.cpp:361-377 | The iterator loop that erases and re-inserts, terminating under the exact condition, is the scan the lemmas are about |
| SubReactors.SubReactor.CheckTimeouts | src/net/sub_reactor.cpp:357-397 | A tick keeps the tables consistent and leaves no entry below now |
| SubReactors.SubReactor.CloseRemaining | src/net/sub_reactor.cpp:218-230 | The cleanup at the end of the loop empties the tables and counts everything off |
| SubReactors.SubReactor.Shutdown | src/net/sub_reactor.cpp:436-459 | Whatever is left in the tables is counted off the metric and the tables end empty |
| ReactorThreads.NextKeepsValid | src/net/sub_reactor.cpp:129-310 | Every step of every thread keeps mailbox, tables, output account and write interest consistent |
| ReactorThreads.MailboxIsSafe | src/net/sub_reactor.cpp:90-123 | Over all interleavings functors run in the order they were posted and at most once, what has not run is queued, and until the reactor stops a non-empty mailbox has a wakeup on its way |
| ReactorThreads.OutputIsDelivered | src/net/base_connection.cpp:65-104 | Over all interleavings the socket of a live registered connection has the first bytes of everything given to `send` in the run, as many as the flushes took, and the rest is buffered; buffered output has EPOLLOUT on, a queued request for it, or a sender about to make one |
| ReactorThreads.FinishingIsBounded | src/net/sub_reactor.cpp:142-153 | However the threads are scheduled, what has been begun is finished within a bounded number of steps |
| ReactorThreads.QuietMeansDone | src/net/sub_reactor.cpp:234-310 | In a reachable state where no thread can go on and the reactor has not stopped, every functor posted has run and EPOLLOUT is on for every live registered connection with output |
| ReactorThreads.PromisesKept | src/net/base_connection.cpp:90-96 | A sender that made the buffer non-empty stays committed until it posts |
| ReactorLink.PendingAgrees | src/net/sub_reactor.cpp:400-418 | Running a batch step by step does to registrations and write interest what the run of the same functors does to the descriptor tables |
| ReactorLink.RunsAgree | src/net/sub_reactor.cpp:90-123 | Every interleaving of the threads is mirrored by a run of the descriptor tables, from registration through flush and write interest to close, that ends with the same descriptors registered and the same write interest |
| ReactorLink.ThreadsKeepTables | src/net/sub_reactor.cpp:90-123 | So whatever the threads do, the descriptors registered are those of tables whose deadline index is consistent and covers every watched connection |
| WorkerPools.NextKeepsValid | src/common/worker_pool.cpp:27-67 | Every step keeps: no lost wakeup, each accepted task dequeued once and in order, workers leave only a stopped and empty pool |
| WorkerPools.NoTaskLost | src/common/worker_pool.cpp:27-67 | Over all runs from a new pool, for any number of workers and submitters: the tasks submitted before the stop are dequeued in that order, every one is queued, in progress or finished, and waiting work has somebody awake or a notification outstanding |
| WorkerPools.StepMakesProgress | src/common/worker_pool.cpp:46-67 | After the stop every step but a rejected submission decreases what is left to do |
| WorkerPools.StopDrains | src/common/worker_pool.cpp:19-67 | After the stop runs are bounded, and one that cannot go on has all workers gone and every task submitted before the stop run exactly once; both directions |
| WorkerPools.WorkerPool.Submit | src/common/worker_pool.cpp:27-39 | A stopped pool drops what is submitted, any other puts it behind its queue and owes a notification |
| WorkerPools.WorkerPool.StopAll | src/common/worker_pool.cpp:19-25 | The destructor's critical section is the stop step, with a notification to all owed |
| WorkerPools.WorkerPool.TakeTask | src/common/worker_pool.cpp:50-57 | The critical section of a worker: wait, leave, or take the oldest task |
| Clients.Writen | include/net/net_utils.h:84-102 | The loop writes a prefix, whole unless the socket would block or fails, and the result says which |
| Clients.WriteRunExact | include/net/net_utils.h:84-102 | Everything is written if and only if the kernel takes that much, in whatever portions and with whatever interruptions, before it would block or fails; otherwise exactly what it takes |
| Clients.Readn | include/net/net_utils.h:104-123 | The loop reads a prefix of the stream, whole unless the socket would block, fails or ends, and the result says which |
| Clients.ReadRunConserves | include/net/net_utils.h:104-123 | What was read is the head of the stream and the rest is still to come |
| Clients.ReadRunExact | include/net/net_utils.h:104-123 | Everything asked for is read if and only if that much arrives, in whatever portions and with whatever interruptions, before the socket would block, fails or ends; otherwise exactly what arrives |
| Clients.ReadRunReads | include/net/net_utils.h:104-123 | All that is asked for is read if the stream holds it and nothing goes wrong, however it is cut up |
| Clients.TcpClient.SendMessage | src/client/tcp_client.cpp:58-71 | A connected client sends message and LF if and only if the kernel takes as many bytes before it would block or fails; otherwise a prefix of them, and the client is disconnected |
| Clients.TcpClient.ReceiveLine | src/client/tcp_client.cpp:74-110 | The loop over buffer and socket is the line reader the lemmas are about |
| Clients.LineRunIsFirstLine | src/client/tcp_client.cpp:74-110 | A line that is returned is the first line of everything buffered and to come, and exactly the bytes behind its LF remain |
| Clients.ClientReadsLines | src/client/tcp_client.cpp:74-110 | Call after call the client reads the lines of the stream in order, however it is cut up |
| ClientRoom.LineReceivedExact | src/client/tcp_client.cpp:74-110 | For one call, with no LF buffered: the line arrives for every cut of the stream if and only if its length plus what one read may take in behind it is within what the buffer can hold without growing badly (its size less the consumed prefix if that is between 1 byte and 256 KiB, 4 MiB otherwise) |
| ClientRoom.LineIsCut | src/client/tcp_client.cpp:91-104 | Otherwise a cut that leaves the append without room |
| ClientRoom.EchoSessionExact | src/client/tcp_client.cpp:58-110 | Client, server decoder, echo handler and client reader end to end: the client reads its own messages, in order, for every cut in both directions, if and only if the replies together are no longer than 128 KiB |
| ClientRoom.LongSessionFails | src/client/tcp_client.cpp:91-104 | For every longer session, a cut of the replies with which the client gets stuck |
| Clients.TcpClient.SendProtobuf | src/client/tcp_client.cpp:142-161 | One frame is written, or a proper prefix of it and the client is disconnected |
| Clients.TcpClient.ReceiveProtobuf | src/client/tcp_client.cpp:163-197 | Two reads give the payload; everything else disconnects |
| Clients.ResponseIsFirstFrame | src/client/tcp_client.cpp:163-197 | A payload that is returned has the announced length and is the head of the stream behind its header |
| Clients.ResponsesReceived | src/client/tcp_client.cpp:163-197 | All responses of a session arrive in order over any fragmentation, with no exception for short ones |
| Clients.ProtobufSession | src/client/tcp_client.cpp:142-197 | End to end: however requests and responses are cut up, the server takes out the requests that were framed and the client gets the serialised reply to each, in order, provided the last request is empty or at least 4 bytes long |

## Left out

- ClientRoom.EchoSessionExact: the first message, with its LF, is taken to be shorter than 128 KiB; a longer first line makes the buffer grow to a size that depends on the cut, and then `LineReceivedExact` speaks for each call.
- Connections.EpollConnection.Send: has room for the bytes as a precondition, because without it the code writes past its storage.
- Connections.EpollConnection.React: has room for the handler's sends as a precondition, for the same reason.
- Connections.EpollConnection.SendProtobuf: has room for the frame as a precondition, for the same reason.
- Connections.EpollConnection.HandleLineProtocol: has room for what the handlers send as a precondition, for the same reason.
- Connections.EpollConnection.HandleProtobuf: has room for the replies as a precondition, for the same reason.
- Connections.EpollConnection.HandleHttp: has room for the responses as a precondition, for the same reason.
- Connections.EpollConnection.HandleRead: has room for whatever the handlers send as a precondition, for the same reason.
- SubReactors.SubReactor.CheckTimeouts: requires that at most one due entry is a tie, because otherwise the loop does not end.
- HttpManyReads.NextReadExact: takes every earlier cut to be harmless; what later reads show behind a cut that did harm is described for `CutInBodyFails` and `CutInVersionFails` only. It does not ask that the pass before leaves the connection to be kept alive, which the code does before it reads again.
- HttpPrinting.PrintedRequestParses: `std::stoul` is modelled for an optional sign and decimal digits; locale-dependent white space is not.
- WorkerPools.StopDrains: takes the queue and the mutex to outlive the join, although the member order of the class destroys them first.
- WorkerPools.WorkerPool.Submit: an empty `std::function` is not modelled.
- System calls are scripted; epoll, eventfd, timerfd and socket options are steps. A short write is taken to mean that a later edge comes, so delivery itself is not claimed, only that it is asked for.
- Failure of the eventfd write and of `epoll_ctl` for write interest.
- `send` and `handle_write` call `shutdown` while they hold the buffer mutex that `shutdown` takes; both paths are modelled as the shutdown they intend and leave the live states.
- Descriptor lifetime, double close and C++ object lifetime: a connection is an identifier with a live flag.
- Connections.EpollConnection.DispatchRequests: records the raw text of a request; without a pool the source passes `raw.data()`, so its handler sees the storage from there up to the first NUL byte instead.
- What handlers and other threads send, close or throw while messages are handled is a parameter by position; what the handlers compute is not modelled.
- The order of responses when several workers handle requests of one connection, and handlers that run after the connection was closed.
- Delivery of buffered output after a shutdown, which clears the buffers.
- Protocol detection: the mode is fixed when the connection is made. A detected non-HTTP protocol also drops the HTTP handler.
- Parsing and serialising of protobuf messages: payloads are byte strings, and a payload that does not parse is answered like any other.
- Chunked transfer coding and the other parts of RFC 9112 that the parser does not implement.
- `find_crtf`, `shrink_if_needed`, `peek_view` and the direct `receive` of the client: no property beyond their bodies.
- Wrap-around of `size_t`: all sizes are capped far below it. `htobe32` and `htonl` truncate, and `Header` does too.
- The strict limit on connections, the accept loop, routing, logging, the metrics report and gRPC.
