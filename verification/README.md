# myRocketRPC in Dafny

A model of the parts of myRocketRPC that carry its guarantees, with proofs:

- the growable byte buffer of a connection, the TinyPB wire format, and the coder that prints frames into
  the one and scans, consumes and parses them from the other;
- a connection's read, decode and write loops, the table of callbacks waiting for replies, the dispatcher,
  and a call's way from the client through the server and back;
- the completion of one call by connect result, reply and timeout;
- the message id generator;
- the asynchronous logger, the event loop's task queue with its wake-up descriptor and interest set, and
  the timer.

Sequential code is modelled as classes and methods that change their fields and arrays in place, each
proved equal to a function on values (`Window`, `Outcome`, `CallState`, ...) about which the theorems are
proved. The logger and the event loop's queue, whose point is what threads do to each other, are state
machines whose steps are the accesses to shared state, in any interleaving; beside each, a class runs the
code itself without interference and is proved to take the machine's steps.

The model follows the code where it departs from its intent. What the proofs found there:

- `OnRead` loses data. `MoveWriteIndex` refuses a move that would fill the buffer, so a read that fills the
  room is overwritten by the next one. Reading a socket that holds `k` bytes appends all of them exactly
  when `k` is less than the room (`ReadAllIsLossless`); the branch that grows the receive buffer is never
  taken (`DeliverNeverGrows`), so with the 128-byte buffers of the source no message of 128 bytes or more
  ever arrives (`LongFramesNeverArrive`).
- `Decode` can hang. It never returns if and only if, after some number of rounds, the first start byte
  whose claimed end mark is there claims a length of zero or less (`HangsExactly`, with `StuckIfCompact` for
  buffers as their operations leave them, `StepCompact`). Well-formed
  frames can bring that about, if their ids are short: the package length is read when only one of its
  bytes has arrived; with zeros left in the vector it reads as zero, and its end byte is the end mark of
  the frame just consumed. For the first frame of a new buffer that is so exactly up to 41 bytes; with an
  id of the generator's length a frame is longer (`ShortHeaderHangs`).
- `Decode` looks for a frame inside an unfinished one. It holds back an unfinished frame untouched exactly
  under the condition of `HeldBackExactly`, and keeps up with a stream of chunks exactly when each chunk
  leaves room and meets that condition (`KeepsUpExactly`).
- A text that contains a NUL is cut there, and an empty id becomes "123456789" (`CanonicalIsIdentity`).
- `OnWrite` sends the bytes taken by a short write again, in the same call or in a later one; without
  short writes, and only then, what the socket has got and what is still buffered are what was put into
  the buffer (`WritesAreFaithful`).
- A service in a package is never found: names are split at the first dot (`NameIsRecovered`,
  `RegisteredIsCallable`). A refused request gets no reply: the response is filled in and dropped.
- A timeout that comes first keeps the closure from ever running (`CompletionSafety`), and an error reply
  after completion replaces the error code the caller has been told (`LastErrorIsReported`).
- The largest message id is recognised only until the second reseed (`LargestIdIsCaught`, and
  `LargestIdAgain` for seeds that lead there); after it the carry loop would run off the front of the
  string.
- A timer does not check that an event it is given is not in its map. An event that repeats and is in twice
  parts the map's entries from the deadlines in the pass that fires it twice: where they agreed before,
  they agree afterwards if and only if the entries re-added for one event have one key, and with a strictly
  increasing clock if and only if no event that repeats fired twice (`OnTimer`; `AddedTwice` is a case).
- An `epoll_ctl` call fails exactly for a descriptor that is closed, or is listed without being
  registered: because it was closed while in `myListenfds`, or because an ADD for it failed
  (`RefusedExactly`). A descriptor closed before its deferred addition runs is listed until it is deleted.
- A wake-up write can be consumed before the loop has seen the task it announces (`WakeUpCanBeAbsorbed`,
  and exactly when: `Mailbox`); the task then waits for one return of `epoll_wait` at most
  (`OneWaitAtMost`).

`dafny verify dfyconfig.toml` checks the project.

| file | content |
|---|---|
| `Wrappers.dfy`, `ErrorCodes.dfy` | optional values; the error codes of a call |
| `Bytes.dfy` | bytes and 32-bit integers in network order |
| `TcpBuffer.dfy` | the buffer: refinement of a byte queue, `OnRead`'s loop, amortised cost, the class |
| `TinyPB.dfy` | frames, scanning, parsing and `Decode` as functions |
| `TinyPBLemmas.dfy` | printing and parsing are inverse; the stream round trip |
| `TinyPBStreams.dfy` | accounting, termination, unfinished frames, chunked delivery |
| `TinyPBCoder.dfy` | the coder in place |
| `TcpConnection.dfy` | reading, writing and callbacks of a connection |
| `RpcDispatcher.dfy` | names, services, replies |
| `Correlation.dfy` | calls end to end |
| `RpcChannel.dfy` | completion of one call |
| `MsgId.dfy` | message ids |
| `AsyncLog.dfy` | the logger |
| `EventLoop.dfy` | the task queue, wake-up and interest set |
| `Timer.dfy` | the timer |

Assumptions. A scope guard releases its mutex exactly once. `read(2)` hands over as much as the buffer has
room for; `write(2)` takes any number of the bytes it is offered, or fails with EAGAIN or another error.
Closing a descriptor takes it out of the epoll set. Each timer operation is one step, and arming it takes effect at
the reading of the clock it was computed from. The readings of the clock are arbitrary, except where a
contract says `Monotone` or `StrictlyIncreasing`; but while the kernel's timer is armed, the wall clock,
which the deadlines are read from, advances as the monotonic clock does, which the kernel's timer runs on. Callbacks and services are opaque: a callback is a number whose runs are
recorded, a service a function from request bytes to an answer.

## Model

| member | source | states |
|---|---|---|
| Bytes.NetByteRoundTrip | common/util.cc:46-51 | reading four network-order bytes and writing an int32 in network order are inverse in both directions |
| Bytes.PutInt32Bytes | net/coder/tinypb_coder.cc:199-200 | a printed integer is its four bytes, the most significant one first |
| TcpBuffers.StepRefinesQueue | net/tcp/tcp_buffer.cc:54-158 | each buffer operation acts on the readable bytes as on an unbounded FIFO queue if and only if it is not a receive that fills the room to the last byte; such a receive leaves the readable bytes unchanged |
| TcpBuffers.RunRefinesQueue | net/tcp/tcp_buffer.cc:54-158 | over any run of operations without such a receive, the readable bytes are those of the queue, whatever was compacted and grown in between |
| TcpBuffers.MirrorsExactly | net/tcp/tcp_buffer.cc:54-158 | the readable bytes are those of the queue after every operation of a run if and only if there is no such receive in it |
| TcpBuffers.ReadAllContents | net/tcp/tcp_connection.cc:79-128 | of the bytes a socket holds, OnRead's loop appends only the remainder after cutting off whole rooms |
| TcpBuffers.RemainderIs | net/tcp/tcp_connection.cc:102-107 | the remainder is what lies behind the last whole room |
| TcpBuffers.ReadAllIsLossless | net/tcp/tcp_connection.cc:102-107 | OnRead's loop appends everything the socket holds if and only if that is less than the room |
| TcpBuffers.ReadAllNeverGrows | net/tcp/tcp_connection.cc:82-86 | a receive buffer that has room keeps its size and its room, so the growth branch is dead |
| TcpBuffers.AmortisedCopying | net/tcp/tcp_buffer.cc:54-70 | from an empty buffer of at least 3 bytes, over any run: bytes copied by growing are at most twice the bytes written, bytes copied by compacting at most four times the bytes consumed |
| TcpBuffers.CopiesAreCounted | net/tcp/tcp_buffer.cc:95-132 | growing and compacting are charged the bytes they copy, and nothing else is |
| TcpBuffers.StepBalanced | net/tcp/tcp_buffer.cc:54-158 | every byte written has been consumed or is readable |
| TcpBuffers.TinyBufferOvercharges | net/tcp/tcp_buffer.cc:114-132 | the size bound is needed: a two-byte buffer compacts an unread byte again and again while nothing is consumed |
| TcpBuffers.StepCompact | net/tcp/tcp_buffer.cc:114-132 | every operation keeps the read index at zero or below a third of the size |
| TcpBuffers.TCPBuffer.WriteToBuffer | net/tcp/tcp_buffer.cc:54-70 | appends the bytes, growing to twice what is needed when they do not fit |
| TcpBuffers.TCPBuffer.ReadFromBuffer | net/tcp/tcp_buffer.cc:73-92 | takes up to the given number of bytes from the front, leaving the destination alone when there are none |
| TcpBuffers.TCPBuffer.ResizeBuffer | net/tcp/tcp_buffer.cc:95-111 | keeps as many of the first readable bytes as the new size holds |
| TcpBuffers.TCPBuffer.AdjustBuffer | net/tcp/tcp_buffer.cc:114-132 | moves the readable bytes to the front exactly when the read index has reached a third of the size; they stay the same |
| TcpBuffers.TCPBuffer.MoveReadIndex | net/tcp/tcp_buffer.cc:135-145 | drops the given number of bytes, or refuses when there are fewer |
| TcpBuffers.TCPBuffer.MoveWriteIndex | net/tcp/tcp_buffer.cc:148-158 | extends the readable bytes, or refuses when no room would be left |
| TinyPB.ScanFound | net/coder/tinypb_coder.cc:60-88 | a recognised frame lies between the scan's start and the write index, starts with 0x02, ends with 0x03, and is as long as it claims |
| TinyPBLemmas.CanonicalIsIdentity | net/coder/tinypb_coder.cc:116-119 | a message comes back unchanged if and only if it has an id and no text contains a NUL |
| TinyPBLemmas.SendableExactly | net/coder/tinypb_coder.cc:116-164 | a message without a NUL can be sent if and only if its texts have at most 127, 511 and 511 bytes and its frame less than 2^31 |
| TinyPBLemmas.CStringIs | net/coder/tinypb_coder.cc:116-119 | a C string is the text up to its first NUL |
| TinyPBLemmas.FrameIs | net/coder/tinypb_coder.cc:183-256 | every frame, field by field, from the start byte to the checksum and the end byte |
| TinyPBLemmas.ParseLayout | net/coder/tinypb_coder.cc:102-171 | parsing a printed frame, at any place in any vector, yields its fields, the texts cut at their first NUL |
| TinyPBLemmas.ScanFrame | net/coder/tinypb_coder.cc:60-88 | a complete frame at the read index is found at once, whatever follows it |
| TinyPBLemmas.DecodeFrames | net/coder/tinypb_coder.cc:50-180 | frames at the head of a stream are decoded one after the other, then decoding goes on with what follows |
| TinyPBLemmas.StreamRoundTrip | net/coder/tinypb_coder.cc:25-269 | decoding the frames of any list of sendable messages returns the canonical messages in order and leaves nothing readable |
| TinyPBStreams.DecodeAccounts | net/coder/tinypb_coder.cc:96-98 | whenever Decode returns, the bytes consumed are exactly the sum of the claimed lengths of the recognised frames, also when garbage precedes them |
| TinyPBStreams.NoProgressMeansForever | net/coder/tinypb_coder.cc:50-98 | the model's outcome NoProgress means exactly that Decode's outer loop completes any number of rounds |
| TinyPBStreams.StuckExactly | net/coder/tinypb_coder.cc:60-98 | a round leaves the buffer as it was if and only if the first start byte whose claimed end mark is there claims a negative length, or a length of zero while the read index is in the first third |
| TinyPBStreams.StuckIfCompact | net/coder/tinypb_coder.cc:60-98 | in a buffer as its operations leave it, that is: a length of zero or less |
| TinyPBStreams.HangsExactly | net/coder/tinypb_coder.cc:50-98 | Decode never returns if and only if some number of rounds leads to such a start byte |
| TinyPBStreams.DecodeTerminates | net/coder/tinypb_coder.cc:50-98 | a condition on the bytes alone: if every readable start byte has a complete, positive, non-overflowing length, Decode does not run for ever |
| TinyPBStreams.ScanSilent | net/coder/tinypb_coder.cc:60-94 | the scan finds nothing if and only if no start byte has an end mark where it claims one |
| TinyPBStreams.ScanFindsFirst | net/coder/tinypb_coder.cc:60-88 | the scan stops at byte k if and only if k is the first start byte with an end mark where it claims one and every start byte before it is measurable; the length used is the one claimed there |
| TinyPBStreams.HeldBackExactly | net/coder/tinypb_coder.cc:72-94 | after complete frames, Decode recognises exactly these, returns their messages and holds back exactly the remaining bytes, if and only if no start byte among these claims an end that is there |
| TinyPBStreams.ChunkStep | net/tcp/tcp_connection.cc:79-142 | of one chunk of a stream, all frames complete by then come out and the rest is held back, if and only if the chunk is shorter than the room and the rest claims no end that is there |
| TinyPBStreams.KeepsUpExactly | net/tcp/tcp_connection.cc:79-142 | over a whole stream, cut into chunks in any way, that holds of every chunk if and only if every chunk meets the condition |
| TinyPBStreams.ChunkedDelivery | net/coder/tinypb_coder.cc:48-181 | then all messages have come out at the end, once, in order, and nothing is left |
| TinyPBStreams.PlainCutsWell | net/coder/tinypb_coder.cc:60-79 | a chunk that leaves 0, 1 or at least 5 bytes of a frame, with no second start byte, meets the condition if and only if it is shorter than the room |
| TinyPBStreams.PlainCutsExactly | net/coder/tinypb_coder.cc:60-79 | a stream so cut meets the condition at every chunk if and only if every chunk is shorter than the room |
| TinyPBStreams.DeliverNeverGrows | net/tcp/tcp_connection.cc:82-86 | whatever the socket delivers, and also while Decode hangs, a receive buffer that has room is never grown or filled |
| TinyPBStreams.LongFramesNeverArrive | net/tcp/tcp_connection.cc:102-107 | no frame as long as the buffer is ever recognised |
| TinyPBStreams.ShortHeaderHangs | net/coder/tinypb_coder.cc:65-79 | on a new 128-byte buffer, after a frame that fits it, the first two bytes of the next one make Decode loop for ever if and only if that frame had at most 41 bytes; not if its id had sixteen or more |
| TinyPBCoder.EncodeTinyPB | net/coder/tinypb_coder.cc:183-269 | the array holds exactly the frame; the message gets the default id if it had none, and its length fields |
| TinyPBCoder.Encode | net/coder/tinypb_coder.cc:25-45 | appends the frames of the messages, in order, to the send buffer; a message may occur twice |
| TinyPBCoder.ReadCString | net/coder/tinypb_coder.cc:116-119 | copying into a zeroed array and taking it as a C string yields the text up to its first NUL |
| TinyPBCoder.FindFrame | net/coder/tinypb_coder.cc:53-88 | the scan loop finds what Scan defines |
| TinyPBCoder.ParseFrame | net/coder/tinypb_coder.cc:99-175 | a new message with the parsed fields, or none where a parse error is logged; myPackageLen ends as 1 and myParseSuccess stays false |
| TinyPBCoder.DecodeRound | net/coder/tinypb_coder.cc:52-179 | one round of the outer loop, on every buffer on which it is defined, also where it makes no progress |
| TinyPBCoder.Decode | net/coder/tinypb_coder.cc:48-181 | pushes new messages for the recognised frames behind those already there and leaves the buffer as DecodeWindow says |
| TinyPBCoder.EncodeThenDecode | net/coder/tinypb_coder.cc:25-181 | on one buffer, in place: what was encoded is decoded to the canonical messages, in order, and nothing readable is left |
| TcpConnections.RunCallbacksTwice | net/tcp/tcp_connection.cc:211-221 | running callbacks for messages decoded in two calls is the same as for all of them in one |
| TcpConnections.EmitIsFaithful | net/tcp/tcp_connection.cc:250-283 | of one call of OnWrite: what went onto the socket and what is left are the buffered bytes, once each and in order, if and only if no write was short; otherwise there are more by just the bytes of the short writes |
| TcpConnections.ShortBytesAre | net/tcp/tcp_connection.cc:267-276 | writes that take nothing or everything are not short, a first one that takes a part is |
| TcpConnections.WritesAreFaithful | net/tcp/tcp_connection.cc:226-302 | the same over any sequence of calls with bytes added in between, whichever call empties the buffer |
| TcpConnections.WriteRepeatedly | net/tcp/tcp_connection.cc:226-302 | a connection whose buffer is added to and whose OnWrite is called, again and again, does what EmitAll says |
| TcpConnections.TcpConnection.ReadSocket | net/tcp/tcp_connection.cc:79-128 | the read loop in place does what ReadAll says, and notices a closed peer exactly when nothing remains after the whole rooms |
| TcpConnections.TcpConnection.ReadOrClose | net/tcp/tcp_connection.cc:65-140 | OnRead of a client or server up to OnExcute: reads, and clears the connection exactly when the peer has closed it and nothing was left of what it sent |
| TcpConnections.TcpConnection.OnRead | net/tcp/tcp_connection.cc:65-144 | a client reads, then closes or decodes and runs the callbacks of the decoded messages |
| TcpConnections.TcpConnection.OnExcute | net/tcp/tcp_connection.cc:205-222 | each decoded message runs the callback waiting for its id, once, and erases it |
| TcpConnections.TcpConnection.PushRecvMessage | net/tcp/tcp_connection.cc:395-398 | registers a callback for an id, unless one is waiting already |
| TcpConnections.FirstRegistrationStands | net/tcp/tcp_connection.cc:395-398 | of two registrations for one id the first stands |
| TcpConnections.TcpConnection.WriteSocket | net/tcp/tcp_connection.cc:250-283 | the write loop puts on the socket what Emit says, goes on after a short write or an error other than EAGAIN, and empties the buffer only when everything was taken at once |
| TcpConnections.TcpConnection.OnWrite | net/tcp/tcp_connection.cc:226-302 | what went onto the socket, followed by what is left, is what was buffered, followed on a client by the frames of the waiting messages, if and only if no write was short, and longer by just the bytes of short writes; a client runs every send callback once in order and forgets the messages |
| RpcDispatchers.NameIsRecovered | net/rpc/rpc_dispatcher.cc:152-172 | a client's method name is split into service and method again if and only if the service's full name has no dot |
| RpcDispatchers.RegisteredIsCallable | net/rpc/rpc_dispatcher.cc:139-143 | a registered service is called by its clients' name if it is in no package; otherwise registering it makes no difference to the call |
| RpcDispatchers.DispatchedExactly | net/rpc/rpc_dispatcher.cc:58-93 | each refusal, with its code and text, occurs if and only if its check is the first to fail; a call if and only if none does |
| RpcDispatchers.UnnamedIsRefused | net/rpc/rpc_dispatcher.cc:58-66 | a name without a dot, and only such a name, is refused as a parse error |
| RpcDispatchers.ReplyCarriesAnswer | net/rpc/rpc_dispatcher.cc:110-131 | the reply has the request's id and method name and the payload the service's method makes of the request's, or the serialize error |
| RpcDispatchers.RpcDispatcher.Dispatch | net/rpc/rpc_dispatcher.cc:45-137 | fills in the error response of the first check that fails, without a closure, or hands out a closure for the service's answer |
| RpcDispatchers.RpcDispatcher.OnExcute | net/tcp/tcp_connection.cc:174-187 | every decoded request is dispatched, in order, with a response of its own |
| RpcDispatchers.RpcDispatcher.OnRead | net/tcp/tcp_connection.cc:65-144 | a server reads, then closes or decodes and dispatches the decoded requests |
| RpcDispatchers.RpcDispatcher.RunClosure | net/rpc/rpc_dispatcher.cc:110-131 | each run appends the frame of the reply to the send buffer |
| Correlation.WaitedExactly | net/tcp/tcp_connection.cc:395-398 | with distinct ids, the waiting callbacks are exactly those of the calls, each under its id |
| Correlation.WellFormedExactly | net/coder/tinypb_coder.cc:116-164 | which calls the end-to-end result is about: distinct, non-empty ids, and texts and lengths as the wire allows |
| Correlation.OnePieceStreams | net/tcp/tcp_connection.cc:79-128 | a stream shorter than the buffer may come in one piece |
| Correlation.FirstsAreDistinct | net/rpc/rpc_dispatcher.cc:110-131 | dropping repeated completions keeps every answered call exactly once |
| Correlation.RepliesRunTheirCallbacks | net/tcp/tcp_connection.cc:211-221 | replies in any order and with repetitions run, for the first reply to each call, the callback registered for it |
| Correlation.EndToEnd | net/tcp/tcp_connection.cc:147-223 | through client encoder, server decoder, dispatcher, closures in any order and number, reply encoder and client decoder, in any well-cut chunks: exactly the callbacks of the answered calls run, once each, each with the reply to its own request |
| Correlation.AnswerArrives | net/tcp/tcp_connection.cc:147-223 | of the callbacks that run end to end, the k-th is handed the id of its request and the payload its service makes of that request's payload, or the serialize error |
| Correlation.RequestsArrive | net/tcp/tcp_connection.cc:226-302 | messages pushed on a client are put onto the socket by OnWrite, and, if no write was short and all was written, decoded by a server from any well-cut chunks as they were |
| Correlation.ReceiveAll | net/tcp/tcp_connection.cc:65-144 | a client connection handed the chunks one by one runs in sum the callbacks for the messages of the whole stream |
| RpcChannels.CompletionSafety | net/rpc/rpc_channel.cc:104-189 | over every schedule the closure runs at most once, exactly once if and only if the first deciding event is a connect failure or a reply; the call is cancelled if and only if it is a timeout |
| RpcChannels.LastErrorIsReported | net/rpc/rpc_channel.cc:104-189 | with or without a closure, the error a call ends with is the last one of the schedule, where a timeout counts only if nothing has finished the call; without one it is not failed |
| RpcChannels.FirstCompletionStands | net/rpc/rpc_channel.cc:104-117 | after a connect failure or reply, timeouts change neither run count, error nor cancel flag |
| RpcChannels.NoClosureNeverCompletes | net/rpc/rpc_channel.cc:232-249 | without a closure the call is never finished by a reply, and is cancelled if and only if a timeout occurs at any time |
| RpcChannels.RpcChannel.OnTimeout | net/rpc/rpc_channel.cc:104-117 | the timeout callback takes the step for a timeout |
| RpcChannels.RpcChannel.OnConnect | net/rpc/rpc_channel.cc:127-139 | the connect callback takes the step for its result |
| RpcChannels.RpcChannel.OnReply | net/rpc/rpc_channel.cc:155-187 | the reply callback takes the step for the reply |
| MsgIds.IncrementAddsOne | common/msg_id_util.cc:54-69 | from any digits but all nines, the next id has as many digits and denotes one more |
| MsgIds.IdsAreDistinct | common/msg_id_util.cc:28-74 | between two reseeds the k-th id denotes the seed plus k+1, so all are distinct |
| MsgIds.LargestIdIsCaught | common/msg_id_util.cc:30-50 | the test for reseeding succeeds exactly for an empty or all-nines id before the second reseed |
| MsgIds.LargestIdAgain | common/msg_id_util.cc:30-50 | two calls after which the id is all nines and the string it is compared with is longer |
| MsgIds.MsgIDUtil.MsgIDGenerator | common/msg_id_util.cc:28-74 | gives twenty digits: reseeded, each is a random byte modulo ten; otherwise they are counted up in place; or it fails on a short read leaving the id alone |
| MsgIds.MsgIDUtil.CountUp | common/msg_id_util.cc:54-69 | the carry loop and the zeroing loop together are Increment |
| AsyncLog.BoundedBuffer | common/log.cc:269-286 | in every reachable state, for any number of producers: free slots, reserved slots, queued batches and popped but unposted batches make 1000; the queue never exceeds 1000; past sem_wait(fullSem) the consumer finds it non-empty and so never sleeps on the condition variable; the lines on their way or written are just those logged, as often as they were |
| AsyncLog.PushedExactly | common/log.cc:127-142 | what counts as logged over a run is what it logs, in order |
| AsyncLog.ThousandFit | common/log.cc:413-423 | a thousand batches can be queued before the consumer takes a step |
| AsyncLog.NoMoreFit | common/log.cc:413-423 | then no thread can reserve a slot or push |
| AsyncLog.WrittenIsPrefix | common/log.cc:67-80 | with one thread running SyncLogLoop, file, consumer's batch, queue, batch in flight and staging buffer are, in that order, everything logged; the file's lines, and its bytes, are a prefix of it |
| AsyncLog.TextConcat | common/log.cc:349-355 | the bytes of lines written one after the other are those of the first ones followed by those of the others |
| AsyncLog.TextOfOne | common/log.cc:349-355 | the bytes of one line are the line |
| AsyncLog.StuckMeansAllWritten | common/log.cc:413-423 | the threads never block each other for good: when no thread can move, every line logged has been written |
| AsyncLog.Progress | common/log.cc:269-356 | when nothing more is logged, the threads take at most Work steps in any order, can go on until they have taken just so many, and every line has then been written |
| AsyncLog.StepCounted | common/log.cc:413-423 | every step keeps the slot and announcement counts |
| AsyncLog.StepConserved | common/log.cc:67-80 | every step keeps each line's number of occurrences |
| AsyncLog.SyncRunEffect | common/log.cc:67-80 | the steps of SyncLogLoop in their order, undisturbed, move the staging buffer to the end of the queue |
| AsyncLog.LoopRunEffect | common/log.cc:269-356 | the consumer's steps in their order, undisturbed, move the front batch to the file |
| AsyncLog.Loggers.SyncLogLoop | common/log.cc:67-80 | the code does what its steps do |
| AsyncLog.Loggers.Loop | common/log.cc:269-356 | one round of the consumer does what its steps do, and appends the bytes of the front batch's lines to the file |
| EventLoops.Mailbox | net/eventloop.cc:107-132 | in every reachable state executed tasks, batch and queue are the pushes of the run in order; a pending task whose wake-up was written meets an unreadable descriptor if and only if the wake-up handler ran after that write with no swap and no other wake-up since; the kernel's set is the listed descriptors that are not stale |
| EventLoops.UnreadableExactly | net/eventloop.cc:281-287 | over any run the descriptor is unreadable if and only if no wake-up was written since the handler last ran |
| EventLoops.PushedExactly | net/eventloop.cc:254-266 | the pushes recorded over a run are those it makes, in order |
| EventLoops.WakeUpCanBeAbsorbed | net/eventloop.cc:156-161 | a run from the start in which it happens, the handler being queued only for a readable descriptor: the loop is in epoll_wait, a task pushed and announced is pending, and the descriptor is unreadable |
| EventLoops.OneWaitAtMost | net/eventloop.cc:107-132 | a pushed task has left the queue once epoll_wait has returned twice, once if the loop was on its way to the swap |
| EventLoops.RefusedExactlyWhenUnsound | net/eventloop.cc:20-50 | a step's epoll_ctl call is refused if and only if it is for a descriptor that is stale or not open |
| EventLoops.RefusedExactly | net/eventloop.cc:20-50 | over any run, with descriptors opened and closed by anybody: a call is refused if and only if some step makes one for such a descriptor |
| EventLoops.AdditionLists | net/eventloop.cc:20-34 | after an addition, in the loop thread or as a task, the descriptor is listed, and registered if it is open and not stale; no other descriptor is touched |
| EventLoops.DeletionUnlists | net/eventloop.cc:37-50 | after a deletion it is neither listed nor registered; no other descriptor is touched |
| EventLoops.ListedExactly | net/eventloop.cc:210-246 | over any run a descriptor is listed if and only if its last direct or executed addition or deletion was an addition |
| EventLoops.ListedUnchanged | net/eventloop.cc:210-246 | without one, it is listed if and only if it was |
| EventLoops.InterestSetsAgree | net/eventloop.cc:210-246 | over any mix of direct and deferred additions and deletions, myListenfds is the kernel's set after every step if and only if no listed descriptor is closed and no closed one is added; no call is refused then |
| EventLoops.EventLoop.AddEpollEvent | net/eventloop.cc:20-34 | issues ADD exactly for descriptors not listed, and lists the descriptor |
| EventLoops.EventLoop.RunPending | net/eventloop.cc:109-123 | the swap and the loop over the batch take the machine's steps for one pass |
| Timers.InsertedSorted | net/timer.cc:66 | inserting keeps the deadlines in order and the first entry first unless the new deadline is strictly earlier |
| Timers.AllInsertedKeepsAll | net/timer.cc:196-204 | re-inserting events loses none and adds no other |
| Timers.InsertedDistinct | net/timer.cc:66 | after an insertion no event is in twice if and only if none was and the inserted one was not in |
| Timers.WithoutFacts | net/timer.cc:86-99 | erasing the first entry of an event keeps the order and all other entries; where no event is in twice, the event is gone |
| Timers.LaterReadings | net/timer_event.cc:26-30 | with a clock that never goes back, a rescheduled event is due at least one interval after the pass that fired it |
| Timers.Timer.ResetTimerArriveTime | net/timer.cc:105-145 | expires at the first event's deadline if that is still to come, else 100 ms after the reading; seconds and nanoseconds are exactly the interval; an empty map changes nothing |
| Timers.Timer.AddTimerEvent | net/timer.cc:46-73 | on any map, inserts behind equal deadlines and re-arms only for a new earliest one; keeps entries agreeing with deadlines, and the timer armed early enough where they agree; keeps the map valid exactly when the event was not in it |
| Timers.Timer.DeleteTimerEvent | net/timer.cc:75-103 | on any map, removes the first entry of the event at its deadline if there is one, nothing else, and cancels the event; in a valid map it is then gone |
| Timers.Timer.CollectDue | net/timer.cc:165-193 | takes exactly the due entries off the map and collects those not cancelled, in order |
| Timers.PassIsSpaced | net/timer.cc:163-189 | a pass that fires only due entries of a spaced map keeps the record of firings spaced |
| Timers.FiringsApart | net/timer.cc:163-204 | in a spaced record, two firings of one event with no other firing or outside addition of it in between are at least its interval apart |
| Timers.AllInsertedDistinct | net/timer.cc:196-204 | re-inserting different events that are not in the map leaves no event in twice |
| Timers.ReaddedKeys | net/timer.cc:196-204 | the entries re-added for one event have one key if no event is re-added twice, and with a strictly increasing clock only then |
| Timers.Timer.OnTimer | net/timer.cc:147-217 | on any map, runs exactly the callbacks of the entries due and not cancelled, in order, once each; leaves the later entries and one for each firing of a repeating event, one interval after a later reading; gives each such event the last of these deadlines; entries that agreed with deadlines still do if and only if those re-added for one event have one key; the timer is then armed early enough; in a valid map firings stay spaced |
| Timers.AddedTwice | net/timer.cc:46-73 | a repeating event, added twice, and a pass after which entries and deadlines have parted |
| Timers.Do | net/timer.cc:46-217 | each operation, on any map, records what it adds and fires, keeps entries agreeing with deadlines and the timer armed early enough unless it fires a repeating event twice, and keeps the map valid and firings spaced unless it adds an event that is in it |
| Timers.Drive | net/timer.cc:46-217 | over any run of additions, deletions, expirations and passes: if no pass fires a repeating event twice, keys agree with deadlines and the timer expires by the earliest of them, or, where the first had passed at the last arming, 100 ms after that; if no event is added while it is in the map, none is ever in twice and, with a clock that never goes back, firings of a repeating event are at least its interval apart |

## Left out

- Sockets, epoll, timerfd, eventfd and files are reduced to the effects the proofs use; a read error other than EAGAIN, which makes OnRead loop, does not occur.
- Bytes that Decode would read outside its vector, a text that overruns its C array, a negative payload length and an overflowing index have no defined effect in the source; they are the outcome `Faults`, and `Decode` is called on buffers where they do not occur.
- TinyPBStreams.DecodeTerminates: a sufficient condition; HangsExactly has the exact one.
- TinyPBCoder.Decode: called where it returns, since a method of the model must; DecodeRound covers the rounds of the other calls. The same holds of its callers, TcpConnection.OnExcute and OnRead and RpcDispatcher.OnExcute and OnRead.
- TcpBuffers.RunRefinesQueue: sizes and indices are unbounded; size_t and int widths matter only for the package length and the scan's indices, where they are modelled.
- Correlation.EndToEnd: all callbacks are registered before the first reply is decoded, as the send callbacks do on the client's thread.
- AsyncLog.BoundedBuffer: the steps of several threads are a state machine on values; the class beside it runs one thread's code at a time. Shutdown, file rolling, formatting and the application log, which is guarded by another mutex than its reader's, are not modelled.
- EventLoops.Mailbox: the same holds of the loop; the stop flag and the choice of events epoll returns are not modelled.
- Timers.Timer.OnTimer: the callbacks are handed out in the order they run; what they do, such as deleting an event whose callback is already due in the same pass, is not modelled.
- Timers.Drive: what the timer does once entries and deadlines have parted, beyond the contracts of the single operations.
- TcpConnections.TcpConnection.WriteSocket: an error other than EAGAIN that goes on for ever makes OnWrite loop for ever; the answers of write(2) are a finite sequence, then EAGAIN.
- MsgIds.MsgIDUtil.MsgIDGenerator: not called on the id of all nines after a second reseed, where the source leaves the string.
- Timers.Timer.AddTimerEvent: an event shared by two timers is not modelled.
- RpcChannels.RpcChannel.OnTimeout: the text with the timeout in milliseconds is a parameter.
- RpcDispatchers.RpcDispatcher.RunClosure: when a response cannot be serialized its payload is taken to be empty.
- CallMethod's checks before the call is sent, the channel's lifetime and the response object, into which a late reply is still parsed.
- Object lifetime, destructors, memory ownership and signal handling.
- The string coder, the configuration, the generator, address parsing, thread groups and descriptor groups.
