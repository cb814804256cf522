# MY-RPC, modelled and proved in Dafny

MY-RPC is a reactor-style RPC server in C++: an acceptor and several event loops, connections with byte buffers, a codec
for length-prefixed frames, a dispatcher, a pool of worker threads, a double-buffered log, a generator of message ids
and a read/write lock over ZooKeeper. This project models the seven parts of it that have state worth reasoning about
and proves what callers rely on.

`dafny verify dfyconfig.toml` checks everything.

## How it is built

Sequential code is modelled as it is written: classes with the source's fields, methods with its loops, each proved
against a function of the old state, and the properties are proved of that function.

| files | what they model |
|---|---|
| `Bytes`, `TinyPBCodec`, `TinyPBFrames`, `TinyPBNoise`, `TinyPBRoundTrip`, `TinyPBLoop`, `TinyPBCoder` | the frame format, the meaning of `decode` on every buffer, one frame, noise, the round trips, the `while(1)` taken one iteration at a time, and the coder's own loops |
| `RpcService`, `RpcBursts`, `ReplyStream` | `OnMessage` and `dispatch`, from request bytes to reply bytes; requests that arrive in bursts; the replies of many workers on one connection |
| `ThreadPool`, `ThreadPoolSafety`, `ThreadPoolRuns`, `ThreadPoll` | the growing and shrinking pool as a transition system, its invariant, whole runs and `Stop`, and the class |
| `AsyncLog`, `AsyncLogger` | the logger as a transition system over buffer contents, and the class that moves buffer objects |
| `StreamBuffer` | `Buffer`, its limit, and framing under arbitrary chunking |
| `SendPath`, `SendPathRuns`, `Connection` | task queue, eventfd, output buffers, interest masks and partial writes, and the classes |
| `ReadWriteLock`, `ReadWriteLockRuns`, `LockSession` | the sequential-node lock protocol, whole runs, and the local part of its loop |
| `LockAsCoded` | the acquire loops as the C++ has them |
| `Decimal`, `MsgId` | numerals, and the id generator |
| `ConnectionTables`, `TcpServer` | the global and the per-loop connection tables in steps of one section, and the handlers as methods |

Concurrent code is a transition system: a datatype for the state, one action for each critical section, atomic operation
or system call, `Enabled` and `Apply`, and `Run` over any list of actions. A property of all reachable states is stated
for `Run(Init(..), actions)` with `actions` arbitrary, or for every state of the invariant, so it covers every
interleaving. Lemmas named `SurroundingsAreFree` say that the machines leave callers, clients, kernel and server free. History fields (what was submitted, accepted, called, acquired) make conservation statable. Beside it stands
the class, with the critical sections that compute something, each proved to be its action, and with the loops: the
worker's, the reaper's and `Stop`'s, the logger's with whatever other threads do between its sections, the drain loop, the
timer's. An assert of the source, or an operation it must not get wrong such as `front()` on an empty queue, sets `broken`
(or yields `Faults`, `exited`) when it fails, and the invariant says that it never does.

`ToNetBytes`, `FromNetBytes` and the signed 32-bit conversions are written out; so is the unsigned 64-bit wrap-around in
`Buffer::avail`.

## What was found

Where the code does not do what one would want, the code is modelled as it is, a lemma gives an input or a run that shows
it, and another says exactly when it happens.

- `decode` never returns on a candidate frame that trips one of its length guards: the `continue` leaves `start_index`
  where it was (`TinyPBLoop.SixBytesSpin`). Exactly then, and it leaves the memory it may touch exactly on the lengths of
  `FaultsExactly` (`TinyPBLoop.SpinsExactly`).
- Noise between frames can swallow a sound frame (`TinyPBRoundTrip.NoiseCanSwallow`). It is harmless exactly if none of its
  positions stops the scan (`TinyPBNoise.NoiseIsHarmlessExactly`), and without the start byte none does.
- A reply to a request that never reached its service goes out under the id "123456789" instead of the request's, exactly
  then (`RpcService.ReplyIsCorrelated`).
- A service whose full name has a dot, as every service in a protobuf package has, can be registered and never called
  (`RpcService.ServiceReachable`).
- `ThreadPoll::Stop` can wait for ever: it notifies the reaper without the reaper's mutex, and a reaper between its test
  and its block does not hear it. It may happen to every pool (`ThreadPoolRuns.EveryPoolMayHang`), at a call exactly if the
  reaper is there and no worker is about to retire (`StopMayHangExactly`), and once `Stop` has notified it is settled
  (`StopReturnsExactly`).
- `Stop` may return with tasks in the queue that nobody will run (`ThreadPoolRuns.StopCanLoseTasks`): exactly those for
  which no worker is past its test of `stop_` (`StopLosesExactly`).
- `AsyncLogger::stop` may lose lines (`AsyncLog.StopLosesALine`): all that the writing thread has not taken yet, unless at
  the call it is on the way to its swap (`StopWritesExactly`, `CompleteAtExitExactly`).
- A send that is queued when its connection closes ends the process at the next drain, exactly then
  (`SendPathRuns.DrainExitsExactly`, `SendAndCloseExits`).
- A send made on the IO thread overtakes those that workers have queued for the same connection (`SendHereOvertakes`), and
  nothing else disturbs the order of the calls (`SendPathRuns.CallOrderExactly`).
- The branch of `handleevent` for EPOLLRDHUP is dead, since no mask asks for that event (`SendPathRuns.EventsTakeBranches`).
- The connection hands each burst over on its own and each is decoded on its own, so a request that the kernel delivers in
  two bursts is lost (`RpcBursts.CutRequestIsLost`); all requests of a stream are decoded exactly if every burst ends with
  a frame (`BurstsKeepAllExactly`).
- An input burst that ends with the peer's close is never handed over, and one that the buffer has no room for arrives
  with pieces missing (`ConnectionClass.BurstArrivesExactly`).
- As coded, no `lock_write` ever takes the lock, and no `lock_read` on listings that have its own node
  (`LockAsCoded.WriteNeverAcquires`, `ReadNeverAcquires`).
- The lock protocol itself, with the children sorted by full name as the code does, lets a reader in beside a writer; with
  creation order it cannot (`ReadWriteLockRuns.ExclusionExactly`).
- A connection that closes while `newconnction` runs stays in its loop's table until it times out, and if it closes before
  the first insertion in the global table too (`ConnectionTables.CloseSlipsIn`, `CloseComesTooEarly`; exactly:
  `DifferenceExactly`, `GlobalIsLiveExactly`).
- From its second epoch on the id generator never reseeds; it counts to its top and then indexes before the string, at a
  call that the two seeds determine (`MsgId.FirstFault`).

## Model

| member | source | states |
|---|---|---|
| Bytes.NetBytesRoundTrip | src/common/util.cc:33-37 | reading four network bytes undoes writing them, for every signed 32-bit value |
| Bytes.NetBytesOnto | src/common/util.cc:33-37 | every four bytes are the network form of the value read from them: the conversion is a bijection |
| Bytes.NetBytesWeigh | src/common/util.cc:33-37 | the four bytes weigh 2^24, 2^16, 2^8 and 1 in the two's complement pattern |
| TinyPBRoundTrip.DecodeStream | src/server/Rpc/coder/tinypb_coder.cc:33-138 | for every list of in-domain messages and noise free of 0x02 before, between and after their frames, `decode` returns exactly those messages in order (an empty id as "123456789"), though bodies may contain 0x02 and 0x03; so it returns, and the early `continue`s are not reached |
| TinyPBFrames.FrameIsRead | src/server/Rpc/coder/tinypb_coder.cc:43-134 | at the head of a frame, wherever it lies, the scan stops there with its exact end and the cursor walk reads the message back |
| TinyPBFrames.FrameLayout | src/server/Rpc/coder/tinypb_coder.cc:141-198 | field by field and byte by byte where each stands in a frame: 0x02, length, id (the digits 1 to 9 for an empty one), name, code, error text, data, the constant checksum, 0x03 |
| TinyPBCodec.ParsedFields | src/server/Rpc/coder/tinypb_coder.cc:69-133 | on any buffer, where the fields of a message that parses stand: one behind the other, texts up to their first zero, and the data from there to the checksum, which is not looked at |
| TinyPBCodec.CanonReadsBack | src/server/Rpc/coder/tinypb_coder.cc:142-144 | the canonical form keeps name, code, error text, data and a non-empty id, and has "123456789" exactly for an empty one |
| TinyPBRoundTrip.DecodeKeepsIds | src/server/Rpc/coder/tinypb_coder.cc:10-138 | a batch without empty ids comes back as it is, through any noise that does not stop the scan |
| TinyPBRoundTrip.DecodeEncode | src/server/Rpc/coder/tinypb_coder.cc:10-30 | decoding what `encode` wrote for a batch gives as many messages, in order, each with the other four fields as sent, and with its id or "123456789" for an empty one |
| TinyPBRoundTrip.EncodeAllInjective | src/server/Rpc/coder/tinypb_coder.cc:10-30 | two batches with the same encoding are as long and have the same messages, but for an empty id against "123456789" |
| TinyPBRoundTrip.DecodedInDomain | src/server/Rpc/coder/tinypb_coder.cc:69-135 | on any buffer on which `decode` returns, its messages are in the writer's domain, and there is at most one for each 26 bytes |
| TinyPBRoundTrip.DecodeEncodeDecode | src/server/Rpc/coder/tinypb_coder.cc:10-138 | re-encoding what was decoded from any buffer and decoding again changes nothing but empty ids |
| TinyPBNoise.ScanReachesExactly | src/server/Rpc/coder/tinypb_coder.cc:43-62 | the scan comes from `i` to a candidate at `j` if and only if no position between has a start byte whose length is unusable or leads to an end byte |
| TinyPBNoise.NoiseIsHarmlessExactly | src/server/Rpc/coder/tinypb_coder.cc:38-136 | with any noise whatever around the frames, `decode` stops at each frame where it stands and at nothing else if and only if no position of the noise stops the scan in that buffer |
| TinyPBNoise.DecodeNoisy | src/server/Rpc/coder/tinypb_coder.cc:33-138 | and then it returns all the messages in order |
| TinyPBCodec.ScanStays | src/server/Rpc/coder/tinypb_coder.cc:43-62 | a scan from an earlier find stops at that find again |
| TinyPBCodec.ParsedIsLong | src/server/Rpc/coder/tinypb_coder.cc:74-135 | every message takes `start_index` at least 26 bytes further |
| TinyPBLoop.LoopMeaning | src/server/Rpc/coder/tinypb_coder.cc:38-136 | from any state of the loop, iterating it reaches what the recursive meaning says, or never ends exactly as it says |
| TinyPBLoop.ReturnsExactly | src/server/Rpc/coder/tinypb_coder.cc:33-138 | `decode` returns with given messages if and only if the recursive meaning is those messages, on every buffer |
| TinyPBLoop.SpinsExactly | src/server/Rpc/coder/tinypb_coder.cc:74-116 | on every buffer: no number of iterations ends the loop if and only if it comes to a candidate whose id length, name length, error code or error text length would start at or past the end byte, all before it being sound |
| TinyPBLoop.FaultsExactly | src/server/Rpc/coder/tinypb_coder.cc:44-128 | it leaves the memory it may touch if and only if it comes to a length that cannot be read or leads out of the buffer, or to a field that cannot be copied, or to a negative size of the data |
| TinyPBLoop.SixBytesSpin | src/server/Rpc/coder/tinypb_coder.cc:74-79 | a six-byte buffer on which no number of iterations ends the loop |
| TinyPBCoder.EncodeTinyPB | src/server/Rpc/coder/tinypb_coder.cc:141-209 | the cursor over the allocated bytes leaves exactly the frame of the message as it was; the message keeps its fields, gets "123456789" for an empty id, its lengths and the flag |
| TinyPBCoder.Encode | src/server/Rpc/coder/tinypb_coder.cc:10-30 | the output is the concatenation of the frames, also when an object occurs twice in the batch |
| TinyPBCoder.FindFrame | src/server/Rpc/coder/tinypb_coder.cc:43-67 | the inner loop finds the first start byte whose length leads to an end byte, or runs to the end of the buffer |
| TinyPBCoder.TakeFrame | src/server/Rpc/coder/tinypb_coder.cc:69-134 | the cursor walk gives the message, or says which of the two ways it goes wrong |
| TinyPBCoder.Decode | src/server/Rpc/coder/tinypb_coder.cc:33-138 | the two loops compute the meaning of the buffer, with fresh message objects |
| RpcService.ParseServiceFullNameExactly | src/server/Rpc/rpc_dispatcher.cc:101-118 | the split succeeds with a service and a method exactly when the name is the two joined by a dot and the service has none |
| RpcService.ServiceReachable | src/server/Rpc/rpc_dispatcher.cc:24-66 | some request is served by the code of a registered service if and only if the service makes sense of some request at all and its full name has no dot |
| RpcService.ReplyInDomain | src/server/Rpc/rpc_dispatcher.cc:11-90 | for an in-domain request every outcome of `dispatch`, error or not, is a response the codec can carry |
| RpcService.ReplyIsCorrelated | src/server/Rpc/rpc_dispatcher.cc:28-81 | the reply as the client reads it has the request's id if and only if the request had one and its service was called, or the id is "123456789" |
| RpcService.DispatchedAnswers | src/server/Rpc/rpc_dispatcher.cc:19-90 | what is read of a response, from the map and the method's own function: its data, code 0, no text, name and id of the request if it replies; each of the four failures on the way and the malformed name with its own code and text, and blank otherwise unless the service was called |
| RpcService.ServeRoundTrip | src/server/Rpc/rpc_server.cc:86-102 | for every buffer that decodes, decoding the server's reply gives one response for each request, in order, each such an answer to its request |
| RpcService.CallRoundTrip | src/server/Rpc/rpc_server.cc:86-102 | the same from n encoded requests, with any noise around them that does not stop the scan: exactly n responses, the i-th for the i-th request |
| RpcService.RegistrationTakesOver | src/server/Rpc/rpc_dispatcher.cc:93-98 | after a registration, requests that name the service are dispatched as if it were the only one, and all others exactly as before |
| RpcService.RpcDispatcher.SetTinyPBError | src/server/Rpc/rpc_dispatcher.cc:11-16 | code, text and text length of the response change, and no other field |
| RpcService.RpcDispatcher.Dispatch | src/server/Rpc/rpc_dispatcher.cc:19-90 | a blank response becomes one that answers the request; the request is untouched |
| RpcService.RPCServer.OnMessage | src/server/Rpc/rpc_server.cc:86-102 | what is sent decodes to one answer for each decoded request, in order; it fails to return only where `decode` does |
| ThreadPoolSafety.KeepsScheduled | src/common/ThreadPoll.cc:34-46 | every step keeps: the queued tasks do not outnumber the idle count, or the pool is at its maximum |
| ThreadPoolSafety.KeepsAccounting | src/common/ThreadPoll.cc:12-86 | every step keeps the two counters equal to the workers they count, and the first within its bounds, though the increment of `idleThreadnum_` is outside the lock |
| ThreadPoolSafety.KeepsThreads | src/common/ThreadPoll.cc:89-146 | every step keeps each created thread either joinable or joined, and joined once |
| ThreadPoolSafety.KeepsTasks | src/common/ThreadPoll.cc:46-86 | every step keeps each submitted task in exactly one of queued, running and finished, taken in order |
| ThreadPoolSafety.NeverBreaks | src/common/ThreadPoll.cc:63-126 | no step calls `front()` on an empty queue, also when `stop_` flips between the predicate and the check, and no assert of the reaper fails |
| ThreadPoolSafety.RunKeepsInv | src/common/ThreadPoll.cc:31-146 | all of this in every reachable state, before and after `Stop` |
| ThreadPoolRuns.PoolBeforeStop | src/common/ThreadPoll.cc:31-87 | before `Stop`, in every interleaving: exact counters without underflow, min <= current <= max, no task waits while the pool could grow, tasks taken first in first out and once |
| ThreadPoolRuns.NewPool | src/common/ThreadPoll.cc:3-24 | a new pool has the minimum of workers, none busy, and a maximum of no less |
| ThreadPoolRuns.GrowsExactly | src/common/ThreadPoll.cc:31-48 | `addtask` creates a thread if and only if the workers that have not retired are fewer than the maximum and the busy ones and the queued tasks together are no fewer than these workers |
| ThreadPoolRuns.GrowsOnlyOnNeed | src/common/ThreadPoll.cc:31-86 | over any run threads are created if and only if some `addtask` finds that |
| ThreadPoolRuns.DecidesExactly | src/common/ThreadPoll.cc:63-83 | behind the wait a worker takes the first task if there is one, leaves if not and `stop_` is set, and else retires if and only if more than the minimum have not retired |
| ThreadPoolRuns.StepsRunOut | src/common/ThreadPoll.cc:54-146 | once `stop_` is set every step but a new task decreases a measure of what is left to do |
| ThreadPoolRuns.StopIsBounded | src/common/ThreadPoll.cc:134-146 | so after the call of `Stop` the pool comes to rest within that many steps, returned or hung |
| ThreadPoolRuns.StopProgress | src/common/ThreadPoll.cc:89-146 | after the call of `Stop` nothing more happens by itself if and only if `Stop` has returned or hangs: it joins a reaper that waits, with every worker gone |
| ThreadPoolRuns.StopMayHangExactly | src/common/ThreadPoll.cc:89-141 | at the call of `Stop`: some run from here hangs if and only if the reaper has tested its predicate and not yet blocked, and no worker is about to retire |
| ThreadPoolRuns.StopReturnsExactly | src/common/ThreadPoll.cc:89-146 | once `Stop` has notified, every run to rest returns if and only if that is not so, and else none does |
| ThreadPoolRuns.EveryPoolMayHang | src/common/ThreadPoll.cc:89-94 | whatever its sizes, a pool reaches such a state |
| ThreadPoolRuns.StopLosesExactly | src/common/ThreadPoll.cc:31-86 | from the state at the call, in every interleaving in which `Stop` returns, tasks added later included: the tasks that never run are the end of the queue for which no worker is past its test of `stop_`, and behind them the tasks added later, but for the first few if there are more such workers than tasks; without new tasks none is lost if and only if there are at least as many such workers as tasks, and with at most as many every new task is lost |
| ThreadPoolRuns.StopCanLoseTasks | src/common/ThreadPoll.cc:54-63 | a run in which `Stop` returns and the only task was never taken |
| ThreadPoolRuns.TasksCanStartExactly | src/common/ThreadPoll.cc:31-86 | before `Stop` some worker can start the task at the head of the queue by its own steps alone if and only if the pool may have any thread at all |
| ThreadPoolRuns.AfterStopReturns | src/common/ThreadPoll.cc:134-146 | when `Stop` has returned every thread ever created has been joined exactly once, nothing is running, and what never ran is what is left in the queue |
| ThreadPollClass.ThreadPoll.constructor | src/common/ThreadPoll.cc:3-24 | the loop creates the minimum number of workers, and the state is the initial one |
| ThreadPollClass.ThreadPoll.addtask | src/common/ThreadPoll.cc:31-49 | the critical section creates a thread exactly if one is needed, puts the task at the end of the queue, and keeps the invariant |
| ThreadPollClass.ThreadPoll.Decide | src/common/ThreadPoll.cc:63-83 | the rest of the worker's critical section, with the proof that `front()` has an element |
| ThreadPollClass.TurnIsRun | src/common/ThreadPoll.cc:54-86 | a turn of the worker's loop with nobody in between is a run of the transition system |
| ThreadPollClass.ThreadPoll.Threadwork | src/common/ThreadPoll.cc:51-87 | the worker's loop for any number of turns, left alone: the queued tasks in order, one a turn, then retirement at the first time limit if and only if the pool is above its minimum |
| ThreadPollClass.ThreadPoll.JoinDead | src/common/ThreadPoll.cc:99-106 | the reaper's lookup, join and erasure, with the proof that its asserts hold |
| ThreadPollClass.ThreadPoll.DrainDead | src/common/ThreadPoll.cc:95-108 | the reaper's inner loop joins every queued id in order and once, and nothing else changes |
| ThreadPollClass.ThreadPoll.JoinAll | src/common/ThreadPoll.cc:142-145 | when all threads have returned the loop of `Stop` joins the rest, after which every thread has been joined exactly once |
| AsyncLog.StepKeepsInv | src/common/asynclog.cc:24-113 | every step of either side keeps the reserve and conservation invariants: no `nextBuf_` only with a full buffer waiting, so the asserts at the top and before each recycling hold |
| AsyncLog.LogConserves | src/common/asynclog.cc:24-113 | for every interleaving, what was taken for writing, the batch in hand, the full buffers and the current one make up the appended lines in lock order; only a batch of more than 25 buffers drops anything; no assert fails |
| AsyncLog.FileIsPrefix | src/common/asynclog.cc:57-113 | with no such batch the file and the buffers in order are exactly the appended lines |
| AsyncLog.OneBufferTakesAll | src/common/asynclog.cc:24-45 | in every run, as long as less than 50000 bytes have been appended since the last swap, no buffer has been given up |
| AsyncLog.CutNeedsOverload | src/common/asynclog.cc:24-82 | with lines of at most L bytes a batch is cut only if it holds at least 25 * (50000 - L) bytes |
| AsyncLog.SmallLoadDropsNothing | src/common/asynclog.cc:24-113 | so a run that appends fewer in all drops nothing, in any interleaving |
| AsyncLog.StopWritesExactly | src/common/asynclog.cc:57-135 | from the state at the call of `stop`, with no append after it: when the thread has left, the file has grown by exactly the batch it was on the way to or had in hand |
| AsyncLog.CompleteAtExitExactly | src/common/asynclog.cc:57-135 | so the file ends complete if and only if at the call the thread was between its test and its swap or the appending side's buffers were empty, and the last batch is not cut |
| AsyncLog.StopLosesALine | src/common/asynclog.cc:57-135 | a run that loses a line, and one with the thread elsewhere that does not |
| AsyncLoggerClass.AsyncLogger.append | src/common/asynclog.cc:24-45 | the buffers keep their places apart and the contents become those of the transition |
| AsyncLoggerClass.AsyncLogger.SwapBuffers | src/common/asynclog.cc:62-76 | ownership moves between the sides with no buffer in two places, whether or not `stop` was called during the wait |
| AsyncLoggerClass.AsyncLogger.WriteBatch | src/common/asynclog.cc:79-112 | overload drop, output and recycling of buffer objects, as the transition has them |
| AsyncLoggerClass.AsyncLogger.AsyncLoggerLoop | src/common/asynclog.cc:57-117 | the loop, with any appends and stops by other threads at the three places of each turn where they may come: the asserts hold, no buffer is in two places, and all that was appended is in the file or the buffers |
| StreamBuffer.AppendKeepsExactly | src/common/Buffer.cc:31-41 | within the limit, data is taken exactly when it fits, and dropped otherwise |
| StreamBuffer.PickNext | src/common/Buffer.cc:77-100 | on the head of a framed stream the next message comes out exactly when all of it has arrived |
| StreamBuffer.SepRoundTrip | src/common/Buffer.cc:63-100 | what `appendwithsep` puts into an empty buffer `pickmessage` takes out, with either separator |
| StreamBuffer.ChunkFitsExactly | src/common/Buffer.cc:31-41 | a chunk is taken if and only if it fits beside what is left of the message under way, which the lengths determine, and is dropped whole otherwise |
| StreamBuffer.Receive | src/common/Buffer.cc:63-100 | messages framed with lengths, cut into any chunks that fit when they arrive and fed through append and pick, come out as exactly the same list in order, and the buffer keeps the incomplete rest |
| StreamBuffer.Buffer.append | src/common/Buffer.cc:36-41 | all or nothing, by the 64-bit room left |
| StreamBuffer.Buffer.appendwithsep | src/common/Buffer.cc:63-75 | data with its length in front for separator 1, plain for 0 |
| StreamBuffer.Buffer.pickmessage | src/common/Buffer.cc:77-100 | the message and the rest, or nothing and an unchanged buffer |
| SendPath.DrainKeepsInv | src/net/EventLoop.cc:107-121 | the drain loop executes the queue in order, and it ends in `exit` exactly when a queued send is for a descriptor that is no longer in epoll |
| SendPath.StepKeepsInv | src/net/Connection.cc:113-149 | every step keeps the streams, the queue order, the wake-up and the interest masks, and only a drain with a send for a closed connection ends the process |
| SendPath.WritableKeepsInv | src/net/Connection.cc:136-149 | a partial write of any size moves a prefix of the buffer to the kernel; the kernel's mask is then input and edge-triggering, and output too exactly if something is left |
| SendPathRuns.StreamsAreKept | src/net/Connection.cc:113-149 | in every run, for every connection: bytes the kernel took and the output buffer are the data of the executed sends in order, and the workers' sends are executed or queued in push order, each with the data of its call |
| SendPathRuns.CallOrderExactly | src/net/Connection.cc:119-134 | in all runs the sends on a connection, executed and queued, are in the order of the calls if and only if none was made on the IO thread while the queue held one for that connection |
| SendPathRuns.StreamInCallOrder | src/net/Connection.cc:113-149 | and then what the kernel took, the buffer and the queue are the data of the calls in order: nothing lost, doubled, split or mixed up |
| SendPathRuns.WorkerStream | src/net/Connection.cc:113-149 | in particular with sends from workers only |
| SendPathRuns.NoLostWakeup | src/net/EventLoop.cc:91-121 | whenever a task is queued, a producer's write, the handler's read or the drain itself is possible |
| SendPathRuns.OpenIsWatched | src/net/Channel.cc:17-113 | in every reachable state a connection that is not closed is watched for input, so that the next request is read, and for output if there is anything to write |
| SendPathRuns.DrainExitsExactly | src/net/Epoll.cc:18-41 | in any reachable state a drain ends the process if and only if some queued send is for a closed connection |
| SendPathRuns.LivesWithoutClose | src/net/Epoll.cc:18-41 | without a close no `exit` in `Epoll` is reached |
| SendPathRuns.EventsTakeBranches | src/net/Channel.cc:62-79 | in every reachable state an event comes only on a connection that is not closed, so none is removed twice; it never takes the EPOLLRDHUP branch; it takes the write branch if and only if there is room and no input |
| SendPathRuns.SendAndCloseExits | src/net/Connection.cc:29-35 | a run in which a queued send meets a close |
| SendPathRuns.SendHereOvertakes | src/net/Connection.cc:119-134 | a run in which the later of two sends comes first in the stream |
| ConnectionClass.BurstArrivesExactly | src/net/Connection.cc:72-111 | a burst arrives whole, as one message if it ends in "would block" and not at all if it ends in the peer's close, however it is cut and interrupted, if and only if the buffer has room for it |
| RpcBursts.BurstsReachDecode | src/net/Connection.cc:72-111 | bursts that fit and end in "would block" reach `decode` one by one, as they came |
| RpcBursts.BurstsKeepAllExactly | src/server/Rpc/rpc_server.cc:86-90 | of a stream of encoded requests in any bursts, all are decoded, in order and as they were sent, if and only if every burst ends with a frame |
| RpcBursts.CutRequestIsLost | src/server/Rpc/rpc_server.cc:86-90 | a request cut anywhere between two bursts is not among what is decoded as it was sent |
| ReplyStream.ClientReadsAllReplies | src/net/Connection.cc:113-149 | if no send on the IO thread overtakes, what the kernel took, the output buffer and the queue of a connection decode together to the replies of all its batches, in the order of the calls |
| ConnectionClass.Connection.onmessagecallback | src/net/Connection.cc:72-111 | the nested loops compute the meaning of the sequence of `recv` results |
| ConnectionClass.Connection.sendinloop | src/net/Connection.cc:113-117 | data at the end of the buffer and write interest on, or the channel's failure |
| ConnectionClass.Connection.writecallback | src/net/Connection.cc:136-149 | the prefix that was taken leaves the buffer, and interest goes off exactly with the last byte |
| ConnectionClass.EventLoop.send | src/net/Connection.cc:119-134 | on either kind of thread, the steps of the transition system, with a copy of the bytes as they are at the call |
| ConnectionClass.EventLoop.handlewakeup | src/net/EventLoop.cc:107-121 | counter and queue are empty afterwards, unless the process has ended, and all queued sends have been executed as the transition system has it |
| ConnectionClass.EventLoop.draintasks | src/net/EventLoop.cc:110-121 | the loop over the queue does what the recursive drain does, up to an exit |
| ReadWriteLock.NamesSortByName | src/common/DistributedReadWriteLock.cc:134 | for ten-digit suffixes the string order of the children puts all readers first and each kind in order of creation |
| ReadWriteLock.TargetIsBefore | README.md:59-60 | the awaited node is listed and in front of one's own |
| ReadWriteLock.SleepsExactly | README.md:59-60 | a session sleeps exactly if the node it watches is still there, and until it is deleted |
| ReadWriteLockRuns.TargetExactly | README.md:58-64 | a writer waits for the node just in front, a reader for the first writer in front, and neither for anything if there is none |
| ReadWriteLockRuns.ReadersShare | README.md:63-64 | a reader that lists next takes the lock by its next two steps if and only if no writer's node is in front, whoever holds |
| ReadWriteLockRuns.TwoReadersHold | README.md:63-64 | a run with two readers holding together |
| LockAsCoded.DistributedReadWriteLock.lock_write | src/common/DistributedReadWriteLock.cc:48-104 | as coded: the loop's end is a function of what its turns get to see |
| LockAsCoded.DistributedReadWriteLock.lock_read | src/common/DistributedReadWriteLock.cc:106-167 | the same for the reader, whose end depends on the writer's flag too |
| LockAsCoded.WriteEndsExactly | src/common/DistributedReadWriteLock.cc:63-103 | as coded, whatever the names: with the lock if and only if the own name comes first in the first turn that does not go round, waiting for ever if and only if nobody wakes it there |
| LockAsCoded.ReadEndsExactly | src/common/DistributedReadWriteLock.cc:121-166 | the same for the reader, which also takes the lock if the flag is clear and it sees nothing to wait for |
| LockAsCoded.WriteNeverAcquires | src/common/DistributedReadWriteLock.cc:60-103 | as coded no `lock_write` ever returns with the lock, whatever the children and whatever wakes it |
| LockAsCoded.WriterTestIsInverted | src/common/DistributedReadWriteLock.cc:143 | `find("write_")` as a truth value holds of exactly the readers' nodes |
| LockAsCoded.ReadTurnExactly | src/common/DistributedReadWriteLock.cc:134-151 | as coded a reader takes the lock in a turn if and only if the flag is not set and every listed child is a writer |
| LockAsCoded.ReadNeverAcquires | src/common/DistributedReadWriteLock.cc:118-166 | so on listings that have its own node no `lock_read` ever returns with the lock |
| ReadWriteLock.StepKeepsInv | README.md:49-64 | protocol: every step keeps: nodes and sessions correspond, a stale listing still has every earlier live node, a holder has no conflicting node in front, writers acquire in turn |
| ReadWriteLockRuns.ExclusionExactly | README.md:49-64 | in all runs, with stale listings and sessions lost at any step, a writer excludes everybody else if and only if listings are sorted by creation |
| ReadWriteLockRuns.WritersInTurn | README.md:49-64 | under either order two writers never hold the lock together and writers acquire in order of creation |
| ReadWriteLockRuns.ReaderSlipsIn | README.md:49-64 | a run under the name order with a writer and a reader holding together |
| ReadWriteLockRuns.SmallestAcquires | README.md:58-60 | in any reachable state the smallest request can acquire by its own session's steps alone |
| ReadWriteLockRuns.SomebodyCanAcquire | README.md:58-60 | in any reachable state with a request, some session holds or can acquire |
| ReadWriteLockRuns.WaitingIsAcyclic | README.md:59-60 | a chain of sessions each waiting for the next goes strictly down and never returns to its start |
| LockSessionClass.LockSession.predecessor | README.md:59 | the loop finds the node in front of one's own |
| LockSessionClass.LockSession.writer | README.md:63-64 | the loop finds the first writer in front of one's own, if there is one |
| LockSessionClass.LockSession.decide | README.md:58-60 | from any sorted listing with the own node: nothing that conflicts is in front if the lock is taken, and else the awaited node is in front |
| Decimal.ValueInjective | src/common/msg_id_util.cc:25-29 | numerals of one width with one value are the same string |
| MsgId.SuccessorAddsOne | src/common/msg_id_util.cc:32-41 | the ripple carry over characters is addition of one, below the top |
| MsgId.SeedDigits | src/common/msg_id_util.cc:20-29 | digit k of a seed is the k-th random byte modulo ten, as a character |
| MsgId.Counts | src/common/msg_id_util.cc:15-45 | below the top, the k-th call returns the numeral of value + k, in any epoch |
| MsgId.FirstEpoch | src/common/msg_id_util.cc:15-45 | k calls after a seed return the twenty-digit numerals of the seed's value and its successors |
| MsgId.FirstEpochDistinct | src/common/msg_id_util.cc:15-45 | hence no id of the first epoch comes twice |
| MsgId.FaultsExactly | src/common/msg_id_util.cc:32-36 | a call walks off the string if and only if the number is all nines and the top is longer than it |
| MsgId.LaterEpochFaults | src/common/msg_id_util.cc:16-36 | an epoch after the first ends in that fault |
| MsgId.FirstFault | src/common/msg_id_util.cc:15-45 | from the start, with good reads: every call returns an id up to number (10^20 - first seed) + (10^20 - second seed), counted from 0, and that one walks off the string; the seeds may be at the top of their range |
| MsgId.MsgIDUtil.Increment | src/common/msg_id_util.cc:32-41 | the two index loops compute the successor in place, or find only nines |
| MsgId.MsgIDUtil.GenMsgID | src/common/msg_id_util.cc:15-45 | a call of the generator, on its two strings |
| ConnectionTables.StepKeepsInv | src/net/TcpServer.cc:42-79 | every section of every handler, in any interleaving of acceptor and loops and from the registration of the channel on, keeps: entries under their own descriptor and in the loop it selects, no descriptor for two connections, and for each connection where it is by what has happened to it |
| ConnectionTables.TablesAgree | src/net/TcpServer.cc:42-79 | between handlers, in every run: the global table is exactly the live connections and those that ended before they were in it, and part of the loops' tables with the same connection; loop k's entries have descriptors that leave k when divided by the number of loops; only in a loop's table are exactly those that ended by an error or between the insertions; each accepted one is still there, closed or timed out |
| ConnectionTables.GlobalIsLiveExactly | src/net/TcpServer.cc:61-79 | the global table is the live connections if and only if none in a loop's table ended before the first insertion |
| ConnectionTables.DifferenceExactly | src/net/TcpServer.cc:61-79 | the difference of the tables is the connections with errors if and only if none was closed between the insertions or had its error before them |
| ConnectionTables.CloseSlipsIn | src/net/TcpServer.cc:72-76 | a run that strands a connection in its loop's table |
| ConnectionTables.CloseComesTooEarly | src/net/TcpServer.cc:64-76 | a run that leaves a dead connection in both tables |
| ConnectionTables.AtomicHandlersAgree | src/net/TcpServer.cc:42-79 | if handlers do not interleave, the global table is always exactly the live connections and the difference exactly those with errors |
| ConnectionTables.TimerExactly | src/net/EventLoop.cc:135-147 | the timer takes from both tables exactly the connections of its loop that have timed out |
| ConnectionTables.TimerTakesTheSilent | src/net/Connection.cc:151-154 | in every run, that is exactly those whose registration or latest message is longer ago than the limit |
| TcpServerClass.TcpServer.newconnction | src/net/TcpServer.cc:61-79 | both tables get the connection; the tables agree afterwards |
| TcpServerClass.TcpServer.closeconnection | src/net/TcpServer.cc:42-50 | both tables lose it; the tables agree afterwards |
| TcpServerClass.TcpServer.errorconnection | src/net/TcpServer.cc:52-59 | only the global table loses it |
| TcpServerClass.TcpServer.handletimer | src/net/EventLoop.cc:123-150 | the loop that erases while it walks does exactly the timer's removals, in whatever order it walks |

## Left out

- TinyPBCodec.Decode: reads and writes outside the memory it may touch (a negative length, a text that fills its array without a zero, an index that overflows or passes the terminating zero, a negative size given to `std::string`) are one outcome, `Faults`; what the machine then does is not modelled.
- TinyPBRoundTrip.DecodeStream: the domain is ids under 100 bytes, names and error texts under 512, no zero byte in these three, and at most 2^31 - 1 bytes in all, because the reader copies texts through fixed arrays and C strings and indexes with `int`.
- RpcService.ServeRoundTrip: needs replies whose lengths fit the encoder's `int`; an oversized reply truncates the length in the source.
- RpcService.RpcDispatcher.Dispatch: protobuf parsing, the service call and serialization are one uninterpreted function for each method, so side effects of a service are not modelled.
- StreamBuffer.Buffer.pickmessage: the source copies four bytes for the length whatever the buffer holds; here fewer than four bytes, and a length within four of 2^31, count as incomplete. Only separators 0 and 1 give anything.
- StreamBuffer.Receive: needs chunks that fit when they arrive; behind one that does not the stream has a hole, and what the next four bytes are taken for is arbitrary.
- ThreadPoolRuns.PoolBeforeStop: counters are claimed before `Stop` only, since workers that leave on stop are not taken off them; the invariant says what they count afterwards.
- ThreadPool.Apply: the critical section is one step, apart from the points where `stop_` or the unlocked `++idleThreadnum_` can interleave; the workers' wait has a time limit, so it can always end and their notifications do not matter, while the reaper's has none and its notifications are steps; `addtask` is excluded once `Stop` walks `threads_` without a lock; ids of joined threads are not reused; the reaper thread starting before the fields are initialised and a second caller of `Stop` are not modelled.
- ThreadPoolRuns.StopReturnsExactly: leaves out spurious wake-ups, which are steps of the model and would free the reaper, because nothing promises them.
- ThreadPollClass.ThreadPoll.Threadwork: runs a given number of turns without another thread in between; the interleaved steps are in `ThreadPool`. `DrainDead` likewise.
- ThreadPollClass.ThreadPoll.JoinAll: starts when every thread has returned, so that no join waits; that the joins of threads still at work come to an end is in `ThreadPoolRuns`.
- ThreadPoolRuns.TasksCanStartExactly: says that steps are possible, not that they are taken, and that a task can end.
- AsyncLog.LogConserves: lines longer than 50000 bytes count as nothing, because `Buffer::append` drops them; a short `write` is not modelled.
- AsyncLog.StopWritesExactly: is about stops with no append after them; lines appended later are lost or not by the same rule, from the state at the last of them.
- AsyncLoggerClass.AsyncLogger.constructor: is the object after `start` has returned. `start` waits for a notification without a predicate (asynclog.cc:127), and one that comes before the wait (asynclog.cc:56) leaves it waiting; that is not part of the model.
- AsyncLoggerClass.AsyncLogger.WriteBatch: resizing and popping the vector are steps on a sequence, freeing of buffers is not modelled.
- SendPath.Apply: a drain is one step because the handler holds the queue's mutex throughout; nothing is claimed about when an event comes, and after one with both EPOLLIN and EPOLLOUT, of which `handleevent` serves only the first, the edge-triggered socket may be silent.
- SendPathRuns.DrainExitsExactly: the queued task keeps a plain pointer to its connection; when the close, or the timer, which drops a connection that nobody has closed (EventLoop.cc:137-142), has dropped the last reference the object is freed, and the drain uses freed memory instead of what the lemma says.
- SendPathRuns.LivesWithoutClose: a write to a socket that the peer has reset raises SIGPIPE, since `::send` has no MSG_NOSIGNAL (Connection.cc:138) and nothing handles the signal; that ends the process and is not part of the model.
- ReplyStream.ClientReadsAllReplies: is about the replies pushed, whose batches have to be in the codec's domain and within its lengths together.
- RpcBursts.BurstsKeepAllExactly: is about bursts that are decoded one after the other; with worker threads they are decoded side by side, each by itself all the same.
- SendPathRuns.CallOrderExactly: a worker's call counts from its push; two workers that push at the same time are in the order of the mutex.
- ConnectionClass.EventLoop.send: runs without another thread in between; the interleaved steps are in `SendPath`. `handlewakeup` likewise.
- ConnectionClass.Connection.onmessagecallback: the results of `recv` are a given finite sequence; an error that repeats for ever makes the source loop for ever.
- ReadWriteLock.Apply: this is the protocol that README.md:49-64 of the repository describes, not the C++. The C++ differs in this: `substr` keeps the slash, so the own name matches no child and the deletion path has two slashes (DistributedReadWriteLock.cc:39, 61); the watcher casts its own address instead of its context and compares a path pointer with strings of the wrong kind (lines 5-18); `!(ret != ZOK)` exits on success (95, 158); `find("write_")` is used as a truth value (143); the two `*_deleted` flags are never reset and `isWriteLock` only by `unlock_write`, so that a reader takes it from an earlier writer (41, 78-81, 101, 145-149, 164); children are sorted by full name (76, 134).
- ReadWriteLockRuns.ExclusionExactly: is about that protocol, as is everything in `ReadWriteLock`, `ReadWriteLockRuns` and `LockSessionClass`; as coded nobody acquires the lock (`LockAsCoded`), so that its exclusion is empty.
- LockAsCoded.WriteNeverAcquires: the results of `zoo_get` and the setting of the awaited flag are arbitrary, which covers the faulty watcher; the number of turns is finite.
- ReadWriteLock.Enabled: a lost session and its node go in one step, the server's listing is a snapshot at one moment that may be stale when used, sequence numbers do not wrap, and a lost session does not return (another one may take its place).
- ReadWriteLockRuns.SmallestAcquires: says that steps are possible, not that they are taken; the same holds of `SomebodyCanAcquire`.
- SendPathRuns.NoLostWakeup: says that a step is possible, not that it is taken.
- MsgId.FirstEpoch: ids are claimed distinct in one thread's first epoch only; two threads draw independently, and a read of /dev/urandom that falls short returns the empty id.
- ConnectionTables.TablesAgree: events of a connection are taken to begin when its callbacks are set (TcpServer.cc:71); its channel is in epoll some lines earlier, and an event there calls an empty function, which ends the process. A descriptor is reused only when nobody refers to the connection any more; iterating a loop's table while the acceptor inserts into it without a common lock is a data race and not modelled; `closeconnection_` and the other user callbacks do nothing to the tables.
- TcpServerClass.TcpServer.handletimer: runs without another thread in between; the interleaved sections are in `ConnectionTables`.
- Sockets, epoll, eventfd, timerfd and the ZooKeeper client are steps of the models or parameters; `Acceptor`, `Epoll`, `Socket`, `InetAddress` and `ZkClient` have no model of their own.
- `RpcChannel::CallMethod`, the network client, generated protobuf code, `RpcClosure` and `RpcInterface`.
- `Http` and `EchoServer`, configuration, log formatting, timestamps, singletons, getters and setters: only easy members.
- Failing allocation, wall-clock liveness and races in the sense of the C++ memory model.
