# mutiplex, modelled and proved in Dafny

mutiplex is a TCP reactor: one event loop per thread, connections whose handlers run on that thread,
and callbacks posted to it from anywhere. This project models the outgoing byte path and the
machinery that drives it, and proves what holds in every run.

`dafny verify dfyconfig.toml` checks the whole project.

## How it is built

- `Bits.dfy`: 32-bit words with wrap-around, power-of-two arithmetic, the rounding loop.
- `Ring.dfy`, `CircularBuffer.dfy`: the ring buffer as a value (`Ring`, with `Contents` the queue it
  stands for) and as an object on a heap array. Fresh memory is an arbitrary function (`Garbage`).
- `EventSource.dfy`: interest masks and the kernel's epoll table. A mask is the set of its bits.
- `EventLoop.dfy`: the scheduling of one loop thread and any number of posting threads, as a
  transition system; push, notify and unlock of a foreign post are separate steps.
- `Connection.dfy`, `ConnectionObjects.dfy`: what each handler and posted task does, as functions on
  values, and the connection and loop objects whose methods equal those functions.
- `Link.dfy`, `Reactor.dfy`, `Theorems.dfy`: a connection with the history of its bytes, its
  composition with the loop, and the theorems about every reachable state.
- `Closing.dfy`: when a connection listens, what closes it and when, in every run.
- `Departures.dfy`: reachable states in which the code departs from what a caller would expect.
- `Session.dfy`: the double-buffered echo session of the asio benchmark.
- `ByteBuffer.dfy`, `Slice.dfy`, `InetAddress.dfy`: the positioned buffer, byte slices, address text.

In the transition systems everything undetermined is a parameter of a move: which thread acts, the
kernel's answers, what user callbacks post, what fresh memory holds. Steps that no code path of the
library can exclude are all allowed, so the theorems hold for every interleaving.

## Where the code departs from its evident intent

The model follows the code. Each point has an exact condition and a witness, for the reactor a reachable
state in `Departures.dfy`.

- `resize` forgets the new bytes when the buffer is full with its write index at 0. A put appends its
  bytes for every allocation exactly when that state is excluded (or the put is empty) and the result
  fits 2^31 bytes (`Ring.PutAppendsExactly`). A first write of power-of-two length always leads to that
  state (`ConnectionSteps.FirstWriteFillsBuffer`). On either channel the next write breaks an intact
  stream exactly there (`ReactorTheorems.StreamBreaksExactly`), and a broken stream is never mended
  (`ReactorTheorems.IntactRun`). The theorems about the stream carry this as the history `lossy`;
  without it they still fix the number of bytes.
- `force_close` dereferences the buffer even if no write ever created it: exactly when it runs before
  every write (`ReactorTheorems.TaskStopsExactly`).
- The assertion of `handle_write` can fail. At a loop head the coming iteration can fail it exactly when
  the kernel watches for writability with nothing buffered (`ReactorTheorems.AssertionFailsExactly`).
  Exactly two steps lead there: an empty shared write onto nothing, and a force_close while the kernel
  watches, whose raw change of the interest mask leaves the kernel's entry in place. What ends the state
  is exact, too (`Links.ExposedExactly`, `ReactorTheorems.InterestBreaksExactly`).
- The raw setter of the interest mask is safe for all later calls exactly when the source is registered
  or the mask is empty (`Epoll.RawSetterSafeExactly`).
- After a partial write in Disconnecting nobody waits for the descriptor to become writable, so the rest
  stays behind (`ReactorTheorems.PartialWriteStrands`).
- The closed callback is reached again by every close task that runs on a closed connection
  (`ReactorTheorems.ClosedCallbackCount`).

## Model

| member | source | states |
|---|---|---|
| `Bits.WrapAround` | mutiplex/CircularBuffer.h:27-52 | the counters' addition and subtraction are arithmetic modulo 2^32 |
| `Bits.IsPowOfTwoIsExact` | src/CircularBuffer.cpp:16-19 | the bit test accepts exactly the powers of two |
| `Bits.MaskIsModulo` | mutiplex/CircularBuffer.h:56-64 | masking with capacity minus one is the remainder modulo the capacity, for every power of two |
| `Bits.WrapKeepsIndex` | mutiplex/CircularBuffer.h:56-64 | a counter that overflows 2^32 keeps its index in every buffer |
| `Bits.RoundupPowOfTwo` | src/CircularBuffer.cpp:21-36 | the 31-step loop computes the halving definition of the least power of two, 2 below 2, and 2^31 above 2^31 |
| `Bits.RoundupIsLeast` | src/CircularBuffer.cpp:21-36 | for 2 to 2^31, a power of two is at least the argument exactly when it is at least the result |
| `Ring.InitialCapacityFits` | src/CircularBuffer.cpp:38-52 | the capacity is a power of two up to 2^31, holds the request up to 2^31, and equals a power-of-two request |
| `Ring.InitialCapacityIsLeast` | src/CircularBuffer.cpp:38-52 | the capacity is the least power of two that holds a request of 1 to 2^31, 2 for a request of nothing, 2^31 above |
| `Ring.IndexFacts` | mutiplex/CircularBuffer.h:47-64 | both masked indices are remainders inside the block, and the wrapped subtraction in `buffer_remaining` is capacity minus length |
| `Ring.AdvanceIndex` | src/CircularBuffer.cpp:76-93 | advancing a counter by at most one lap moves its index round the block, also across the 2^32 wrap |
| `Ring.StoreAppends` | src/CircularBuffer.cpp:65-77 | with room, the two-segment copy appends exactly the given bytes for every layout |
| `Ring.ResizeAppends` | src/CircularBuffer.cpp:97-129 | the general branch yields the old queue followed by the new bytes, in a valid buffer |
| `Ring.AlignedBlockIsContents` | src/CircularBuffer.cpp:106-116 | full and aligned, the block is the queue, so the special copy agrees with the general one on the old bytes |
| `Ring.ResizeForgets` | src/CircularBuffer.cpp:106-127 | the special branch yields the old queue followed by bytes nobody wrote |
| `Ring.ResizeCapacityFits` | src/CircularBuffer.cpp:99-119 | the new block holds all bytes exactly when they fit 2^31, although length plus capacity may wrap |
| `Ring.PutStores` | src/CircularBuffer.cpp:59-78 | up to 2^31 bytes a put keeps the old queue and appends as many bytes as given: the given ones or, in the failing state, unwritten memory |
| `Ring.PutAppendsExactly` | src/CircularBuffer.cpp:59-129 | a put appends its bytes for every allocation if and only if they fit 2^31 and the buffer is not full and aligned (or the put is empty) |
| `Ring.ResizeCapacityIsLeast` | src/CircularBuffer.cpp:97-129 | a put that replaces the block chooses the least power of two that holds the whole old block and the new bytes, or 2^31 if none does, with the queue at its start |
| `Ring.FittingPutKeepsBlock` | src/CircularBuffer.cpp:65-77 | a put that fits keeps the block and where the queue starts |
| `Ring.ResizeFillsExactly` | src/CircularBuffer.cpp:97-129 | such a put leaves the buffer full and aligned if and only if it takes 2^31 bytes or the old block was full and, with the new bytes, a power of two |
| `Ring.NextPutAppends` | src/CircularBuffer.cpp:59-129 | after a put that replaced a block that was not full, the next put appends if and only if it fits 2^31 |
| `Ring.FirstPutFills` | src/CircularBuffer.cpp:38-78 | a buffer created for a power-of-two length and filled by one put is full and aligned |
| `Ring.GetTakesPrefix` | src/CircularBuffer.cpp:80-95 | get returns the first min(length, size) bytes and leaves the rest |
| `Ring.OfferedIsContents` | src/CircularBuffer.cpp:131-164 | the single write and the two-iovec write both offer the queue itself |
| `Ring.AcceptDropsPrefix` | src/CircularBuffer.cpp:165-166 | accepting n bytes drops exactly the first n, also across the 2^32 wrap |
| `Ring.RingRefinesQueue` | src/CircularBuffer.cpp:59-167 | over every sequence of puts, gets, clears and partial sends the bytes given out and the final contents are those of a plain queue |
| `Ring.ShapeDecides` | src/CircularBuffer.cpp:59-167 | over every sequence of operations, whether a byte is lost, and the size, capacity and start that result, are decided by sizes alone |
| `CircularBuffers.CircularBuffer.constructor` | src/CircularBuffer.cpp:38-52 | the object starts as the empty ring of the rounded capacity |
| `CircularBuffers.CircularBuffer.Put` | src/CircularBuffer.cpp:59-78 | the in-place put equals `Ring.Put` for what the allocation held |
| `CircularBuffers.CircularBuffer.Resize` | src/CircularBuffer.cpp:97-129 | the reallocation equals `Ring.Resize` for what the allocation held |
| `CircularBuffers.CircularBuffer.Get` | src/CircularBuffer.cpp:80-95 | the in-place get equals `Ring.Get` |
| `CircularBuffers.CircularBuffer.Clear` | mutiplex/CircularBuffer.h:42-45 | both counters return to 0 |
| `CircularBuffers.CircularBuffer.Offer` | src/CircularBuffer.cpp:135-159 | the bytes handed to the kernel are the contents |
| `CircularBuffers.CircularBuffer.WriteToFd` | src/CircularBuffer.cpp:131-167 | the contents are offered, an error changes nothing, a count advances the read counter by it |
| `Epoll.SoundStep` | src/EventSource.cpp:13-46 | ADD goes only to an unregistered source and MOD only to a registered one; a call is refused exactly when an unregistered source is disabled |
| `Epoll.ApplyRestoresMirror` | src/EventSource.cpp:13-46 | every enable, disable and disable_all leaves the kernel watching exactly the interest set, whether or not it did before |
| `Epoll.SetBreaksMirrorExactly` | src/EventSource.h:112-115 | the raw setter breaks the mirror exactly when it changes the set |
| `Epoll.MirrorAfterEveryRun` | src/EventSource.cpp:13-46 | over every run from a new source the mirror holds after each operation other than the raw setter |
| `Epoll.RawSetterSafeExactly` | src/EventSource.h:112-115 | after the raw setter, every later run issues ADD only for unknown and MOD only for known descriptors if and only if the source was registered or the mask is empty |
| `Epoll.RawSetterCanBreakMod` | src/EventSource.h:112-115 | the witness for the other case: a new source given a raw mask, where a disable issues MOD for an unknown descriptor |
| `Epoll.InterestExactly` | src/EventSource.cpp:13-46 | bit by bit: each operation decides about the bits it mentions and leaves the others alone |
| `Epoll.LastMentionDecides` | src/EventSource.cpp:13-46 | over every run a bit is in the interest set if and only if its last mention asked for it, or it was there and none mentions it |
| `Epoll.DispatchExactly` | src/EventSource.h:75-95 | for every readiness and every set of callbacks: exactly which callbacks are called, each once, reading before writing |
| `Epoll.EpollTable.Control` | src/EventLoop.cpp:99-133 | one epoll_ctl: accepted or refused by the entry, a refused call changes nothing, other descriptors are untouched |
| `Epoll.EventSource.EnableOps` | src/EventSource.cpp:13-25 | the in-place update equals `Enable` and touches one table entry |
| `Epoll.EventSource.DisableOps` | src/EventSource.cpp:27-37 | the in-place update equals `Disable` and touches one table entry |
| `Epoll.EventSource.DisableEverything` | src/EventSource.cpp:39-46 | the in-place update equals `DisableAll` and touches one table entry |
| `Epoll.EventSource.HandleEvents` | src/EventSource.h:75-95 | which callbacks are called and in which order, and that an error or hang-up then disables the source |
| `EventLoops.FifoStep` | src/EventLoop.cpp:57-83 | every step keeps: posted equals run, then batch, then pending; local posts equal done, then task queue |
| `EventLoops.AwakeStep` | src/EventLoop.cpp:57-73 | every step keeps a pending callback announced, about to be announced, or behind a loop thread that is awake |
| `EventLoops.NoLostWakeup` | src/EventLoop.cpp:153-163 | in every run, about to block with callbacks pending, the eventfd counter is positive or a poster holding the lock has yet to notify |
| `EventLoops.ExactlyOnceInOrder` | src/EventLoop.cpp:57-83 | in every run both channels run each post at most once and in order, and both queues are empty at each loop head after an iteration |
| `EventLoops.WaitingRunsBeforePolling` | src/EventLoop.cpp:57-83 | whatever was posted on either channel while the loop handles events has run when it polls next |
| `EventLoops.NeverPollsAfterStop` | src/EventLoop.cpp:57-90 | after a stop the loop never polls again and leaves at the next loop head |
| `EventLoops.LeavesForGood` | src/EventLoop.cpp:57-64 | once out of `run`, after a stop or a failed poll, the loop runs nothing more |
| `EventLoops.PostsNotifyOnce` | src/EventLoop.cpp:153-163 | over every run each foreign post takes the lock, notifies once and gives the lock back |
| `EventLoops.CounterExactly` | src/EventLoop.cpp:28-33 | over every run the eventfd counter is positive if and only if a notification or a stop came after it was last read |
| `ConnectionSteps.DoWriteQueues` | src/Connection.cpp:165-178 | a write on an open connection queues as many bytes as given, and exactly them unless the buffer is full and aligned |
| `ConnectionSteps.DoWriteAppendsExactly` | src/Connection.cpp:165-178 | it queues exactly its bytes for every allocation if and only if the buffer is not full and aligned (or the write is empty) |
| `ConnectionSteps.FirstWriteFillsBuffer` | src/Connection.cpp:172-175 | after a first write of power-of-two length no non-empty write is appended until bytes are sent |
| `ConnectionSteps.HandleWriteSends` | src/Connection.cpp:180-208 | sent bytes followed by the new queue are the old queue, and a positive count shortens it |
| `ConnectionSteps.TaskPosts` | src/Connection.cpp:96-178 | a task posts at most one force_close, and only a write does |
| `ConnectionObjects.EventLoop.PostCallback` | src/EventLoop.cpp:153-163 | a post goes to the task queue or to the pending callbacks with a notification, never to both |
| `ConnectionObjects.EventLoop.Drain` | src/EventLoop.cpp:79-82 | the drain ends for every queue, runs the waiting tasks in order, followed only by force_close tasks they posted, and leaves the connection as the steps of these tasks make it |
| `ConnectionObjects.Connection.Register` | src/Connection.cpp:47-94 | the new source is registered for reading, the state is Receiving and the connection is listed |
| `ConnectionObjects.Connection.Write` | src/Connection.cpp:150-163 | refused when closing or closed, else posted with its bytes on the caller's channel; a length the copy would assert on is outside its contract |
| `ConnectionObjects.Connection.DoWrite` | src/Connection.cpp:165-178 | equals the write step, with the buffer created on first use |
| `ConnectionObjects.Connection.CloseNow` | src/Connection.cpp:96-114 | equals the close task, including the closed callback and the map |
| `ConnectionObjects.Connection.ForceCloseNow` | src/Connection.cpp:116-136 | equals the force_close task, including the guarded closed callback |
| `ConnectionObjects.Connection.RunTask` | src/Connection.cpp:96-178 | each posted callback equals its step, and is refused exactly where the step is not followed further |
| `ConnectionObjects.Connection.HandleWrite` | src/Connection.cpp:180-208 | offers the queued bytes and equals the write handler for every answer of the kernel |
| `ConnectionObjects.Connection.HandleRead` | src/Connection.cpp:52-80 | equals the read handler for every result of read |
| `ConnectionObjects.Connection.HandleError` | src/Connection.cpp:88-91 | posts a force_close, then disables the source |
| `Links.LifeCycleStep` | src/Connection.cpp:93-178 | no step moves the state back; Closed has nothing to write; listed exactly while open; a buffer exists exactly once a write ran; the closed callback count |
| `Links.StreamStep` | src/Connection.cpp:138-208 | no step breaks: sent plus queued is what was accepted |
| `Links.IntactExactly` | src/Connection.cpp:165-208 | short of a force_close a step leaves the stream intact exactly when it was and a write that ran appended its bytes |
| `Links.MirrorStep` | src/Connection.cpp:47-208 | every handler and task keeps the kernel's mask equal to the interest set until a force_close |
| `Links.InterestStep` | src/Connection.cpp:165-208 | every step keeps: interest in writing means bytes to write unless an empty write met an empty buffer; after a force_close nothing is asked for; while receiving bytes to write mean interest |
| `Links.ExposedExactly` | src/Connection.cpp:116-208 | exactly which steps leave the kernel watching for writability with nothing to write, and which end it |
| `Links.ForceCloseExposes` | src/Connection.cpp:116-136 | a force_close leaves that state exactly when the kernel watched for writability before it |
| `Links.InterestKeptExactly` | src/Connection.cpp:165-208 | short of a force_close a step keeps interest backed by bytes exactly when it is not an empty write onto nothing |
| `Links.PostsExactly` | src/Connection.cpp:52-208 | a force_close is posted if and only if a failure is met or a write runs on a Closed connection, a close if and only if the stream ends or bytes are sent while closing; nothing else is posted |
| `Links.StateExactly` | src/Connection.cpp:93-136 | a close task closes if and only if nothing is buffered, else the connection is Disconnecting; a force_close always closes; nothing else changes the state of an established connection |
| `Links.AsksExactly` | src/Connection.cpp:47-208 | the interest after every step bit by bit: what starts and ends asking for readability and writability; the kernel follows, except at a force_close |
| `Reactor.HandlersInOrder` | src/EventSource.h:75-95 | in the composed system the handlers of a readiness run in the order of the dispatch: error alone, else read, then write |
| `Reactor.DoomStep` | src/Connection.cpp:116-136 | a force_close posted by a handler waits in the task queue until the connection is Closed |
| `Reactor.TracedStep` | src/EventLoop.cpp:75-82 | the order in which tasks run merges the two post orders, and the accepted bytes follow it |
| `Reactor.InvStep` | src/EventLoop.cpp:52-84 | every move of the composed system keeps the whole invariant |
| `ReactorTheorems.EndToEnd` | src/Connection.cpp:138-208 | until a force_close, bytes on the wire followed by buffered bytes are the data of all executed writes in execution order, whatever partial counts the kernel returned |
| `ReactorTheorems.SchedulingHolds` | src/EventLoop.cpp:57-83 | the wakeup and ordering laws hold in every reachable state of loop and connection together |
| `ReactorTheorems.WaitingRunsBeforePolling` | src/EventLoop.cpp:57-83 | the same in the composed system: what waited when the loop woke has run when it polls next |
| `ReactorTheorems.RunOrder` | src/EventLoop.cpp:75-82 | executed local tasks are a prefix of the local posts in call order, foreign ones of the foreign posts in lock order, and copying writes run with the bytes they were called with |
| `ReactorTheorems.StreamBreaksExactly` | src/CircularBuffer.cpp:106-120 | from any reachable intact state the next write, of the swapped batch or of the task queue, keeps the stream for every allocation if and only if its bytes fit and the buffer is not full and aligned |
| `ReactorTheorems.IntactRun` | src/Connection.cpp:138-208 | over every run without a force_close the stream ends intact if and only if it began intact and every write appended its bytes |
| `ReactorTheorems.NeverBackwards` | src/Connection.cpp:93-136 | over every run the state never decreases in New, Receiving, Disconnecting, Closed |
| `ReactorTheorems.SettledBeforePolling` | src/Connection.cpp:58-71 | when the loop polls again, a connection that failed is Closed and one whose peer ended is Closed or Disconnecting |
| `ReactorTheorems.FailureCloses` | src/Connection.cpp:58-71 | over every run, a failing read, write or error event is followed by Closed when the loop polls next; end of stream by Closed or Disconnecting, with reading given up |
| `ReactorTheorems.FrontCanRun` | src/EventLoop.cpp:79-82 | in every reachable state the task at the front of the queue can run |
| `ReactorTheorems.NeverStuck` | src/EventLoop.cpp:52-84 | no deadlock: in every reachable state the loop thread, or the poster holding the lock it waits for, can go on |
| `ReactorTheorems.GracefulCloseDropsNothing` | src/Connection.cpp:96-114 | Closed without a force_close: every accepted byte reached the wire |
| `ReactorTheorems.ClosedCallbackCount` | src/Connection.cpp:100-131 | the closed callback is reached once on closing plus once per close task run afterwards |
| `ReactorTheorems.WriteInterest` | src/Connection.cpp:165-208 | until a force_close the kernel watches for writability exactly when the source asks; unless an empty write met an empty buffer or a force_close cut the buffer off, there are then bytes; while receiving with no force_close queued, bytes mean interest |
| `ReactorTheorems.InterestBreaksExactly` | src/Connection.cpp:116-208 | over every run, watching for writability means bytes to write if and only if no exposing step is left uncovered |
| `ReactorTheorems.WriteProgress` | src/Connection.cpp:180-208 | each successful handler write sends a prefix of the buffered bytes and shortens them by its length |
| `ReactorTheorems.CrashExplained` | src/Connection.cpp:116-182 | a null buffer is met only if no write ran, the assertion fails only after an empty write onto nothing or a force_close while the kernel was watching, and one write alone never exceeds the limit |
| `ReactorTheorems.TaskStopsExactly` | src/Connection.cpp:116-178 | a move dereferences the null buffer if and only if it runs a force_close before any write; it meets the 2^31 limit if and only if it is a write beyond it |
| `ReactorTheorems.AssertionFailsExactly` | src/Connection.cpp:180-182 | at a loop head some run of the coming iteration fails the assertion if and only if the kernel watches for writability and nothing is buffered |
| `ReactorTheorems.DrainTerminates` | src/EventLoop.cpp:79-82 | while user callbacks post nothing, no drain is longer than twice the measure 2 per write and 1 per other task |
| `ReactorTheorems.PartialWriteStrands` | src/Connection.cpp:198-202 | in Disconnecting, bytes are left with nobody waiting to write them exactly when the kernel took fewer than offered |
| `ReactorTheorems.StrandedStep` | src/Connection.cpp:198-202 | such bytes stay, and the wire is silent, until a write or a force_close runs |
| `Departures.SecondWriteLost` | src/CircularBuffer.cpp:106-120 | for every first write of power-of-two length and every second write there is a run with a broken stream |
| `Departures.ForceCloseBeforeWrite` | src/Connection.cpp:116-122 | a run that dereferences a null buffer |
| `Departures.EmptyWriteAsserts` | src/Connection.cpp:138-182 | a run in which an empty write fails the assertion |
| `Departures.WritableAfterForceClose` | src/Connection.cpp:120-122 | a run in which readiness after a force_close fails the assertion |
| `Departures.ClosedCallbackTwice` | src/Connection.cpp:100-107 | a run that reaches the closed callback twice |
| `Departures.GracefulCloseStrands` | src/Connection.cpp:198-202 | a run that ends idle with bytes left behind |
| `Closing.ListensExactly` | src/Connection.cpp:47-122 | over every run a connection asks for readability exactly from its establishment to its end of stream, an error event or a force_close |
| `Closing.ClosedByTasksOnly` | src/Connection.cpp:96-136 | in every reachable state the connection is past Receiving if and only if a close or force_close has run |
| `Closing.AskedToClose` | src/Connection.cpp:96-136 | a force_close or close waiting on either channel when the loop wakes has taken effect when it polls next |
| `Closing.StaysOpen` | src/Connection.cpp:52-136 | over every run an open connection stays open unless close or force_close is called, reading or writing fails, an error is reported or the stream ends |
| `Closing.ClosedExactlyWhenSent` | src/Connection.cpp:96-114 | at every loop head a connection past Receiving is Closed if and only if nothing is buffered: short of a force_close, if and only if every accepted byte was sent |
| `Closing.FlushCloses` | src/Connection.cpp:198-202 | once a closing connection has sent all it had, it is Closed whenever the loop polls, unless a write still on its way has added bytes |
| `Sessions.CountedStep` | benchmark/asio/pingpong/server.cpp.cpp:49-121 | every step keeps op_count the number of outstanding operations, unsent_count in 0 to 2, and destroy posted exactly when nothing is outstanding |
| `Sessions.BusyStep` | benchmark/asio/pingpong/server.cpp.cpp:49-121 | every step keeps what is outstanding in line with the counters and the errors |
| `Sessions.ApartStep` | benchmark/asio/pingpong/server.cpp.cpp:68-121 | every step keeps the read target and the write source on different buffers |
| `Sessions.EchoStep` | benchmark/asio/pingpong/server.cpp.cpp:68-121 | every step keeps: received is handed over plus waiting, handed over is sent plus still to send |
| `Sessions.LosslessEcho` | benchmark/asio/pingpong/server.cpp.cpp:68-121 | in every interleaving, with or without errors, sent is a prefix of handed over, a prefix of received and all of it unless a second buffer waits; all equal when nothing is unsent; no buffer is read into and written from at once |
| `Sessions.KeepsEchoing` | benchmark/asio/pingpong/server.cpp.cpp:49-121 | over every run a read is outstanding exactly as long as no read failed and a buffer is free, a write exactly as long as no write failed and a buffer waits: a healthy session goes on |
| `Sessions.Lifetime` | benchmark/asio/pingpong/server.cpp.cpp:49-126 | destroy is posted at most once, exactly when nothing is outstanding, and then no handler can run again |
| `Sessions.DestroyedExactly` | benchmark/asio/pingpong/server.cpp.cpp:49-126 | destroy is posted if and only if the option could not be set, or a read failed with nothing left to send, or a write failed with no read to wait for |
| `Sessions.Session.OnRead` | benchmark/asio/pingpong/server.cpp.cpp:68-94 | the read handler with its pointer swap equals the step |
| `Sessions.Session.OnWrite` | benchmark/asio/pingpong/server.cpp.cpp:96-121 | the write handler with its pointer swap equals the step |
| `Sessions.Session.Begin` | benchmark/asio/pingpong/server.cpp.cpp:49-66 | start equals the step |
| `ByteBuffers.HeaderDecodes` | src/ByteBuffer.cpp:18-33 | the capacity read back from the four header bytes is the one stored |
| `ByteBuffers.ApplyKeeps` | src/ByteBuffer.cpp:35-104 | every operation keeps mark, position, limit and capacity in order and the header unchanged |
| `ByteBuffers.RunKeeps` | src/ByteBuffer.cpp:12-104 | so does every run |
| `ByteBuffers.SkipKeepsExactly` | src/ByteBuffer.cpp:100-104 | skip with any count it accepts keeps the order exactly when it does not pass the start or the mark |
| `ByteBuffers.GetTakesReadable` | src/ByteBuffer.cpp:92-98 | a get gives a prefix of what lies between position and limit and leaves the rest |
| `ByteBuffers.CursorsSelect` | src/ByteBuffer.cpp:35-104 | what is readable after setting the limit or the position, skipping, rewinding, flipping and clearing |
| `ByteBuffers.FilledDirectly` | src/Connection.cpp:55-74 | clear, read into the memory, set the position behind it, flip: exactly those bytes are readable |
| `ByteBuffers.ResetReturns` | src/ByteBuffer.cpp:57-61 | after a mark and any run forward a reset goes back to it, and keeps it |
| `ByteBuffers.MarkRereads` | src/ByteBuffer.cpp:57-61 | what was read after a mark can be read again |
| `ByteBuffers.MarkSurvivesExactly` | src/ByteBuffer.cpp:35-81 | a reset stays possible if and only if the mark was neither passed nor discarded |
| `ByteBuffers.PutAllIsPut` | src/ByteBuffer.cpp:83-90 | any chunking of a put is one put of the joined bytes |
| `ByteBuffers.GetAllIsGet` | src/ByteBuffer.cpp:92-98 | any chunking of a get is one get of the total |
| `ByteBuffers.RoundTrip` | src/ByteBuffer.cpp:70-98 | put in any chunks, flip, get in any chunks: the same bytes, as many as asked for and present |
| `ByteBuffers.ByteBuffer.constructor` | src/ByteBuffer.cpp:12-21 | the object starts with its header written and its cursors set |
| `ByteBuffers.ByteBuffer.MoveTo` | src/ByteBuffer.cpp:35-42 | equals the position step, dropping a mark it passes |
| `ByteBuffers.ByteBuffer.LimitTo` | src/ByteBuffer.cpp:44-55 | equals the limit step, pulling back the position and dropping a mark beyond it |
| `ByteBuffers.ByteBuffer.ClearAll` | src/ByteBuffer.cpp:63-68 | equals the clear step, with the limit decoded from the header |
| `ByteBuffers.ByteBuffer.FlipOver` | src/ByteBuffer.cpp:70-75 | equals the flip step |
| `ByteBuffers.ByteBuffer.PutBytes` | src/ByteBuffer.cpp:83-90 | equals the put step on the heap block |
| `ByteBuffers.ByteBuffer.GetBytes` | src/ByteBuffer.cpp:92-98 | equals the get step |
| `Slices.CompareAgreesWithEqual` | mutiplex/Slice.h:99-119 | compare is 0 exactly on equal bytes, as operator== is true |
| `Slices.CompareIsLexicographic` | mutiplex/Slice.h:110-119 | compare is negative exactly when the first slice precedes the second lexicographically by unsigned bytes |
| `Slices.CompareFlips` | mutiplex/Slice.h:110-119 | swapping the arguments flips the sign |
| `Slices.CompareTransitive` | mutiplex/Slice.h:110-119 | the order is transitive |
| `Slices.StartsWithIsPrefix` | mutiplex/Slice.h:86-90 | starts_with holds exactly for prefixes |
| `Slices.PrefixInterval` | mutiplex/Slice.h:86-119 | the slices with a given prefix form an interval of the order whose least element is the prefix |
| `InetAddresses.PtonIsExact` | src/InetAddress.cpp:25-28 | inet_pton accepts exactly the texts that inet_ntop prints and gives back the octets |
| `InetAddresses.PortInNetworkOrder` | src/InetAddress.cpp:49-52 | the two bytes that the stored port occupies are the host port in network order |
| `InetAddresses.OctetsInMemory` | src/InetAddress.cpp:34-47 | the printed octets are the bytes of the stored ip in memory, in order |
| `InetAddresses.ToStringFits` | src/InetAddress.cpp:34-41 | the text fits the 16-byte and the 32-byte buffer, so nothing is cut |
| `InetAddresses.RoundTrip` | src/InetAddress.cpp:17-52 | for every 32-bit ip and 16-bit port, parsing the printed text gives the same address |
| `InetAddresses.ParseIsExact` | src/InetAddress.cpp:17-32 | the constructor yields an address if and only if the part before the first colon, up to a NUL, is its printed ip and the number after the colon is its host port modulo 2^16 |
| `InetAddresses.ParseFailsExactly` | src/InetAddress.cpp:19-29 | "invalid addr" is thrown if and only if there is no colon, "invalid ip" if and only if no address prints as the text before it |
| `InetAddresses.AtoiReads` | src/InetAddress.cpp:31 | atoi reads white space, one sign and the digits up to the first other character |

## Left out

- Sockets, epoll_wait timing and errno values: the kernel is a table, a counter and an arbitrary answer.
- One write call transfers at most 0x7ffff000 bytes, as on Linux; so the cast of the count to `int` never changes it.
- Runs are not followed past a put that would need more than 2^31 bytes: there the copies leave the block or the counters exceed the capacity.
- Object lifetime: a connection outlives its queued tasks and may still receive events after it is closed, as when a user keeps a pointer to it; destructors are not modelled.
- Several connections on one loop, and reuse of a descriptor number: the composed system has one connection.
- User callbacks are arbitrary posts from the loop thread; a foreign write's racy look at the state is modelled as always passing.
- `pull_events` resizing its result vector, `allocate_receive_buffer`, and the receive buffer handed to read callbacks.
- Acceptor, Connector, ServerSocket, TcpServer, Timestamp and `InetAddress::resolve`: plumbing around system calls.
- `InetAddresses.ParseIsExact`: the port text is read by `atoi`, whose overflow beyond `int` is undefined; the model takes the mathematical value modulo 2^16.
- `Epoll.EventSource.HandleEvents`: the callbacks themselves, which belong to whoever set them; those of a connection, which disable interest on the source, run in the composed system (`Reactor.HandlersInOrder`).
- Rewind and skip of the byte buffer, and `clear` and `remove_prefix` of slices, are single assignments and have no object method.
- The other benchmark programs and the handler allocator.
