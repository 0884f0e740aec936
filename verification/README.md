# BidServer: verified model of the server core

A Dafny model of the parts of BidServer whose correctness is not visible from one function
at a time, with proofs over every input, every run or every interleaving.

| files | what they model |
|---|---|
| `WheelMath.dfy`, `WheelPlacement.dfy`, `WheelIndex.dfy`, `TimerSpec.dfy`, `TimeWheel.dfy` | the hierarchical timing wheel, refined to a flat map of deadlines |
| `Strings.dfy`, `Digraph.dfy`, `ComponentOrder.dfy` | start-up order of services and modules (Kahn's algorithm) |
| `RpcCore.dfy`, `Compose.dfy` | the RPC call engine and the combinators over asynchronous calls |
| `Sessions.dfy`, `GateSpec.dfy`, `Gate.dfy` | player sessions, the gate as a step system, and the objects that refine it |
| `Codec.dfy`, `Conn.dfy` | the wire format, the batching writer and the framing reader |
| `LogFiles.dfy`, `LogSpec.dfy`, `RotatingLog.dfy` | log files and their renaming, what a run leaves behind as a function of its events, and the rotating log writer that refines it |
| `RateLimiter.dfy` | the ring-of-times rate limiter |
| `ConfigReload.dfy` | the generated reload checks and the configuration cell |
| `Basics.dfy` | types shared by the other files |

## How it is modelled

- **Locks and goroutines.** A section under a mutex is one atomic step. Where several
  goroutines matter (RPC engine, combinators, gate, connection writer) the steps are events
  and the theorems quantify over every sequence of events.
- **Session numbers.** A connect takes its number and files its session in one step; the
  original takes the number just before the lock, so two acceptors could file two sessions in
  the other order.
- **Clocks, transports, map iteration order and random choices of `select`** are inputs.
  Loops over Go maps pick elements in an arbitrary order; a bucket that is drained or cascaded
  is read through a snapshot.
- **Callbacks** are identified by numbers; `Advance` returns the ids it fires, a completed
  call is an entry of a trace.
- **Integers.** Tick values are natural numbers with the saturating 64-bit granularities of
  the wheel written out; operations assume only that no tick value reaches 2^64 - 1. The
  int64 overflow of `durationToTicks` is modelled. Sequence and id counters do not wrap. The
  lemmas of `TimerSpec` speak of the flat timers, which the wheel refines in every run whose
  tick values fit.

## Where the code does less than one might expect

- `durationToTicks` rounds up exactly when `d + tick - 1` fits in int64
  (`TimerSpec.TicksAreCeilingIffNoOverflow`). Past that a one-shot timer can fire early:
  `TimerSpec.OneShotNeverEarlyIff` says for which arguments, as long as the deadline fits in
  64 bits, which a huge overflowed count soon does not. A periodic timer can lose
  its period and fire only once (`TimerSpec.PeriodicFiresExactly`,
  `TimerSpec.PeriodIsCeilingIff`); `TimerSpec.OverflowExamples` has inputs for both.
- A connect on an address that a bound session still occupies leaves a stale player-id entry,
  and that is the only way to get one (`Sessions.SessionManager.OnConnect`,
  `Sessions.StaleUIDExample`).
- `OnDisconnect` removes whatever session the address has now, so a late disconnect drops the
  session of a newer connection (`Sessions.SessionManager.OnDisconnect` says exactly when,
  `Sessions.LateDisconnectExample`). The gate then sends nothing to a live client
  (`GateSpec.LiveClientUnanswered`); a completed request is answered exactly when its address
  saw no connect or disconnect since its session was filed (`GateSpec.AnsweredIffUndisturbed`).
- A receive loop looks its session up by address after the connect. If the address was
  connected again or disconnected in between, its requests are answered on another connection
  or not at all (`GateSpec.LoopServesItsConnectionIff`, `GateSpec.AnsweredWhereAskedIff`, and
  the run `GateSpec.AnsweredElsewhere`).
- Archive probing stops at 10000: a rotation keeps every write exactly when archive 10001 does
  not exist or is empty (`LogFiles.RotationKeepsWritesIff`); `RotatingLog.OldestWriteLost`
  is a run that loses a write. Only the oldest writes of an hour are ever lost
  (`RotatingLog.Run`).
- A write that goes back to an earlier hour is not checked against the size limit
  (`RotatingLog.RotatingWriter.Write` says exactly when that matters,
  `RotatingLog.ReopenedFileOverflows` is a run in which it does).
- A marked field is documented as free to change (docs/配置系统.md:74, 267), but a `reload` mark
  on a nested message field has no effect: the leaves below it stay frozen
  (`ConfigReload.MarkIgnoredExample`). Marks are honoured exactly when no marked nested field
  that can be met from the root leads to a frozen leaf (`ConfigReload.MarksHonouredIff`).
- A nested field whose message is not in the schema is never compared: the generated checks
  are complete exactly when no such field can be met from the root
  (`ConfigReload.CompleteIffClosed`).

## Model

| member | source | states |
|---|---|---|
| `TimeWheels.Run` | pkg/timewheel/timewheel.go:65-272 | any run of AfterFunc/Tick/Stop/Advance on a fresh wheel, for any slot and level counts: the wheel equals the flat deadline map after every operation, and each Advance fires exactly the timers due at the tick it reaches, each once |
| `TimeWheels.TimeWheel.Advance` | pkg/timewheel/timewheel.go:145-165 | one tick is one tick of the flat map; fired timers are exactly the due ones, without repetition; all invariants kept |
| `TimeWheels.AdvanceRefines` | pkg/timewheel/timewheel.go:145-272 | the top-down pass and the drain together fire the due timers, keep every other deadline, and leave every task where it will be found in time |
| `TimeWheels.DrainIsFlat` | pkg/timewheel/timewheel.go:157-159 | after the pass the expired tasks of one level-0 bucket are all due timers of the whole wheel |
| `TimeWheels.TimeWheel.constructor` | pkg/timewheel/timewheel.go:65-98 | defaults for non-positive arguments, saturating granularities, an empty valid wheel |
| `TimeWheels.TimeWheel.AfterFunc` | pkg/timewheel/timewheel.go:101-129 | adds one flat timer under a new id |
| `TimeWheels.TimeWheel.Tick` | pkg/timewheel/timewheel.go:104-129 | adds one periodic flat timer under a new id; non-positive periods fall back to the tick |
| `TimeWheels.TimeWheel.Stop` | pkg/timewheel/timewheel.go:132-142 | removes exactly the named timer; nil and dead handles change nothing |
| `TimeWheels.TimeWheel.Len` | pkg/timewheel/timewheel.go:187-192 | the number of live flat timers |
| `TimeWheels.TimeWheel.PickLevel` | pkg/timewheel/timewheel.go:201-212 | the loop finds the highest level whose granularity is within the delay |
| `TimeWheels.TimeWheel.InsertLocked` | pkg/timewheel/timewheel.go:214-231 | files a task in the one bucket covering its deadline, keeping buckets and task map in agreement |
| `TimeWheels.TimeWheel.CascadeLocked` | pkg/timewheel/timewheel.go:233-249 | re-places exactly the tasks of the current bucket, whatever the iteration order |
| `TimeWheels.TimeWheel.CascadeLevels` | pkg/timewheel/timewheel.go:150-155 | the pass over levels from the top down |
| `TimeWheels.TimeWheel.DrainReadyLocked` | pkg/timewheel/timewheel.go:251-272 | fires each expired task once, restarts periodic ones, puts others back |
| `WheelIndex.OneBucketPerTask` | pkg/timewheel/timewheel.go:227-230 | a live task is in exactly one bucket, the one its level and slot name, and buckets hold nothing else |
| `WheelIndex.PutKeepsIndex` | pkg/timewheel/timewheel.go:227-230 | filing a task keeps the task map the disjoint union of the buckets |
| `WheelPlacement.PlaceAhead` | pkg/timewheel/timewheel.go:214-231 | a task that is not due is stored ahead of its level's hand, less than a revolution away below the top level, at a level that is not clamped |
| `WheelPlacement.NextVisitIsDeadlineGranule` | pkg/timewheel/timewheel.go:197-224 | at a non-top level now/g < expire/g <= now/g + slots |
| `WheelPlacement.BoundaryBucket` | pkg/timewheel/timewheel.go:150-155 | on a level's boundary the current bucket holds every task of that granule, and only the top level holds tasks whole revolutions away |
| `WheelPlacement.CascadeLandsClear` | pkg/timewheel/timewheel.go:233-249 | a cascaded task never lands in a bucket the same pass has yet to visit |
| `WheelPlacement.AtMostOneMovePerTick` | pkg/timewheel/timewheel.go:150-155 | one pass moves each task at most once |
| `WheelPlacement.CascadeKeepsPlaced` | pkg/timewheel/timewheel.go:233-249 | visiting a level on its boundary brings all its tasks ahead of the hand |
| `WheelPlacement.DrainedBucketIsDue` | pkg/timewheel/timewheel.go:157-159 | with two or more levels everything in the drained bucket is due |
| `WheelPlacement.StoredLevelsAreExact` | pkg/timewheel/timewheel.go:84-88 | up to the level of any stored task granularities are exact powers of the slot count |
| `WheelMath.GranularityIsClampedPower` | pkg/timewheel/timewheel.go:84-88 | granularity i is slots^i, or 2^64 - 1 when that does not fit |
| `WheelMath.MulClampIsSaturatingProduct` | pkg/timewheel/timewheel.go:281-289 | the overflow guard is exact |
| `TimerSpec.PeriodicFiresExactly` | pkg/timewheel/timewheel.go:104-128 | in every run an unstopped periodic timer fires at exactly the ticks n + k * period; when the period overflows to zero ticks it fires once, at the next tick, and exactly which durations do that |
| `TimerSpec.PeriodIsCeilingIff` | pkg/timewheel/timewheel.go:104-128 | it keeps to n + k * ceil(d/tick) in every run exactly when d + tick - 1 fits in int64 |
| `TimerSpec.OverflowExamples` | pkg/timewheel/timewheel.go:104-128 | inputs on which a one-shot fires early and a periodic timer fires only once |
| `TimerSpec.OneShotFiresOnce` | pkg/timewheel/timewheel.go:101-129 | a one-shot timer fires at exactly one tick, its delay after creation |
| `TimerSpec.OneShotFiresAtCeiling` | pkg/timewheel/timewheel.go:100-129 | in numbers: a one-shot fires at the next tick for d <= 0, and at n + ceil(d/tick) for d > 0 while the int64 sum fits |
| `TimerSpec.TickOfNothingFiresAlways` | pkg/timewheel/timewheel.go:104-109 | a period that is not positive fires at every tick |
| `TimerSpec.PeriodicFiresAtCeilings` | pkg/timewheel/timewheel.go:104-128 | a positive period fires at exactly the multiples of ceil(d/tick) |
| `TimerSpec.StopIsFinalAndLocal` | pkg/timewheel/timewheel.go:132-142 | no firing after a stop, and no other timer changed |
| `TimerSpec.TicksAreCeilingIffNoOverflow` | pkg/timewheel/timewheel.go:274-279 | the tick count is the duration rounded up exactly when the int64 sum does not overflow |
| `TimerSpec.OneShotNeverEarlyIff` | pkg/timewheel/timewheel.go:111-128 | for a deadline that fits: no run fires a one-shot before its duration, exactly unless its tick count overflows to one tick, and exactly which arguments do that |
| `TimerSpec.OverflowingDurationExample` | pkg/timewheel/timewheel.go:274-279 | a concrete duration that overflows to a far too long delay |
| `ComponentOrder.ResolveServices` | third_projects/ProjectBid/application/build.go:441-505 | first unknown reference reported; else cycle reported exactly when the constraint graph has one; else a permutation obeying every before/after constraint, in the order in which services become ready, lexicographic where they become ready together |
| `ComponentOrder.ResolveModules` | third_projects/ProjectBid/application/build.go:509-571 | the same for dependsOn |
| `ComponentOrder.ModuleConstraintsMeaning` | third_projects/ProjectBid/application/build.go:537-542 | the module graph has an edge exactly from each dependency to its module |
| `ComponentOrder.FairEmission` | third_projects/ProjectBid/application/build.go:483-498 | emitting the head keeps the line in the order of becoming ready, ties by name |
| `ComponentOrder.Drain` | third_projects/ProjectBid/application/build.go:475-498 | the queue loop ends, its output obeys every edge, and it is complete exactly when there is no cycle, with duplicate and self edges |
| `ComponentOrder.EmitAll` | third_projects/ProjectBid/application/build.go:483-498 | emitted and queued nodes are exactly those with no unemitted predecessor; first come, first served |
| `ComponentOrder.Release` | third_projects/ProjectBid/application/build.go:489-496 | decrementing along duplicate edges frees exactly the nodes that waited for nothing else |
| `ComponentOrder.StuckMeansCyclic` | third_projects/ProjectBid/application/build.go:500-502 | an empty queue before all nodes are emitted means a cycle |
| `ComponentOrder.ConstraintsMeaning` | third_projects/ProjectBid/application/build.go:454-473 | the built graph has an edge exactly where a before or after constraint was declared |
| `ComponentOrder.FirstUnknownMeaning` | third_projects/ProjectBid/application/build.go:459-472 | no unknown reference is reported exactly when every target is declared |
| `ComponentOrder.FirstUnknownIsFirst` | third_projects/ProjectBid/application/build.go:454-473 | the reported reference is the first unknown one in declaration order, before ahead of after |
| `ComponentOrder.AddEdge` | third_projects/ProjectBid/application/build.go:463-471 | adjacency lists and degrees count every edge with multiplicity |
| `ComponentOrder.ValidateNames` | third_projects/ProjectBid/application/build.go:420-437 | accepts exactly distinct names, else reports the first repeated one |
| `Digraph.BackwardsWalkCloses` | third_projects/ProjectBid/application/build.go:500-502 | a finite set in which every node has a predecessor contains a cycle |
| `Digraph.OrderRefutesCycle` | third_projects/ProjectBid/application/build.go:500-504 | a respected complete order excludes every cycle |
| `Strings.SortStrings` | third_projects/ProjectBid/application/build.go:481-495 | the elements of the list in lexicographic order, independent of input order |
| `Strings.StrLeMeaning` | third_projects/ProjectBid/application/build.go:481-495 | the order compares the first characters that differ, and puts a prefix first |
| `RpcCore.ExactlyOnce` | internal/core/rpc/core.go:76-168 | in every interleaving a call completes at most once, and exactly once when it is no longer pending, claimed or posted |
| `RpcCore.CompletionReports` | internal/core/rpc/core.go:107-201 | in every interleaving a completion reports an event that met its call pending: a response with exactly its payload and code, a failed send with the transport's code or 1, or a scan past the deadline with code 2 |
| `RpcCore.RunInPostingOrder` | internal/core/rpc/core.go:211-217 | with a poster, callbacks run in the order in which they were posted |
| `RpcCore.RunKeepsInv` | internal/core/rpc/core.go:76-217 | in every interleaving each call issued is in exactly one place: pending, claimed, posted or completed |
| `RpcCore.LeavesPendingWhenClaimed` | internal/core/rpc/core.go:107-168 | a call leaves pending exactly in the step that claims its one completion |
| `RpcCore.ReleasedOnce` | internal/core/rpc/core.go:146-168 | in every interleaving each release action runs at most once, exactly once when nothing holds it, and never before its callback |
| `RpcCore.UnknownReleasedAtOnce` | internal/core/rpc/core.go:153-158 | in any reachable state the release action of a response to an unknown number runs at once, for the only time |
| `RpcCore.LateResponseIsInert` | internal/core/rpc/core.go:146-158 | a response to a number that is not pending changes nothing any call ever sees: the rest of every run goes as if it had not come |
| `RpcCore.DuplicateResponseIsInert` | internal/core/rpc/core.go:146-158 | after the first response to a call, later ones are absorbed, whatever happens in between |
| `RpcCore.ScanIsExact` | internal/core/rpc/core.go:184-194 | after a scan no pending call has a deadline before it, and every call without a deadline or with a later one is untouched |
| `RpcCore.Core.Register` | internal/core/rpc/core.go:76-96 | takes the next number and registers the deadline the context, default and target give |
| `RpcCore.DeadlineMeaning` | internal/core/rpc/core.go:82-93 | the deadline is now plus the smaller of the remaining or default time and a positive override; none without a positive base |
| `RpcCore.Core.Claim` | internal/core/rpc/core.go:107-116 | whoever finds the call pending removes it; everyone else finds nothing |
| `RpcCore.Core.ScanExpired` | internal/core/rpc/core.go:184-194 | removes and lists exactly the expired calls, each once |
| `Gate.Run` | internal/server/gate/module.go:143-211 | any interleaving of connects, disconnects, bindings, requests, transport events and callbacks sends exactly the responses of the step system: at most one per request, each on the connection of the session that asked |
| `GateSpec.OneResponsePerRequest` | internal/server/gate/module.go:181-204 | in every run at most one response per request, on the asking session's connection, decoding to the request's number and the completion's code and payload |
| `GateSpec.AnsweredIffUndisturbed` | internal/server/gate/module.go:194-204 | a completed request is answered, with exactly that packet, if and only if its session has a connection, its address saw no connect or disconnect since the session was filed, and the response can be encoded |
| `GateSpec.FiledUntilDisturbed` | internal/core/session/session.go:51-82 | a session stays filed exactly until the next connect or disconnect on its address, from any connection |
| `GateSpec.LoopServesItsConnectionIff` | internal/server/gate/module.go:143-153 | a receive loop serves its own connection's session exactly when the address was left alone between connect and lookup |
| `GateSpec.AnsweredWhereAskedIff` | internal/server/gate/module.go:148-204 | a response goes to the connection its request arrived on exactly when that connection's session was the one found at loop start |
| `GateSpec.LiveClientUnanswered` | internal/server/gate/module.go:148-204 | a run in which a late disconnect silences a live client |
| `GateSpec.AnsweredElsewhere` | internal/server/gate/module.go:143-204 | a run in which a request is answered on a connection it did not arrive on |
| `Gate.Gate.Respond` | internal/server/gate/module.go:194-204 | by comparing ids it sends exactly if the asking session itself is still the one at its address, has a connection, and the message can be encoded |
| `Gate.Gate.Forward` | internal/server/gate/module.go:181-211 | a request registers one pending call with its deadline, bound to its session, connection and sequence number; other messages register none |
| `Gate.Gate.RunPosted` | internal/server/gate/module.go:194-204 | running a posted callback sends exactly the packet its request is owed, or nothing |
| `Gate.SameIdSameSession` | internal/server/gate/module.go:195-198 | under one address, a connected session has the captured id exactly when it is the captured session, even if addresses are reused |
| `GateSpec.ResponseCarriesSeqId` | internal/server/gate/module.go:199-203 | the bytes decode to a response with the request's sequence number, the route's response command, and the completion's code and payload; encodable exactly up to the packet limit |
| `GateSpec.ResponseEndToEnd` | internal/server/gate/module.go:181-204 | every response of every run carries the sequence number of the message that was forwarded, and the code and payload of the engine step that completed its call |
| `GateSpec.AskIsForwarded` | internal/server/gate/module.go:181-194 | every registered request was forwarded by a message of type request from a receive loop, with its sequence number and response command |
| `GateSpec.ForwardMeaning` | internal/server/gate/module.go:181-211 | exactly which messages register a call, and what they register |
| `Sessions.SessionIdInjective` | internal/core/session/session.go:51-59 | session ids never collide |
| `Sessions.SessionManager.OnConnect` | internal/core/session/session.go:51-65 | files a new session; indexes agree; a stale player-id entry arises exactly when a bound session held the address |
| `Sessions.SessionManager.OnDisconnect` | internal/core/session/session.go:68-82 | removes the address's session and its player id, and exactly when that is another connection's session; indexes agree |
| `Sessions.SessionManager.BindSession` | internal/core/session/session.go:88-117 | binds the id, de-authenticates exactly the previous holder, changes no other session; indexes agree |
| `Sessions.SessionManager.SetBound` | internal/core/session/session.go:120-126 | changes one node binding of the id's session and nothing else |
| `Sessions.Run` | internal/core/session/session.go:51-126 | after every sequence of operations the indexes agree, and the sessions, the session of each address and the holder of each player id are those the operations give; if every connect comes on a free address, every player-id entry is a connected session |
| `Sessions.HeldUntilReleased` | internal/core/session/session.go:88-117 | a bind gives the player id to its address's session, which holds it until the first operation that binds it to another session, binds the session to another id, or disconnects it |
| `Sessions.StaleUIDExample` | internal/core/session/session.go:51-65 | a run that leaves a stale player-id entry |
| `Sessions.LateDisconnectExample` | internal/core/session/session.go:68-82 | a run in which a disconnect drops another connection's session |
| `Compose.RunJoin` | internal/core/rpc/compose.go:6-120 | in every interleaving of branch callbacks done is called exactly once, when all have finished: with value i from branch i, or the error of the lowest-numbered failing branch |
| `Compose.Join.Finish` | internal/core/rpc/compose.go:17-30 | only the callback that brings the counter to zero calls done |
| `Compose.LeftmostMeaning` | internal/core/rpc/compose.go:17-30 | the reported error is that of the lowest-numbered failing branch |
| `Compose.RunEach` | internal/core/rpc/compose.go:123-156 | in every interleaving done is called exactly once, when all have finished, with result i from item i and the error of the failing item that queued it first |
| `Compose.EachReportsFailure` | internal/core/rpc/compose.go:136-153 | success is reported exactly when no item failed |
| `Compose.QueuedErrorsFit` | internal/core/rpc/compose.go:131-142 | the errors queued never exceed the channel's capacity, so none is dropped |
| `Compose.SequenceRunsInOrder` | internal/core/rpc/compose.go:177-194 | for any stream of replies: steps start in order up to the first failing one and none after it, and done is called exactly once, last, with that error or nil |
| `Codec.DecodeAfterEncode` | internal/core/codec/message.go:34-147 | decoding an encoded message gives it back with untransmitted fields zeroed |
| `Codec.EncodeAfterDecode` | internal/core/codec/message.go:34-147 | whatever decodes encodes back to the same bytes |
| `Codec.PacketDecodesIffEncoded` | internal/core/codec/packet.go:27-65 | bytes decode to a packet exactly when they are its encoding |
| `Codec.MessageOnTheWire` | internal/core/codec/message.go:34-63 | the bytes of each message type, big-endian, field by field |
| `Codec.PacketOnTheWire` | internal/core/codec/packet.go:27-53 | type byte, three length bytes, body; at most 16777215 bytes |
| `Codec.DataPacketOnTheWire` | internal/core/codec/message.go:65-77 | a data packet starts with 4 and the length of the encoded message |
| `Codec.AppendMessage` | internal/core/codec/message.go:34-63 | prefix followed by the encoding whatever the capacity; the rest of a reused array untouched; unknown types fail and write nothing |
| `Codec.AppendPacket` | internal/core/codec/packet.go:32-53 | the same for packets; oversized bodies fail and write nothing |
| `Codec.Grow` | internal/core/codec/message.go:92-105 | the same array when it has room, otherwise a copy at least twice as large |
| `Codec.EncodeDataMessagePacket` | internal/core/codec/message.go:65-77 | equals encoding the message and then a data packet around it, with the same failures |
| `Codec.EncodedMessageLen` | internal/core/codec/message.go:79-90 | the length of the encoding, or its error |
| `Conn.Run` | internal/core/conn/conn.go:71-174 | any run of senders, writer and closers, any batching, drops and breaks: one verdict per step, and a reader of any prefix of the wire has exactly the accepted packets complete in it, in order; all of them once the writer has caught up |
| `Conn.NoPacketLost` | internal/core/conn/conn.go:119-148 | accepted packets are exactly those written, batched and queued, in the order of the sends |
| `Conn.WireIsPrefix` | internal/core/conn/conn.go:141-146 | the wire is a prefix of the accepted frames, and all of them once queue and batch are empty |
| `Conn.SendMeaning` | internal/core/conn/conn.go:71-79 | a send is queued exactly while fewer than 256 frames wait and the closing is not picked |
| `Conn.TakenIsWritten` | internal/core/conn/conn.go:119-146 | takes move the first packets, up to 16, into the batch, which is then written whole |
| `Conn.WriterCatchesUp` | internal/core/conn/conn.go:119-148 | a running writer can always write out the whole queue, in order |
| `Conn.ReaderRecovers` | internal/core/conn/conn.go:150-174 | from any prefix of the stream exactly the complete frames are recovered |
| `Conn.ParseLosesNothing` | internal/core/conn/conn.go:150-174 | for any bytes, the frames read and the rest are the bytes |
| `Conn.ReadLoop` | internal/core/conn/conn.go:150-174 | the header-and-body loop computes the framing |
| `Conn.TcpConn.Send` | internal/core/conn/conn.go:71-79 | a frame is queued whole or dropped whole: dropped exactly when the queue is full, or the connection is closed and the select picks that |
| `Conn.TcpConn.Take` | internal/core/conn/conn.go:119-140 | frames join the batch in queue order, at most 16 |
| `Conn.TcpConn.Flush` | internal/core/conn/conn.go:141-146 | a batch is written when full or the queue is empty; a failing write leaves a prefix and closes |
| `Conn.TcpConn.Close` | internal/core/conn/conn.go:90-97 | closes the done channel; what is queued, batched or written stays |
| `RotatingLog.Run` | pkg/logger/rotate.go:55-166 | any run of writes and rotations under any clock: for each hour the archives, numbered without a gap, and the current file are those the events give; they hold the end of its bytes in order, all of them exactly unless a rotation overwrote a non-empty archive, which takes more than 10000; if no hour comes back, files respect the limit or hold one oversized write |
| `LogSpec.WritesAccounted` | pkg/logger/rotate.go:55-143 | in every run what was written in an hour is what was overwritten followed by what its files hold |
| `LogSpec.HeldUnlessOverwritten` | pkg/logger/rotate.go:123-143 | all bytes are held exactly unless some rotation overwrote a non-empty archive 10001 |
| `LogSpec.ArchivingRotates` | pkg/logger/rotate.go:105-143 | archiving and reopening turns a shelf of files into the rotated shelf and touches no other hour |
| `LogSpec.ShelvedBytes` | pkg/logger/rotate.go:123-143 | archives from highest to lowest and then the current file are the bytes of the shelf |
| `LogFiles.LogBytesAreWrites` | pkg/logger/rotate.go:55-67 | the concatenated files are the concatenated writes |
| `RotatingLog.RotatingWriter.Write` | pkg/logger/rotate.go:55-67 | in numbers: within its hour a write that keeps the file within the limit is appended, one that would pass it starts a new file and the old one becomes the newest of at most 10001 archives; other hours untouched; sizes respected exactly unless an overfull file of an earlier hour is reopened |
| `RotatingLog.RotatingWriter.RotateLocked` | pkg/logger/rotate.go:105-120 | rotates the shelf of the hour in use or opens another hour's file, and touches no other hour |
| `RotatingLog.RotatingWriter.ShiftAndArchiveLocked` | pkg/logger/rotate.go:123-143 | probing and renaming from the top shift every archive by one |
| `RotatingLog.RotatingWriter.ProbeMaxSeq` | pkg/logger/rotate.go:125-134 | counts the archives up to 10000 |
| `LogFiles.RotationKeepsWritesIff` | pkg/logger/rotate.go:123-143 | a rotation keeps every write exactly when archive 10001 is missing or empty, and otherwise loses exactly that file |
| `RotatingLog.FillArchives` | pkg/logger/rotate.go:89-143 | a run that reaches 10001 archives with a write in the last |
| `RotatingLog.OldestWriteLost` | pkg/logger/rotate.go:89-143 | the directory that holds the write, and the one after one more rotation, which does not |
| `LogFiles.RenameDownShifts` | pkg/logger/rotate.go:136-139 | renaming from high to low overwrites no archive that is still to move |
| `LogFiles.NamesDistinct` | pkg/logger/rotate.go:183-196 | archive names never collide |
| `LogFiles.NameExamples` | pkg/logger/rotate.go:182-197 | the form of file names |
| `RotatingLog.ReopenedFileOverflows` | pkg/logger/rotate.go:55-103 | a run of three writes that ends with a file over the limit |
| `RateLimiter.Limiter.ShouldRateLimit` | third_projects/pitaya/acceptorwrapper/rate_limiter.go:97-111 | rejects exactly when the message accepted limit places ago is less than an interval old |
| `RateLimiter.Run` | third_projects/pitaya/acceptorwrapper/rate_limiter.go:97-111 | one verdict per message, decided by the messages let through before it; those limit places apart are an interval apart |
| `RateLimiter.RejectedIffAllRecent` | third_projects/pitaya/acceptorwrapper/rate_limiter.go:97-111 | on a clock that does not go back a message is rejected exactly when the last limit accepted messages are all less than an interval old |
| `ConfigReload.GenerateCheck` | tools/configgen/main.go:425-452 | if no message met from the root contains itself, the generated checks pass exactly when two configurations agree on every leaf not marked reload; they are complete exactly when the schema is closed below the root, and honour marks on nested fields exactly when none is ignored |
| `ConfigReload.WriteReloadChecks` | tools/configgen/main.go:425-452 | the recursion ends and emits exactly the paths of frozen leaves |
| `ConfigReload.FieldMeaning` | tools/configgen/main.go:433-442 | which paths a field contributes: an unmarked scalar or repeated field exactly itself, a marked one none, a single message those of its message |
| `ConfigReload.MeasureIffAcyclic` | tools/configgen/main.go:433-437 | the recursion from a root has a measure exactly when no message it meets contains itself |
| `ConfigReload.ClosedMeansComplete` | tools/configgen/main.go:433-439 | in a schema closed below a message no leaf of it is left out |
| `ConfigReload.CompleteIffClosed` | tools/configgen/main.go:433-439 | no unmarked leaf is left out exactly when every nested field met from the root has its message in the schema |
| `ConfigReload.MarksHonouredIff` | tools/configgen/main.go:433-442 | the frozen leaves are those with no marked field on the way exactly when no marked nested field met from the root leads to a frozen leaf |
| `ConfigReload.MarkIgnoredExample` | tools/configgen/main.go:433-442 | a schema in which a change below a marked nested field is rejected |
| `ConfigReload.MessageMap` | tools/configgen/main.go:464-470 | of several messages with one name the last counts |
| `ConfigReload.ConfigEntry.Reload` | internal/core/config/entry.go:34-50 | replaces the data exactly if loading and the check succeed |
| `ConfigReload.RunReloads` | internal/core/config/entry.go:18-50 | in any series of loads a reload takes effect exactly when it agrees with the first-loaded configuration on every frozen leaf, and the entry holds the last that did |

## Left out

- Sockets, TLS, WebSocket, HTTP, etcd, NATS, gRPC, MongoDB and zap: a connection is a byte sequence, the poster a queue.
- Goroutine start and stop, tickers, `Start`/`Close` of the wheel and completion of calls after `Core.Close`.
- Task records of the wheel as shared heap objects: buckets and task map hold equal values, and that they agree is an invariant.
- Wrap-around of 64-bit sequence numbers and timer ids, and of tick values at 2^64 - 1.
- `Call` with a nil callback, spans and the request header: they do not touch `pending`.
- Routing of forwarded requests by bound node, authentication middleware and the local dispatcher of the gate.
- Log cleanup by modification time, the symbolic link to the current log file, and failing file-system calls.
- Directories that are not empty when the log writer starts.
- A rate limiter with a limit below one, on which the original panics, and the saturation of time differences.
- The receive channel between the framing reader and its consumer, which only hands packets on in order.
- Steps of a `Sequence` and branches of a join that call back more than once: the original relies on one reply each.
- Floating-point leaves that are NaN: comparison of leaves is equality.
- Text produced by the code generator, field validation and schema parsing.
- The lobby, online, match and room servers, the router agent and the other third-party projects.
