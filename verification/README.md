# Verified model of the sandbox protocols

The sandbox runs UNIX programs on Wasmer and connects them to Python. Around the engine it has a
handful of protocols of its own, and this project models those in Dafny and proves what they
guarantee: over all inputs, all runs and all interleavings, and, where a promise does not hold for
everything, under which exact condition it does.

| file | what it models |
|---|---|
| `Wire.dfy`, `GuestPayload.dfy` | the request a launcher sends, the host's `BinaryCursor` and its parser |
| `Launcher.dfy` | the WebAssembly launcher as a program over a 16 MiB byte array: string tables, `$strlen`, `$write_record`, the serialisation loops, the reply |
| `Response.dfy` | the reply: Rust encoder, Python encoder, Rust decoder |
| `LossyQueue.dfy` | the overflow discipline shared by the event bus and the handler queues |
| `EventBus.dfy` | the native bus, one emit at a time: the object and its serialised runs |
| `EventBusSteps.dfy` | the same bus as atomic steps of any number of interleaved threads |
| `Subscription.dfy` | a Python handler's filter and queue, and the losses across both queues |
| `Pipeline.dfy` | emitting threads, bus, dispatcher and one handler together, registered at any point |
| `Dispatcher.dfy` | the dispatcher task, its generation number and the enable flag |
| `Bridge.dfy` | blocked requesters, channel, pending map, response slots, cancellation flags |
| `Supervisor.dfy` | the race that answers one virtual executable request |
| `Invocation.dfy` | bridge and supervisors together: what the blocked call returns |
| `Stdin.dfy`, `Capture.dfy` | interactive stdin and bounded output capture |
| `Paths.dfy` | path normalisation on strings in Rust and Python, command paths, prefix filters |
| `Catalog.dfy` | collision-checked command registration |
| `Directories.dfy` | parent creation and `write_file` with their events |

Objects that the source updates in place are classes, proved against functions on values; the
theorems about whole runs are lemmas about those functions. Code whose steps interleave with other
threads or tasks is a step function, and a run is any sequence of steps. UTF-8 validity is a
parameter `utf8: seq<byte> -> bool`, so every result holds for whatever that predicate is. Base64
and JSON are injective and are left transparent. Clocks, deadlines and outside cancellation are
inputs or nondeterministic steps.

Where the code falls short of what its documentation suggests, the code is what is modelled:

- The launcher's path data segment runs into the argv pointer table when the path is longer than
  896 bytes (with no arguments: into the environment pointer table, if there is one); the path then
  arrives with a NUL in it, and in no other case (`Launcher.Start`, `Launcher.Launch`).
- A reply longer than 8 MiB is cut by the launcher's single read (`Launcher.DeliveredIff`).
- Disabling event notifications throws the pending drop count away. Sequence gaps stay exact iff no
  disabling step found a count (`EventBus.GapsExactIff`), and a receiver meets an inexact gap iff
  something was accepted after such a step (`EventBus.LogGapsExactIff`).
- With an event queue of size one the first loss is final (`LossyQueue.CapacityOneStarves`).
- A native drop notice is filtered like any event, so most filtered handlers never see it
  (`Subscription.NativeNoticeSeenIff`), and if a handler's own queue has no room for it, it counts as
  a single loss; that is the only way the counts go wrong (`Subscription.HandlerCountsExactIff`,
  `Pipeline.EndToEndCountsIff`).
- A dispatcher task cancelled by anything but the sandbox leaves the remaining handlers without
  events or without a dispatcher once the cancellation is delivered, if it is still the stored task
  then and someone listens (`Dispatcher.ListeningChangesIff`).
- Asking a full capture buffer whether it can take more marks it as exceeded although nothing was
  lost (`Capture.CaptureIsPrefix`).
- The stdin waker slot serves one reader; a second one takes it over
  (`Stdin.SecondReaderStealsWaker`), which decides exactly who stays asleep (`Stdin.AsleepIff`).
- A handler result that does not fit the reply header is not answered if the supervisor gets to it
  before any cancellation; if the native side or the task is cancelled first, the cancellation reply
  is sent (`Supervisor.AnswerIs`).
- A command path is checked for NUL bytes only after `..` components were removed, and entries of
  PATH are not checked before that (`Paths.CommandIsNormalizeIff`; `Paths.NulCanVanish` is an input).
- Command names declared by packages are not validated. An absolute one is registered at that path
  alone, so that only there `/bin` and `/usr/bin` can differ (`Catalog.DirectoriesAgree`).

## Model

| member | source | states |
|---|---|---|
| GuestPayload.EnvMapIs | src/core.rs:3000-3007 | on the bytes themselves: key k has value v iff the last item that starts with `k=` (k without `=`) goes on with v; items without `=` leave no trace |
| GuestPayload.CwdIs | src/core.rs:3007-3015 | on the bytes themselves: the working directory is the value of the last item that starts with `PWD=`, or `/` if there is none |
| GuestPayload.ParseInvertsEncode | src/core.rs:2986-3016 | parsing any request encoding followed by any suffix gives back path, argv, environment map, cwd from PWD or `/`, and stdin, and stops exactly at the end of the encoding |
| GuestPayload.ParsesOnlyEncodings | src/core.rs:2986-3016 | whenever the parser accepts, the bytes it consumed are the encoding of a request with valid UTF-8 and its result is that request's payload |
| GuestPayload.RequestLayout | src/core.rs:125-164 | a request byte by byte: `UXV1`, path length and path, the three counts as words, the records, stdin |
| GuestPayload.RecordsLayout | src/core.rs:98-104 | each record is its length word followed by its bytes, right behind the records before it |
| Wire.LittleEndian | src/core.rs:891-894 | words are read and written as the little-endian sum of their four bytes |
| GuestPayload.ReadPayloadExtends | src/core.rs:877-913 | a parse that succeeds gives the same value and stops at the same place when more bytes follow, for arbitrary input bytes |
| GuestPayload.StrictPrefixRejected | src/core.rs:2986-3016 | every strict prefix of a request encoding is rejected |
| GuestPayload.BinaryCursor.TakeBytes | src/core.rs:901-912 | returns exactly the next bytes and advances past them, or reports truncation and stays; the cursor never passes the end |
| GuestPayload.BinaryCursor.TakeString | src/core.rs:895-899 | reads one length-prefixed string, with the truncation and UTF-8 errors |
| GuestPayload.BinaryCursor.TakeStrings | src/core.rs:2994-2997 | the argv loop reads exactly that many strings or returns the first error |
| GuestPayload.BinaryCursor.TakeEnv | src/core.rs:2999-3006 | the env loop that splits and inserts item by item builds the last-definition map of all items |
| GuestPayload.ParseGuestPayload | src/core.rs:2986-3016 | the cursor-based parser computes the specified parse for any bytes and never leaves the data |
| Launcher.WriteBufferArray | vendor/wasmer-wasix/src/syscalls/mod.rs:825-852 | leaves a pointer table and NUL-terminated strings for every item and touches nothing outside the two tables, the gap between them included |
| Launcher.Strlen | src/core.rs:88-96 | finds the first NUL at or after the pointer |
| Launcher.WriteRecord | src/core.rs:98-104 | writes length and bytes of a NUL-terminated string at the cursor, nothing else, without wrap-around |
| Launcher.WriteRecords | src/core.rs:139-161 | each serialisation loop leaves the concatenated records of the whole table and writes only at and after its start |
| Launcher.SendRequest | src/core.rs:125-164 | the bytes in the request buffer equal the pure encoding of what the tables hold; no source region is written; the end is bounded |
| Launcher.Start | src/core.rs:106-182 | the path on the wire is the registered path iff it ends before the first table that is not empty (896 bytes with arguments), and up to 896 bytes the request ends before the response buffer |
| Launcher.Launch | src/core.rs:106-182 | launcher memory program followed by the host parser returns exactly path, argv, last-definition environment and cwd iff the path ends before the first table that is not empty |
| Launcher.Finish | src/core.rs:184-206 | the launcher's loads, pointer arithmetic and writes on a received reply compute its view of the reply |
| Launcher.DeliveredIff | src/core.rs:190-206 | for any i32 code and streams of any length, what the launcher writes and exits with equals the reply iff the encoded reply fits the 8 MiB read or everything it cut off is zero and inside memory |
| Launcher.RunExecutable | src/core.rs:106-206 | one whole virtual process on one memory: the host gets exactly the request the process was started with iff the path ends before the first table that is not empty, and the process shows the host's answer to what it got iff the encoded answer is deliverable |
| Response.EncodersAgreeIff | python/unix_sandbox/_api.py:1863-1872 | for an i32 return code the Python encoder gives the Rust encoder's bytes iff both stream lengths are below 2^32 |
| Response.DecodeInvertsIff | src/core.rs:2952-2984 | the decoder returns the reply and its exact end, whatever follows, iff no stream length was truncated by the encoder |
| Response.DecodesOnlyEncodings | src/core.rs:2963-2984 | whenever the decoder accepts, the bytes it consumed are the encoding of the reply it returns |
| Response.ReplyLayout | src/core.rs:2952-2961 | a reply byte by byte: `UXR1`, the code in two's complement, both lengths, stdout, stderr |
| Response.ReplyPrefixRejected | src/core.rs:2963-2984 | every strict prefix of an encoded reply is rejected |
| LossyQueue.OfferAccounts | python/unix_sandbox/_api.py:1338-1360 | one offer keeps the accounting: the log with notices expanded to holes, plus pending holes, lines up with all offers |
| LossyQueue.ReconstructsEveryRun | python/unix_sandbox/_api.py:1338-1360 | for every interleaving of offers and gets the rebuilt stream is as long as the offered one and equal to it at every non-hole, the bound is kept, and what the gets handed out followed by what waits is what was accepted |
| LossyQueue.OfferDeliversIff | python/unix_sandbox/_api.py:1338-1360 | an offer enqueues its event iff the free slots suffice for it and the notice due; with two free slots it always does and clears the count; a notice due goes first whenever a slot is free; without one, one more loss is counted |
| LossyQueue.CapacityOneStarves | python/unix_sandbox/_api.py:914-918 | with capacity one no original event is ever accepted again after the first loss, in any run |
| LossyQueue.LargerCapacityRecovers | python/unix_sandbox/_api.py:1338-1360 | with capacity two or more a drained queue takes the next event and clears the count, whatever was lost before |
| EventBus.Channel.EmitChange | src/core.rs:522-565 | the swap/restore emit computes the specified new state: numbers, drop count and queue |
| EventBus.Channel.Enable | src/core.rs:514-520 | disabling clears the drop count, enabling does not |
| EventBus.EmitIsOffer | src/core.rs:522-549 | an emit on an enabled bus is one offer to the lossy queue |
| EventBus.EmittedIsHeard | src/core.rs:514-530 | in every run the bus takes in exactly the changes reported while the last set_enabled was on, in order |
| EventBus.NoticesAre | src/core.rs:528-545 | in every run an accepted event that reports losses is an `EventsDropped` at `/`, and one that reports none is a change that was emitted |
| EventBus.ClosedAcceptsNothing | src/core.rs:536-549 | once the receiver is gone nothing is accepted any more |
| EventBus.RunInv | src/core.rs:514-565 | in every serialised run gaps are at least the reported losses; if disabling discarded no count they are exact and the emitted changes can be rebuilt up to holes |
| EventBus.SerialisedGapsExact | src/core.rs:522-565 | without disabling, consecutive accepted events satisfy b.sequence = a.sequence + 1 + b.dropped_count |
| EventBus.SerialNumbers | src/core.rs:514-565 | in every serialised run the numbers handed out are the accepted events, the losses they report, the count and what disabling discarded |
| EventBus.DiscardedIsUnexplained | src/core.rs:514-520 | what disabling discarded is exactly what the sequence numbers skip without a report |
| EventBus.GapsExactIff | src/core.rs:514-565 | in every serialised run all gaps, the open one at the end included, are exact iff no step disabled the bus while it held a count |
| EventBus.LogGapsExactIff | src/core.rs:514-565 | in every serialised run the gaps between accepted events are exact iff nothing was accepted after a step that disabled the bus while it held a count |
| EventBusSteps.MoveConserves | src/core.rs:522-549 | each atomic operation of each thread keeps both conservation laws |
| EventBusSteps.EveryInterleaving | src/core.rs:514-565 | in every interleaving: emits that passed the check = ordinary events + reported counts + counter + held by threads + discarded; numbers handed out = accepted + reported + counter + in flight + discarded; accepted numbers are distinct; the queue is bounded |
| EventBusSteps.PassedIsBegun | src/core.rs:514-525 | in every interleaving the emits that pass the check are exactly those begun while the last switch of the bus was on |
| EventBusSteps.QuiescentTotals | src/core.rs:522-565 | once all threads are idle and nothing was discarded, lost emits = highest number − accepted events |
| EventBusSteps.SoloRunIsEmit | src/core.rs:522-549 | a thread that runs uninterrupted performs exactly the sequential emit |
| EventBusSteps.SoloRunIsSetEnabled | src/core.rs:514-520 | a set_enabled that runs uninterrupted is the sequential one, clearing the count when disabling |
| Subscription.HandlerQueue.Deliver | python/unix_sandbox/_api.py:1338-1360 | the queue update is one offer of the lossy queue, notices included |
| Subscription.HandlerQueue.Next | python/unix_sandbox/_api.py:1288-1298 | the worker gets the head of the accepted stream |
| Subscription.HandlerStreamReconstructs | python/unix_sandbox/_api.py:1271-1280 | for any filter and any interleaving the accepted log accounts for exactly the matching native events |
| Subscription.HandlerCountsExactIff | python/unix_sandbox/_api.py:1338-1360 | the counts a handler sees never overstate what was emitted and are exact iff no matching native notice for several changes was offered while its queue lacked the room for it |
| Subscription.NativeTotalIsEmitted | src/core.rs:514-549 | in every run the native log's own total, the pending count and what disabling discarded are the emitted changes |
| Pipeline.EveryRun | python/unix_sandbox/_api.py:1257-1286 | in every joint run of threads, bus, dispatcher and handler each accepted native event is waiting, in the dispatcher's hands, offered to the handler, offered before it was registered, or lost; in order of acceptance unless some were lost |
| Pipeline.RegisteredFromThen | python/unix_sandbox/_api.py:1195-1229 | a registration holds from its step on, and from then on every event that is offered reaches the handler |
| Pipeline.NativeIsARun | src/py_api.rs:229-265 | the native side of every joint run is a run of the concurrent bus |
| Pipeline.EndToEndCountsIff | python/unix_sandbox/_api.py:1257-1360 | for any number of threads in mid-emit and a registration made at any point, what the handler is told, its filter hides, came too early, was cleared, is on its way, counted, held or discarded never exceeds the emits that passed the check and equals them iff the handler's queue never lacked room for a notice of several changes |
| Subscription.NativeNoticeSeenIff | python/unix_sandbox/_api.py:1917-1930 | a native drop notice passes a filter iff the kinds admit it and the prefix is absent or `/` |
| Subscription.MatchesByComponents | python/unix_sandbox/_api.py:1933-1955 | on canonical paths an event passes a filter iff its kind is asked for and the prefix contains its path or, for a rename, its new path, by components |
| Dispatcher.AlwaysListening | python/unix_sandbox/_api.py:1231-1286 | in every state reached without foreign cancellations a non-empty handler set implies notifications are enabled and exactly one live task owns the current generation |
| Dispatcher.StaleExitHarmless | python/unix_sandbox/_api.py:1284-1286 | in every reachable state a task of an older generation can neither disable notifications nor change handlers |
| Dispatcher.StaleTasksEnd | python/unix_sandbox/_api.py:1238-1246 | in every run a task that is no longer the stored one ends at its next turn |
| Dispatcher.HandlersAre | python/unix_sandbox/_api.py:1195-1255 | in every run the handlers are exactly those subscribed and neither removed nor closed since, each under a token never given out before |
| Dispatcher.ListeningIff | python/unix_sandbox/_api.py:1231-1286 | in every run, with any task cancelled from outside at any point, the listening promise holds iff nobody listens or the stored task is alive |
| Dispatcher.ListeningChangesIff | python/unix_sandbox/_api.py:1271-1286 | in every run a step breaks the promise iff it delivers a cancellation to the stored task while someone listens, and mends it iff someone subscribes or the last subscriber goes |
| Dispatcher.SubscribeRecovers | python/unix_sandbox/_api.py:1257-1269 | from any state the next subscription leaves a live dispatcher and events enabled |
| Dispatcher.Sandbox.EnsureDispatcher | python/unix_sandbox/_api.py:1257-1269 | reuses a live task, else starts a new generation |
| Dispatcher.Sandbox.RegisterHandler | python/unix_sandbox/_api.py:1195-1229 | adds a handler under a fresh token and keeps both invariants |
| Dispatcher.Sandbox.RemoveSubscription | python/unix_sandbox/_api.py:1248-1255 | removes a handler, disables events after the last one, keeps both invariants |
| Dispatcher.Sandbox.ShutdownHandlers | python/unix_sandbox/_api.py:1238-1246 | closes handlers, retires the generation, cancels the live task, keeps both invariants |
| Dispatcher.Sandbox.DispatchTurn | python/unix_sandbox/_api.py:1271-1286 | one turn of a dispatcher task including its finally clause keeps both invariants |
| Bridge.EveryRunSafe | src/core.rs:629-695 | in every run each request is in at most one place, completed at most once, and a call holds or returned only responses completed for its own id |
| Bridge.FirstInFirstOut | src/py_api.rs:290-303 | in every run up to the closing of the receiver the requests handed to the dispatcher followed by those in the channel are the requests sent, in order |
| Bridge.ChannelMovesIff | src/core.rs:646-667 | a sender gets its request in iff the receiver is there and the channel has room, fails iff the receiver is gone; the dispatcher gets one iff one waits |
| Bridge.NeverReenters | src/py_api.rs:290-317 | a completed request is never again at its requester, in the channel, in transit or pending |
| Bridge.AnswerIsOwnAndUnique | src/core.rs:665-694 | Ok(r) is returned only if r is the one and only completion of that id, and stays the result |
| Bridge.LateResponseIsLost | src/core.rs:608-612 | a response delivery changes no other call, and none at all once its own call has returned |
| Bridge.TokensTellReturned | src/py_api.rs:319-335 | in every reachable state a token reads cancelled iff its invocation has returned |
| Bridge.Sandbox.SendRound | src/core.rs:646-667 | a round of the send loop: give up when cancelled or late, fail on a closed channel, retry when full, or enqueue at the end of the channel |
| Bridge.Sandbox.WaitRound | src/core.rs:669-694 | a round of the wait loop: give up when cancelled or late, return the response, fail on a disconnect, or wait on |
| Bridge.Sandbox.NextVirtualProcess | src/py_api.rs:290-307 | returns the oldest request of the channel, if there is one, and moves it into the pending map, where it was not before |
| Bridge.Sandbox.CompleteVirtualProcess | src/py_api.rs:309-317 | succeeds iff the request was pending and its requester still waits, and then that requester's slot holds exactly this response |
| Supervisor.AtMostOneAttempt | python/unix_sandbox/_api.py:1113-1150 | in any order of handler, native and task events there is at most one completion attempt, and after the end exactly one unless an encoding error escaped |
| Supervisor.ExactlyOneAttempt | python/unix_sandbox/_api.py:1113-1150 | if the handler's replies can be encoded, an ended supervisor made exactly one attempt |
| Supervisor.RunInv | python/unix_sandbox/_api.py:1127-1150 | the answer sent is the handler's own encoded reply or the fixed cancellation reply |
| Supervisor.EscapesIff | python/unix_sandbox/_api.py:1127-1137 | in every run a step loses the answer iff it resumes the supervisor from its first wait with an unencodable reply and no cancellation of either kind so far |
| Supervisor.AnswerIs | python/unix_sandbox/_api.py:1113-1193 | in every run what an ended supervisor sent follows from the order of events: the handler's encoded reply (nothing if it cannot be encoded) iff the loop resumed it on that reply before any cancellation, else the cancellation reply |
| Supervisor.EndingIs | python/unix_sandbox/_api.py:1113-1150 | in every run the first resumption that finds something decides how the supervisor ends: re-raising if it was cancelled, else normally on native cancellation, else as the handler ended |
| Supervisor.HandlerAskedToStop | python/unix_sandbox/_api.py:1127-1143 | in every run a supervisor that waits for a running handler to stop has asked it to |
| Supervisor.CancelledReplyIs | python/unix_sandbox/_api.py:1848-1850 | the cancellation reply decodes to code 126, empty stdout and the fixed text on stderr |
| Supervisor.CanAlwaysEnd | python/unix_sandbox/_api.py:1113-1150 | from every reachable state the supervisor ends once handler and native future give in to their cancellations |
| Supervisor.EndsWhenSettled | python/unix_sandbox/_api.py:1659-1669 | once handler and native future are done, one resumption ends the supervisor from any reachable state |
| Invocation.CompletedIffSent | src/py_api.rs:290-335 | in every joint run of bridge and supervisors a filed request is completed iff its supervisor made its attempt, with the value sent, and is pending until then; its call has that value on its way, returned it, or gave up |
| Invocation.ReturnedAnswerIs | src/core.rs:629-695 | in every joint run, if the blocked call returns Ok(r) then its supervisor ended with the single attempt r and native cancellation never reached it; unless the task was cancelled, r is the handler's own encoded reply, or the cancellation reply if the handler cancelled itself |
| Invocation.BridgeIsARun | src/py_api.rs:309-317 | the bridge side of every joint run is a run of the bridge in which a request is completed at the moment and with the value of its supervisor's attempt |
| Stdin.InteractiveStdin.Write | src/core.rs:2331-2344 | appends and wakes the stored waker, or fails when closed |
| Stdin.InteractiveStdin.Close | src/core.rs:2346-2356 | closes and wakes the stored waker |
| Stdin.InteractiveStdin.PollRead | src/core.rs:2380-2407 | hands out the oldest bytes, end of file, or stores the waker |
| Stdin.InteractiveStdin.PollReadReady | src/core.rs:2455-2468 | reports the buffered amount, end of file, or stores the waker |
| Stdin.LosslessFifo | src/core.rs:2331-2407 | in every run bytes read followed by bytes buffered are the bytes written, in order, for any number of readers |
| Stdin.WritesSucceedUntilClose | src/core.rs:2331-2356 | in every run exactly the writes before the first close succeed |
| Stdin.ReadIs | src/core.rs:2380-2407 | a read is pending iff it has room and the pipe is empty and open; else it hands out as many of the oldest bytes as fit and leaves the others |
| Stdin.ReadyPredictsRead | src/core.rs:2455-2468 | the readiness poll tells exactly what a read would then do |
| Stdin.EndOfFileIff | src/core.rs:2380-2407 | a read with room returns nothing iff the pipe is drained and closed |
| Stdin.NoLostWakeup | src/core.rs:2331-2468 | a single reader that is pending and not woken implies an empty, open pipe that holds its waker |
| Stdin.SecondReaderStealsWaker | src/core.rs:2396-2398 | with two readers the first stays asleep over available data |
| Stdin.AsleepIff | src/core.rs:2331-2468 | for any number of readers and any run a reader is asleep iff its last poll was pending and no write or close came since, or another pending poll took the slot before the first one |
| Capture.LimitedCaptureFile.WriteLimited | src/core.rs:2512-2541 | stores what fits and sets the flag on the first byte lost |
| Capture.LimitedCaptureFile.WriteReady | src/core.rs:2667-2684 | reports the room left, at most 8192, or marks a full buffer as exceeded |
| Capture.LimitedCaptureFile.Resize | src/core.rs:2643-2652 | truncates or zero-fills within the limit, else sets the flag |
| Capture.CaptureIsPrefix | src/core.rs:2512-2541 | after any writes and polls the data is the first `limit` bytes of the attempts, and the flag is set iff more was attempted or a poll came when the buffer was full |
| Capture.CaptureSucceedsIff | src/core.rs:2496-2508 | after any writes the capture succeeds iff nothing was lost, and is then complete |
| Capture.WriteReportsItsBytes | src/core.rs:2512-2541 | a write reports exactly the bytes it stored, and fails iff it had bytes and the buffer was full or had overflowed |
| Capture.ResizeIs | src/core.rs:2643-2652 | a resize within the limit keeps the bytes up to the new size and fills up with zeros; beyond it only the flag changes |
| Capture.ExceededIff | src/core.rs:2643-2684 | in every mixed run the flag is set iff some operation asked for more than fitted at the time |
| Capture.ExceededIsSticky | src/core.rs:2512-2541 | with writes, polls and resizes mixed the flag stays set |
| Capture.Run | src/core.rs:2643-2684 | with writes, polls and resizes mixed the size stays within the limit |
| Paths.NormalizePath | src/core.rs:3168-3191 | the push/pop loop on strings computes component resolution, with the NUL, relative and escape errors |
| Paths.NormalizeAbsolutePath | python/unix_sandbox/_api.py:1783-1798 | the Python list version gives the same result as the Rust one on NUL-free absolute paths |
| Paths.NormalizeIffInside | src/core.rs:3168-3191 | normalisation succeeds iff no component prefix has more `..` than names |
| Paths.NormalizeIsCanonical | src/core.rs:3168-3191 | results are canonical strings, normalising again changes nothing, and the fixed points are exactly the canonical strings |
| Paths.NormalizeByComponent | src/core.rs:3168-3191 | on strings, one component after the other: `.` and empty ones change nothing, `..` removes the last component or escapes at the root, a name is appended, an escape stays one |
| Paths.DownAndUp | src/core.rs:3178-3187 | going down into a directory and up again is nothing |
| Paths.NormalizeErrors | src/core.rs:3168-3176 | the NUL error iff there is a NUL, the relative error iff there is none and no leading slash |
| Paths.NormalizeCommandPath | src/core.rs:3208-3231 | the command path loop computes resolution from the working directory |
| Paths.CommandIsNormalize | src/core.rs:3208-3231 | for a canonical cwd and a NUL-free relative command the result is that of normalising cwd/command, failures included |
| Paths.CommandIsNormalizeIff | src/core.rs:3208-3231 | for a canonical cwd and any relative command the result is that of normalising cwd/command iff there is no NUL or one is left in the resolved components |
| Paths.PrefixIsAncestry | python/unix_sandbox/_api.py:1948-1955 | on canonical paths the string prefix test is component containment |
| Catalog.RegisterAlias | src/core.rs:2815-2843 | for any name collides iff an earlier registration gave one of its two paths another target, else adds it under both directories |
| Catalog.RegisterAll | src/core.rs:1864-1876 | a list of registrations of any names succeeds iff no two with different targets share a path, and then the map holds exactly the list |
| Catalog.PlainConsistentIff | src/core.rs:2815-2843 | for slash-free names other than `.` and `..` that is: iff no alias has two different targets |
| Catalog.RelativeShareIff | src/core.rs:2825-2827 | relative names share a path iff they have the same components |
| Catalog.PartsByComponent | src/core.rs:2825-2827 | how joined paths compare: part by part, where an empty part or `.` is nothing and `..` is kept |
| Catalog.KeysAre | src/core.rs:2825-2827 | a plain name is registered at `/bin/name` and `/usr/bin/name`, an absolute name at itself alone |
| Catalog.RegistrationIsConfluent | src/core.rs:1864-1876 | every permutation of the list has the same outcome and the same map |
| Catalog.DirectoriesAgree | src/core.rs:2815-2843 | `/bin/x` and `/usr/bin/x` are registered together with the same target, except where only an absolute name put one of them there |
| Directories.MissingIsExact | src/core.rs:3123-3147 | the created directories are exactly the missing prefixes of the path |
| Directories.ParentsFirst | src/core.rs:3123-3147 | parents are created before their children |
| Directories.Sandbox.CreateDirectories | src/core.rs:3123-3147 | succeeds iff no file is in the way; then every prefix is a directory, the new paths are the missing prefixes and nothing else changed; on failure the tree is unchanged |
| Directories.Sandbox.WriteFile | src/core.rs:1710-1755 | performs the specified write with its directory and file events |
| Directories.WriteIs | src/core.rs:1710-1755 | a write succeeds iff the path is not the root, no strict prefix is a file and it is not a directory; then the file holds the data, exactly the path and its missing prefixes are new, and every other path keeps its content |
| Directories.WriteReports | src/core.rs:1710-1755 | the events of a write are one for each missing strict prefix, parents first, then one for the file that says whether it was there; none on failure |
| Directories.WriteReplays | src/core.rs:1710-1755 | a write keeps the tree well formed, its events replay to the new shape, and a failed write changes and reports nothing |
| Directories.RunReplays | src/core.rs:1710-1755 | over any run of writes the events replay the initial shape to the final one and report every path created at most once |

## Left out

- Wasmer, WASIX process spawning, package loading, overlay and host file systems, mounts: foreign code; `Directories` uses a plain tree.
- Wrap-around of the 64-bit sequence numbers, request ids and drop counts: the counters are unbounded integers.
- Lock poisoning, PyO3 conversions and allocation failure, except that a dequeued request may be lost before it is filed.
- Liveness of bridge requests: a request may stay unanswered until its deadline; only safety and the conditional exactly-once result are stated.
- Handler tasks cancelled before their first step and supervisors cancelled before their first wait.
- Cross-thread closing of event subscriptions: `Dispatcher` has all calls on the loop thread; `Pipeline` follows a registration up to its removal.
- Virtual executable registration, `unregister` and command lookup through PATH: short map operations around the path functions modelled here.
- Seeking and reading back captured output, vectored writes, read-only and observable file wrappers: pass-through code.
- Asset fetching, image preparation and build scripts.
- Launcher.Launch: does not cover lists that overflow the fixed scratch regions, because the WASI calls then fail or overwrite each other and the launcher ignores their error codes, nor paths of 2 MiB and more, whose data segment overlaps the request buffer.
- Launcher.RunExecutable: does not cover paths above 1,131,244 bytes, with which a request can reach into the response buffer.
