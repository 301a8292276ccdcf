# Verification models of the server's core engines

Nine small engines of the Matrix server, modelled in Dafny 4.11 and proved against simple
specifications. `dafny verify dfyconfig.toml` checks the whole project.

- **Promises and futures** (`ircd/ctx.cc`). `PromiseSpec` is a machine of write-once cells with no
  pointers: handles join, move and leave, and a cell settles once. `PromiseLinks` has the pointer
  routines that repair two intrusive lists in place, `PromiseHeap` a heap of all promises and futures
  in which every public operation refines one step of the machine. `PromiseMeaning` says what that
  amounts to without events: which promises each pending future waits on, and what the others hold.
- **Contexts, docks and scheduling** (`ircd/ctx.cc`). `CtxList` has the intrusive context list, which
  refines a duplicate-free sequence, and the dock built on it. `DockSchedule` is a step relation for
  running, sleeping, noting, interrupting and timing out, with the theorem that no wakeup is lost;
  `DockAnswers` says exactly what wakes a context and with what answer it comes out of a wait;
  `DockRefinement` shows the operations on dock objects to be its steps.
- **Direct-IO writer** (`ircd/db_env.cc`). `DirectWriter` turns appends of any size and address into
  aligned writes through one bounce buffer; it refines a byte sequence that is appended to, and its
  file is what its aligned writes make of it.
- **Asynchronous IO** (`ircd/fs_aio.cc`). `AioSystem` has the user queue, the chaser, the armed handler
  and each request's single completion.
- **Base58 and Base64** (`ircd/b58.cc`, `ircd/b64.cc`). `Powers`, `Base58Spec` and `Base58` go from
  positional numbers to the in-place conversion with carries, `Base58Signed` says what a signed char
  does to it; `Base64Spec`, `Base64Tables`,
  `Base64Encode` and `Base64Decode` from 24-bit groups to the table-driven vector code.
- **Smaller engines.** `OffloadPool` (`ircd/ctx_ole.cc`), `BitmapAllocator` (`ircd/allocator.cc`),
  `ThreadLocal` (`ircd/db_fixes.cc`) and `Globular` (`ircd/globular.cc`).

The kernel, the event loop and user callbacks act arbitrarily: they are parameters of the methods
(replies, events, signals, outcomes) or steps anyone may take. An exception is a result value, a
context switch a step. Objects whose fields the source changes in place are classes here; ghost
fields hold what the specification needs to remember. Most preconditions say which list or queue an
object is in; those that go further are named under "Left out".

What was found where code and expectation part:

- Base64 decoding lets the fill of the last block carry into an emitted byte exactly when the spare
  bits of the last character are all ones (`CodeIsUnscalar`), which no encoder output has; it
  shows on the text `AP` (`CarryShows`).
- Base64 decoding does not look at the last character when one more than a multiple of 64 is left
  after the pads (`LooksAtAll`, `LastIsUnread`); a lone `!` is accepted (`ForeignAccepted`).
- Base58 decoding overruns a buffer exactly when the leading ones are more than its bytes (`Decode`).
  A buffer of `decode_size` bytes, which is all that `tob64` and `tob64_unpadded` check for
  (`ircd/b58.cc:46`, `ircd/b58.cc:59`), holds a string of ones only up to three (`OnesDoNotFit`).
  Encoding has no such gap (`EncodeSizeIsEnough`).
- The build asks for a signed char (`configure.ac:1256-1258`). A string and its prefixes are then
  decoded rightly exactly when no proper prefix has a byte from 128 on (`SignedDecodeExact`), and
  encoded rightly exactly when no byte is from 128 on (`SignedEncodeExact`), also when each prefix
  gets the window of its own length (`SignedDecodeInItsWindow`, `SignedEncodeInItsWindow`). All other
  Base58 results read bytes as 0 to 255.
- A kernel event with result -1 is reported as error 0 (`KernelMeaning`).
- Truncating a direct file keeps every writer usable exactly at a block boundary or within the block
  in the bounce buffer (`TruncateGuard`). For any other size a writer can be reached by opening,
  appending and a usable truncation that then puts the bytes of its buffer in place of the file's
  (`StaleRun`, `TruncateAppendClose`, `StaleBuffer`).
- The block allocator keeps the wanted length in a uint, which shows exactly when a longer length
  leaves a remainder that is found (`TruncationShows`, `WholeUint`).
- A promise whose event is over stays linked to its copies. When it takes a future, the copies behind
  it become valid with it (`PromiseHeap.World.TakeFuture`).
- Destroying the last 32-bit storage id erases nothing, since its upper bound wraps
  (`DestroyErasesAll`). The constructor asserts that this id is not reached.
- The glob matcher decides a smaller language than globs (`IMatch`): a final star does not stand for
  nothing, and an inner one does not backtrack (`NoBacktracking`). It decides the glob language
  exactly for the patterns without a star, and for no others (`GlobExact`).

## Model

| member | source | states |
|---|---|---|
| `PromiseSpec.StepKeepsInv` | ircd/ctx.cc:2063-2096 | every legal operation leaves each promise and future in exactly one event, and no open event without handles on both sides |
| `PromiseSpec.OneEventOnly` | ircd/ctx.cc:2235-2337 | no operation reaches a second event: all other events, their handles and what their futures see stay as they were |
| `PromiseSpec.AllOrNothing` | ircd/ctx.cc:2089-2164 | an event is settled by exactly the steps that set one of its promises or destroy the last copy; then all its futures see the outcome at once and all its promises are invalid; otherwise all stay pending; it is abandoned exactly when its last future dies |
| `PromiseSpec.ClosedIsFinal` | ircd/ctx.cc:2098-2109 | over every run, a settled or abandoned event never changes again, so a later set does nothing |
| `PromiseSpec.OutcomeHasCause` | ircd/ctx.cc:2037-2044 | over every run, the outcome of an event comes from one identifiable step on one of its own promises |
| `PromiseMeaning.StepIsAfter` | ircd/ctx.cc:2063-2109 | every step of the machine of events is the step of its meaning: a further future waits on the same promises, a copy settles what its original does, a moved handle stands in for the old one, an outcome or the end of the last copy reaches all that wait |
| `PromiseMeaning.RunIsAfter` | ircd/ctx.cc:2063-2109 | over every run, who waits on whom and what every future has seen is what the meaning says |
| `PromiseMeaning.ResolveSeen` | ircd/ctx.cc:2098-2109 | setting a promise is seen by exactly the futures that wait on it |
| `PromiseMeaning.CopySettles` | ircd/ctx.cc:2071-2076 | what is set on a copy, or on the original after it was copied, is seen by every future of the original |
| `PromiseMeaning.MoveSettles` | ircd/ctx.cc:2063-2069 | what is set on the moved-to promise is seen by every future of the moved-from one, on which setting no longer does anything |
| `PromiseMeaning.TakenSees` | ircd/ctx.cc:2435-2455 | a future sees what is set on the promise it was taken from |
| `PromiseMeaning.SharedSees` | ircd/ctx.cc:2457-2472 | a copied or moved future sees what the original would have seen |
| `PromiseMeaning.DropLeaves` | ircd/ctx.cc:2089-2096 | after one copy or one future is destroyed the other copies still settle the other futures |
| `PromiseMeaning.MovedKeeps` | ircd/ctx.cc:2457-2466 | a moved future keeps what was seen, and the old one sees nothing |
| `PromiseLinks.PromiseRefcount` | ircd/ctx.cc:2168-2195 | counting along the list reached through the head gives the number of live copies, zero for an invalid promise |
| `PromiseLinks.FutureRefcount` | ircd/ctx.cc:2528-2539 | counting along the list gives the number of pending futures of the event |
| `PromiseLinks.SetFuturesPromise` | ircd/ctx.cc:2309-2322 | every future of the event points at the new head promise, nothing else changes |
| `PromiseLinks.InvalidateFutures` | ircd/ctx.cc:2324-2337 | every future of the event loses its promise pointer |
| `PromiseLinks.InvalidatePromises` | ircd/ctx.cc:2699-2709 | every promise of the event loses its state pointer |
| `PromiseLinks.SetPromisesState` | ircd/ctx.cc:2681-2693 | every promise of the event points at the new head future |
| `PromiseLinks.RemovePromise` | ircd/ctx.cc:2234-2259 | the list without the promise is linked again, futures point at the new head, and the promise is out |
| `PromiseLinks.UpdatePromise` | ircd/ctx.cc:2263-2286 | the moved-to promise takes the place of the moved-from one in list and back pointers |
| `PromiseLinks.AppendPromise` | ircd/ctx.cc:2290-2307 | a copy is linked at the end of the list, whichever copy it was made from |
| `PromiseLinks.RemoveFuture` | ircd/ctx.cc:2603-2628 | the list without the future is linked again and promises point at the new head future |
| `PromiseLinks.UpdateFuture` | ircd/ctx.cc:2632-2655 | the moved-to future takes the place of the moved-from one; one that is not pending does so in front of its old followers, which do not change |
| `PromiseLinks.AppendFuture` | ircd/ctx.cc:2658-2675 | a further future is linked at the end of the list |
| `PromiseLinks.MakeReady` | ircd/ctx.cc:2121-2164 | all promises are invalid, all futures READY with exactly one more notification each |
| `PromiseLinks.SetException` | ircd/ctx.cc:2098-2109 | on a valid promise every future of the event gets the exception, is READY and notified once |
| `PromiseLinks.SetValue` | include/ircd/ctx/promise.h:140-184 | every future of the event gets the value, by move when it is the only one, and is READY and notified once |
| `PromiseLinks.DestroyPromise` | ircd/ctx.cc:2089-2096 | the last copy breaks the promise for every future; any other copy only leaves the list |
| `PromiseLinks.DestroyFuture` | ircd/ctx.cc:2509-2521 | the last future invalidates the promises; any other one only leaves the list |
| `PromiseLinks.CopyPromiseInto` | ircd/ctx.cc:2071-2076 | a copied promise joins the group of the original |
| `PromiseLinks.MovePromiseInto` | ircd/ctx.cc:2063-2069 | a moved promise replaces the original in its group |
| `PromiseLinks.TakeFutureInto` | ircd/ctx.cc:2435-2455 | a first future opens the event, for the promise and all copies still linked behind it; a further one joins the event |
| `PromiseLinks.CopyFutureInto` | ircd/ctx.cc:2468-2472 | a copied future joins the event |
| `PromiseLinks.MoveFutureInto` | ircd/ctx.cc:2457-2466 | a moved future, pending or not, replaces the original, with its value, exception and links |
| `PromiseHeap.Recouple` | ircd/ctx.cc:2235-2337 | repairing the links of one event is enough: every other event of the heap stays well linked |
| `PromiseHeap.World.NewPromise` | ircd/ctx.cc:2059-2096 | a fresh promise belongs to no event |
| `PromiseHeap.World.Shows` | ircd/ctx.cc:2168-2195 | a promise is valid exactly when futures wait on it, a future is pending exactly when it waits, and a READY one was notified once and holds what it has seen |
| `PromiseHeap.World.TakeFuture` | ircd/ctx.cc:2435-2455 | the heap refines the machine step for taking a future, also from a promise whose event is over: the copies still linked behind it come along; both lists stay finite, acyclic and consistent |
| `PromiseHeap.World.CopyPromise` | ircd/ctx.cc:2071-2076 | the heap refines the machine step for copying a valid promise |
| `PromiseHeap.World.MovePromise` | ircd/ctx.cc:2063-2069 | the heap refines the machine step for moving a promise, valid or not |
| `PromiseHeap.World.DropPromise` | ircd/ctx.cc:2089-2096 | the heap refines the machine step for destroying a promise; no list holds it any more |
| `PromiseHeap.World.SetPromiseException` | ircd/ctx.cc:2098-2109 | the heap refines the machine step for set_exception on any copy |
| `PromiseHeap.World.SetPromiseValue` | include/ircd/ctx/promise.h:140-184 | the heap refines the machine step for set_value on any copy |
| `PromiseHeap.World.CopyFuture` | ircd/ctx.cc:2468-2472 | the heap refines the machine step for copying a pending future |
| `PromiseHeap.World.MoveFuture` | ircd/ctx.cc:2457-2466 | the heap refines the machine step for moving a future, pending or not, with or without followers from its old event |
| `PromiseHeap.World.DropFuture` | ircd/ctx.cc:2509-2521 | the heap refines the machine step for destroying any future; no list holds it any more |
| `CtxList.Ctx.Note` | ircd/ctx.cc:349-361 | a note is counted; it wakes the context only when it is the first and the context is not running |
| `CtxList.SortedInsert` | ircd/ctx.cc:3094-3107 | inserting before the first greater id keeps an id-sorted queue sorted, behind equal ids |
| `CtxList.List.PushFront` | ircd/ctx.cc:3109-3129 | the queue gains the context at the front; head, tail, next and prev stay consistent |
| `CtxList.List.PushBack` | ircd/ctx.cc:3131-3151 | the queue gains the context at the back; head, tail, next and prev stay consistent |
| `CtxList.List.PushAfter` | ircd/ctx.cc:3153-3174 | the queue gains the context right behind another; head, tail, next and prev stay consistent |
| `CtxList.List.PushBefore` | ircd/ctx.cc:3176-3197 | the queue gains the context right before another; head, tail, next and prev stay consistent |
| `CtxList.List.PushSort` | ircd/ctx.cc:3094-3107 | the queue gains the context before the first greater id; a sorted queue stays sorted; head, tail, next and prev stay consistent |
| `CtxList.List.PopFront` | ircd/ctx.cc:3061-3092 | the front context leaves with null links; an empty list yields null; head, tail, next and prev stay consistent |
| `CtxList.List.PopBack` | ircd/ctx.cc:3028-3059 | the back context leaves with null links; an empty list yields null; head, tail, next and prev stay consistent |
| `CtxList.List.Remove` | ircd/ctx.cc:3006-3026 | exactly that context leaves, from the front, the back or the middle, and its links are null; head, tail, next and prev stay consistent |
| `CtxList.List.Size` | ircd/ctx.cc:3199-3211 | walking the next links counts the queue |
| `CtxList.RoundRobin` | ircd/ctx.cc:2808-2818 | n rotations, the meaning of n calls of notify, bring the n-th context to the front, and a full round restores the order |
| `CtxList.Dock.Notify` | ircd/ctx.cc:2808-2818 | the front context goes to the back and is noted once; nobody else is |
| `CtxList.Dock.NotifyOne` | include/ircd/ctx/dock.h:93-101 | only the front context is noted, and stays in place |
| `CtxList.Dock.NotifyAll` | ircd/ctx.cc:2825-2834 | every waiting context is noted exactly once, in place |
| `CtxList.Dock.Waiting` | ircd/ctx.cc:2952-2964 | true exactly for the contexts in the queue |
| `CtxList.Dock.NotifyRound` | ircd/ctx.cc:2808-2818 | as many notifications as contexts note each exactly once and restore the order |
| `CtxList.Dock.Join` | ircd/ctx.cc:2970-2984 | where a waiting context queues for each of the three orders |
| `CtxList.Dock.Leave` | ircd/ctx.cc:2986-2996 | the context leaves the queue; when it unwinds, the front context is noted |
| `DockSchedule.NoteEachAt` | ircd/ctx.cc:2825-2834 | notify_all notes each context of the queue once and no other |
| `DockSchedule.StepKeepsInv` | ircd/ctx.cc:294-361 | over every step: at most one context runs, a suspended context has no pending note so the next note wakes it, each queue holds exactly its waiters, and whoever sleeps on a true condition is on a dock still to be notified |
| `DockSchedule.NoLostWakeup` | ircd/ctx.cc:2867-2879 | over every run that notifies all before yielding, no context is asleep in a wait whose condition holds when the event loop chooses, despite timers, interrupts and stray notes |
| `DockSchedule.QueuedUntilResumed` | ircd/ctx.cc:349-361 | over every run, a context that is queued to resume stays queued until it resumes |
| `DockSchedule.NotifyAllWakes` | ircd/ctx.cc:2825-2834 | after notify_all no context waiting on the dock is suspended |
| `DockSchedule.InterruptPassesOn` | ircd/ctx.cc:2986-2996 | a context thrown out of its wait has left the queue and handed the wakeup to the next one |
| `DockSchedule.NotifyOneIsNotEnough` | include/ircd/ctx/dock.h:93-101 | a disciplined run from the start to a handler that makes a condition true, notifies one waiter and may end with the other asleep on it |
| `DockAnswers.WokenExactly` | ircd/ctx.cc:349-361 | at every step a suspended context is woken if and only if its timer fires, it is noted itself or through its dock, it is interrupted for the first time, or an interrupted one in front of it leaves; its wait is untouched |
| `DockAnswers.OutExactly` | ircd/ctx.cc:2867-2879 | at every step a context comes out of its wait if and only if it leaves it itself or is resumed with an interrupt pending; without a timer it leaves only when its condition holds |
| `DockAnswers.BeginsExactly` | ircd/ctx.cc:2867-2879 | a wait for a condition that holds does not sleep; any other queues the context at its place and suspends it |
| `DockAnswers.LineAfter` | ircd/ctx.cc:2808-2818 | the order of the waiters of a dock changes by joining, leaving and notify only |
| `DockAnswers.PendingExactly` | ircd/ctx.cc:618-632 | an interrupt is pending from interrupt until the context is resumed |
| `DockAnswers.WhoRuns` | ircd/ctx.cc:1073-1148 | who runs after each step, which contexts there are, and that a new context is queued and a yielding one suspended |
| `DockAnswers.WokenHasCause` | ircd/ctx.cc:349-361 | over every run, a suspended context stays so until one identifiable step that wakes it |
| `DockAnswers.OutHasCause` | ircd/ctx.cc:2867-2879 | over every run, a context that is out of a wait without a timer left it when its condition held, or was thrown out by an interrupt |
| `CtxList.Ctx.Suspend` | ircd/ctx.cc:296-343 | falling asleep clears the notes and arms the alarm |
| `CtxList.Ctx.Enter` | ircd/ctx.cc:1123-1148 | a context that comes back is awake with one note |
| `CtxList.List.FirstGreater` | ircd/ctx.cc:3094-3107 | the place of the first greater id |
| `DockRefinement.Notify` | ircd/ctx.cc:2808-2818 | on the objects of a dock, notify is the machine's step DockNotify |
| `DockRefinement.NotifyOne` | include/ircd/ctx/dock.h:93-101 | on the objects of a dock, notify_one is the machine's step DockNotifyOne |
| `DockRefinement.NotifyAll` | ircd/ctx.cc:2825-2834 | on the objects of a dock, notify_all is the machine's step DockNotifyAll |
| `DockRefinement.Wait` | ircd/ctx.cc:2867-2879 | queueing in any of the three orders and falling asleep is the machine's step BeginWait at that place |
| `DockRefinement.LeaveWait` | ircd/ctx.cc:2986-2996 | leaving the queue awake is the machine's step LeaveWait |
| `DockRefinement.ThrowOut` | ircd/ctx.cc:2986-2996 | an interrupted context that comes back, leaves the queue and notes the next one is the machine's step Resume |
| `DirectWriter.WritableFileDirect.Open` | ircd/db_env.cc:2137-2167 | panics exactly when the kept contents end inside a block; otherwise starts with those contents, or empty |
| `DirectWriter.WritableFileDirect.PhysicallyWrite` | ircd/db_env.cc:2650-2680 | one write with aligned address, offset and length, as pwrite leaves the file; the file stays what its recorded writes make of what it was opened or truncated to |
| `DirectWriter.WritableFileDirect.WriteBlock` | ircd/db_env.cc:2515-2518 | after the bounce buffer is written and n of its bytes count, the buffer invariant holds again and zero fill is zero padding |
| `DirectWriter.WritableFileDirect.WriteUnalignedBuf` | ircd/db_env.cc:2483-2519 | at an aligned offset an unaligned slice is taken up to its next aligned address; the logical bytes grow by just that, and the file ends with its block |
| `DirectWriter.WritableFileDirect.WriteBlocks` | ircd/db_env.cc:2615-2645 | whole blocks go out from the caller's memory, the overflow comes back |
| `DirectWriter.WritableFileDirect.WriteAligned` | ircd/db_env.cc:2576-2610 | aligned data at an aligned offset is taken completely, by aligned writes only, and the file ends with the padded block |
| `DirectWriter.WritableFileDirect.GetFileSize` | ircd/db_env.cc:2388-2410 | the number of logical bytes, never more than the file has |
| `DirectWriter.WritableFileDirect.Close` | ircd/db_env.cc:2169-2199 | an open file is left with exactly the logical bytes; a closed one is not touched |
| `DirectWriter.WritableFileDirect.WriteUnalignedOff` | ircd/db_env.cc:2524-2571 | at an unaligned offset the block in the buffer is completed, stale or not: the slice follows what the writer believes is there; afterwards the offset is aligned or nothing is left |
| `DirectWriter.WritableFileDirect.Write` | ircd/db_env.cc:2453-2478 | any slice at any offset: at least one byte is consumed and follows what the writer believes is there |
| `DirectWriter.WritableFileDirect.Append` | ircd/db_env.cc:2279-2330 | the contents grow by exactly the slice, by writes with aligned address, offset and length only; the file ends padded with zeros to its block boundary and the buffer invariant holds again; after a stale truncation the slice follows what the writer believes is there |
| `DirectWriter.WritableFileDirect.Truncate` | ircd/db_env.cc:2225-2249 | the contents are cut or extended, and the last block is believed to be what the buffer holds; the writer stays usable at a block boundary or within the block in the buffer |
| `DirectWriter.FileAt` | ircd/db_env.cc:2650-2680 | the two system calls byte by byte: data where it is written, zeros where the file grows, the old bytes elsewhere |
| `DirectWriter.TruncateGuard` | ircd/db_env.cc:2225-2249 | for every block size, offset and size: every valid writer stays valid if and only if the size is a block boundary or within the block in the buffer |
| `DirectWriter.StaleWriter` | ircd/db_env.cc:2225-2249 | for every other size, values of a valid writer whose buffer is stale after the truncation |
| `DirectWriter.TruncateAppendClose` | ircd/db_env.cc:2169-2330 | what a truncation, an append and a close leave for any size and slice: the blocks in front, the bounce buffer as it was, and the slice; for the empty slice the file's own bytes |
| `DirectWriter.StaleRun` | ircd/db_env.cc:2135-2330 | for every block size, offset and size that the guard excludes, opening, appending and a usable truncation reach a valid writer at that offset that loses bytes when it is truncated to that size, appended anything to and closed |
| `DirectWriter.StaleBuffer` | ircd/db_env.cc:2225-2249 | a freshly opened file of bytes 1 to 4, cut to two and appended a 9, ends as 0, 0, 9 |
| `DirectWriter.AppendEach` | ircd/db_env.cc:2325-2328 | after any sequence of appends of any sizes and addresses the contents are followed by the slices |
| `DirectWriter.WriteFile` | ircd/db_env.cc:2137-2199 | for any slices of any sizes and addresses, opening, appending and closing leave the prior contents followed by the slices, or panic on an unaligned start |
| `AioSystem.Request.Result` | ircd/fs_aio.cc:546-593 | what a completed request reports |
| `AioSystem.KernelMeaning` | ircd/fs_aio.cc:1298-1300 | over every event of the kernel: complete reports the count, or the error number, if and only if the result is not -1; an event with -1, which the kernel means as error 1, is reported as code 0 |
| `AioSystem.OwnMeaning` | ircd/fs_aio.cc:1155-1161 | the events the source makes itself are reported with the code put into them |
| `AioSystem.System.HandleThenComplete` | ircd/fs_aio.cc:1269-1307 | handling an event and completing its request yields the kernel's meaning if and only if the result is not -1 |
| `AioSystem.System.HandleEvent` | ircd/fs_aio.cc:1269-1307 | a request completes once, with the result and error code of the event |
| `AioSystem.System.DequeueOne` | ircd/fs_aio.cc:1146-1162 | the front request leaves the queue and completes with the error; the rest keeps its order |
| `AioSystem.System.DequeueAll` | ircd/fs_aio.cc:1139-1144 | every queued request completes with the error and the queue is empty |
| `AioSystem.System.IoSubmit` | ircd/fs_aio.cc:1074-1137 | accepted: the whole queue; bad descriptor: the first one fails; invalid: all fail; anything else ends the process |
| `AioSystem.System.SetHandle` | ircd/fs_aio.cc:1164-1188 | the completion handler is armed |
| `AioSystem.System.RetrySubmit` | ircd/fs_aio.cc:1038-1042 | the retry loop ends, since each recoverable error shrinks the queue, and what it left is a suffix of the queue |
| `AioSystem.System.SubmitAll` | ircd/fs_aio.cc:1026-1062 | the queue is flushed to zero: a prefix failed with EBADF and the rest is in flight or failed with EINVAL; the handler is armed exactly when it was or the kernel was idle and took some; the process ends only at a refusal of another kind |
| `AioSystem.System.Submit` | ircd/fs_aio.cc:935-993 | each request is afterwards in exactly one place; an unflushed one is last in the queue, and a chaser is posted exactly for a first one; the handler is armed for the first that flies; a system that is served stays so |
| `AioSystem.System.Chase` | ircd/fs_aio.cc:998-1012 | a chaser empties the queue it finds, and arms the handler for the first that flies; a system that is served stays so |
| `AioSystem.System.HandleEvents` | ircd/fs_aio.cc:1233-1258 | every reported request moves from the kernel to done, once, with its reported result |
| `AioSystem.System.Handle` | ircd/fs_aio.cc:1191-1231 | the events of a successful read are reaped; the handler re-arms exactly while requests fly; only a canceled read marks the system interrupted |
| `AioSystem.System.Interrupt` | ircd/fs_aio.cc:822-834 | cancels the armed read and changes nothing else, or marks the system interrupted |
| `AioSystem.System.IsQueued` | ircd/fs_aio.cc:637-646 | true exactly for the requests in the queue |
| `AioSystem.System.RemoveFromQueue` | ircd/fs_aio.cc:868-876 | the gap is closed in order |
| `AioSystem.System.Cancel` | ircd/fs_aio.cc:856-932 | a queued request leaves the queue, the others keep their order, and it completes with ECANCELED; a flying one leaves the kernel and completes with what io_cancel reports, or stays where it is when io_cancel fails |
| `AioSystem.System.WaitInterrupted` | ircd/fs_aio.cc:615-635 | the exception goes on exactly when the kernel does not have the request; a queued one alone is canceled, with ECANCELED |
| `AioSystem.System.Conservation` | ircd/fs_aio.cc:1030-1046 | every submitted request is counted exactly once among queued, in flight and done |
| `AioSystem.System.NobodyStranded` | ircd/fs_aio.cc:976-990 | whenever the event loop has control, a queued request has a chaser coming and one in flight has the handler armed, until an interrupt or a canceled read, which alone end being served |
| `AioSystem.OneRequest` | ircd/fs_aio.cc:935-1062 | a run: a request submitted at once to a system that is served and accepted by the kernel finds the handler armed, is completed once, and reports what the kernel meant unless that is -1 |
| `Powers.RatioBound` | include/ircd/b58.h:39-58 | from one inequality between powers of two bases, how many digits of one always suffice for n digits of the other |
| `Base58Spec.DecodeEncodeSpec` | ircd/b58.cc:72-163 | on paper, decoding inverts encoding for every byte string, leading zeros included |
| `Base58Spec.EncodeDecodeSpec` | ircd/b58.cc:72-163 | on paper, encoding inverts decoding for every string over the dictionary |
| `Base58Spec.DictExactly` | ircd/b58.cc:19-23 | the dictionary holds exactly the digits and letters other than 0, O, I and l |
| `Base58Spec.CodeShape` | ircd/b58.cc:19-23 | the dictionary in closed form: digits, capitals, small letters, in order |
| `Base58Spec.EncodeVector` | ircd/b58.cc:121-163 | the bytes 1, 0 are encoded as 5R |
| `Base58.StepBounds` | ircd/b58.cc:99-104 | every intermediate is below 58 * 256 and the carry at most 255 when encoding, 57 when decoding |
| `Base58.AbsorbValue` | ircd/b58.cc:99-104 | one symbol multiplies the value of the cells and adds the symbol; what does not fit is the last carry |
| `Base58.RunValue` | ircd/b58.cc:89-105 | whatever the window, the cells hold the value of the prefix less a multiple of what fits |
| `Base58.RunHolds` | ircd/b58.cc:139-149 | in a window the value fits, the cells are exactly its digits and the top one is not zero, so the output is minimal |
| `Base58.WrittenExact` | ircd/b58.cc:107-114 | the written digits are the canonical ones if and only if the value fits the window |
| `Base58.EncodeFits` | include/ircd/b58.h:53-58 | encode_size(n) digits absorb every n bytes, from 256^8 <= 58^11 |
| `Base58.DecodeFits` | include/ircd/b58.h:39-44 | decode_size(n) bytes absorb every n symbols, from 58^71 <= 256^52 |
| `Base58.EncodeExact` | ircd/b58.cc:121-163 | encode is right if and only if the value fits the window |
| `Base58.DecodeExact` | ircd/b58.cc:72-115 | decode is right if and only if the value fits the window |
| `Base58.DecodeUndoesEncode` | ircd/b58.cc:72-163 | decode(encode(x)) = x for every byte string in windows of the library's sizes |
| `Base58.EncodeUndoesDecode` | ircd/b58.cc:72-163 | encode(decode(s)) = s for every string over the dictionary in windows of the library's sizes |
| `Base58.AbsorbInPlace` | ircd/b58.cc:143-148 | the in-place loop computes one symbol's step on the window and touches nothing else |
| `Base58.ConvertInPlace` | ircd/b58.cc:137-149 | the outer loop computes the run over all symbols in the zeroed window |
| `Base58.MoveDown` | ircd/b58.cc:154-154 | the overlapping move brings the used cells down in order |
| `Base58.Transform` | ircd/b58.cc:157-161 | every digit becomes its dictionary character |
| `Base58.Encode` | ircd/b58.cc:121-163 | fails exactly when the leading zeros alone exceed the buffer; otherwise the buffer's prefix is the encoding in the window it left room for |
| `Base58.Decode` | ircd/b58.cc:72-115 | overruns exactly when the leading ones alone exceed the buffer, else throws exactly when a character is outside the dictionary; otherwise the buffer's prefix is the decoding |
| `Base58.EncodeInBuffer` | ircd/b58.cc:131-134 | encode is right in a buffer if and only if the buffer holds the encoding |
| `Base58.DecodeInBuffer` | ircd/b58.cc:81-84 | decode is right in a buffer if and only if the buffer holds the decoding |
| `Base58.EncodeSizeIsEnough` | include/ircd/b58.h:53-58 | a buffer of encode_size bytes holds every encoding, leading zeros included |
| `Base58.OnesDoNotFit` | include/ircd/b58.h:39-44 | n ones decode to n bytes, and a buffer of decode_size bytes holds them if and only if n is at most three; so the guards at ircd/b58.cc:46 and 59 let strings through that the buffer does not hold |
| `Base58.BytesRoundTrip` | ircd/b58.cc:72-163 | bytes to text and back through two buffers that hold the text and the bytes, leading zeros included |
| `Base58.TextRoundTrip` | ircd/b58.cc:72-163 | text to bytes and back through two buffers that hold the bytes and the text, leading ones included |
| `Base58Signed.SignedDecodePlain` | include/ircd/buffer/mutable_buffer.h:17-18 | with a signed char, a string whose proper prefixes have only bytes below 128 is decoded as with an unsigned one, in any window |
| `Base58Signed.SignedDecodeWrong` | ircd/b58.cc:99-104 | with a signed char, the symbol that follows the first prefix with a byte from 128 on is decoded wrongly |
| `Base58Signed.SignedDecodeExact` | ircd/b58.cc:72-115 | with a signed char, a string and all its prefixes are decoded rightly if and only if every proper prefix, read as a number, has bytes below 128 only |
| `Base58Signed.SignedDecodeInItsWindow` | include/ircd/b58.h:39-44 | the same when each prefix is decoded in the window that decode_size gives for its own length |
| `Base58Signed.SignedDecodeWitness` | include/ircd/buffer/mutable_buffer.h:17-18 | the string 411 is decoded wrongly |
| `Base58Signed.SignedEncode` | configure.ac:1256-1258 | with a signed char, bytes below 128 are encoded as with an unsigned one, in any window |
| `Base58Signed.SignedEncodeWrong` | ircd/b58.cc:139-149 | with a signed char, encoding is wrong at the first byte from 128 on |
| `Base58Signed.SignedEncodeExact` | ircd/b58.cc:121-163 | with a signed char, a byte string and all its prefixes are encoded rightly if and only if all its bytes are below 128 |
| `Base58Signed.SignedEncodeInItsWindow` | include/ircd/b58.h:53-58 | the same when each prefix is encoded in the window that encode_size gives for its own length |
| `Base58Signed.SignedSingleByte` | configure.ac:1256-1258 | with a signed char, a single byte is encoded rightly if and only if it is below 128 |
| `Base64Spec.UnscalarScalar` | ircd/b64.cc:260-269 | on paper, regrouping inverts cutting into sextets for every byte string |
| `Base64Spec.ScalarAt` | ircd/b64.cc:263-267 | the four documented formulas for a triple are the sextets of section 4 of RFC 4648, at every position |
| `Base64Spec.SameNumber` | ircd/b64.cc:260-269 | the sextets of a byte string, read as a number, are the number of its bytes with the spare bits behind it, for every length |
| `Base64Tables.DecodeTabShape` | ircd/b64.cc:66-102 | the decode table in closed form: the position in the dictionaries, 64 for every other byte |
| `Base64Tables.PermuteRow` | ircd/b64.cc:125-138 | the permute table brings two triples to every word, in the order the shifts need |
| `Base64Tables.ShiftRow` | ircd/b64.cc:140-153 | every row of the shift table holds the same eight shifts |
| `Base64Tables.DictEntry` | ircd/b64.cc:36-64 | each of the 64 dictionary characters is plain, not the pad, and decodes to its position |
| `Base64Tables.DictShape` | ircd/b64.cc:36-64 | the three dictionaries in closed form, up to their last two characters |
| `Base64Tables.ValueIffInDict` | ircd/b64.cc:66-102 | a byte has a value exactly when one of the three dictionaries holds it |
| `Base64Encode.LaneSextets` | ircd/b64.cc:279-296 | shifting and masking one permuted 64-bit lane gives the eight sextets of its two triples |
| `Base64Encode.RowSextets` | ircd/b64.cc:285-296 | the permute and shift tables together compute the documented formulas at every position |
| `Base64Encode.EncodeBlock` | ircd/b64.cc:271-311 | 64 characters, each the dictionary entry of its formula |
| `Base64Encode.EncodeUnpadded` | ircd/b64.cc:193-258 | for any input and capacity, exactly the first min(full length, capacity) characters of the scalar encoding, and nothing behind them |
| `Base64Encode.Encode` | ircd/b64.cc:157-190 | the padded encoding as far as there is room, and at most a NUL behind it |
| `Base64Encode.PaddedLength` | ircd/b64.cc:157-190 | the padding rule of section 4 of RFC 4648: the padded length is the next multiple of four, by at most two pads, and nothing but pads is added |
| `Base64Encode.Vectors` | ircd/b64.cc:157-190 | the test vectors of RFC 4648 for one byte and for two: f is Zg==, fo is Zm8= |
| `Base64Decode.TailOfTwo` | ircd/b64.cc:370-376 | two characters and two fills of 64: the emitted byte is right if and only if the spare bits are not all ones |
| `Base64Decode.TailOfThree` | ircd/b64.cc:370-376 | three characters and one fill: both emitted bytes are right if and only if the spare bits are not all ones |
| `Base64Decode.CodeIsUnscalar` | ircd/b64.cc:393-450 | the decoded bytes are those of RFC 4648 if and only if the spare bits of the last character are not all ones |
| `Base64Decode.CarryShows` | ircd/b64.cc:393-450 | AP decodes to the byte 1 in any buffer with room, where RFC 4648 says 0 |
| `Base64Decode.DecodeUndoesEncode` | ircd/b64.cc:317-391 | decoding the characters of an encoding gives the bytes back, and none of them is a pad or foreign |
| `Base64Decode.PermuteEntry` | ircd/b64.cc:114-123 | the permutation takes the three low bytes of each 32-bit lane in reverse and drops the fourth |
| `Base64Decode.MultiplyAdd` | ircd/b64.cc:427-437 | the 16-bit and 32-bit multiply-adds join a quad without wrapping, fills included |
| `Base64Decode.DecodeBlock` | ircd/b64.cc:393-450 | 48 bytes and an error lane per character, set exactly when the character has no value |
| `Base64Decode.Accumulate` | ircd/b64.cc:374-384 | under the mask an error lane stands exactly for a foreign character of the string: no real one is hidden, no fill reported |
| `Base64Decode.Decode` | ircd/b64.cc:319-391 | for any string and capacity: the bytes written, and rejection exactly when a foreign character is among those looked at |
| `Base64Decode.LooksAtAll` | ircd/b64.cc:338-364 | with full capacity every character is looked at, except the last one of a length one above a multiple of 64 |
| `Base64Decode.RejectsForeign` | ircd/b64.cc:386-391 | with full capacity and a length not one above a multiple of 64, decode throws exactly when some character is in none of the dictionaries |
| `Base64Decode.DecodesByTheRfc` | ircd/b64.cc:317-391 | an accepted string decodes as section 4 of RFC 4648 says if and only if its spare bits are not all ones |
| `Base64Decode.RoundTrip` | ircd/b64.cc:157-391 | decode inverts encode and encode_unpadded for every input, each dictionary and every ample buffer |
| `Base64Decode.ScalarSpareBits` | ircd/b64.cc:260-269 | the encoder leaves the spare bits zero (section 3.5 of RFC 4648) |
| `Base64Decode.LastIsUnread` | ircd/b64.cc:338-364 | with full capacity and a length one above a multiple of 64, decode throws exactly when a character before the last one is in none of the dictionaries |
| `Base64Decode.ForeignAccepted` | ircd/b64.cc:338-364 | a lone exclamation mark decodes to nothing without an error, in any buffer |
| `OffloadPool.Continue` | ircd/ctx_ole.cc:118-131 | in a consistent pool offload rethrows exactly what its own job threw if and only if no interrupt or termination is pending; a pending one is thrown at the end of the uninterruptible scope unless the caller was uninterruptible before; two exceptions never meet |
| `OffloadPool.Job.Deliver` | ircd/ctx_ole.cc:107-115 | the signal counts the latch down |
| `OffloadPool.Pool.Push` | ircd/ctx_ole.cc:132-163 | the job is last in the queue; a thread is added exactly when all work and the limit allows |
| `OffloadPool.Pool.Take` | ircd/ctx_ole.cc:234-241 | the front job starts, once, on this worker |
| `OffloadPool.Pool.Wake` | ircd/ctx_ole.cc:224-241 | a parked worker takes the front job, or parks again when there is none |
| `OffloadPool.Pool.Pop` | ircd/ctx_ole.cc:215-242 | a worker between jobs takes the front job or parks; fewer steps remain |
| `OffloadPool.Pool.Finish` | ircd/ctx_ole.cc:90-116 | the job's outcome and exception are recorded and its context is signalled |
| `OffloadPool.Pool.Deliver` | ircd/ctx_ole.cc:107-115 | delivering a signal keeps the pool consistent and opens that job's latch |
| `OffloadPool.ContinuesAfterItsJob` | ircd/ctx_ole.cc:118-131 | an open latch means: that job ran exactly once, is over, its exception is the recorded one and no worker holds it |
| `OffloadPool.WorkingBounds` | ircd/ctx_ole.cc:215-242 | working is the number of workers that are not parked, within zero, the threads and their limit |
| `OffloadPool.Progress` | ircd/ctx_ole.cc:132-163 | when no worker can move and any is allowed, every pushed job is over and ran once |
| `OffloadPool.NoWorkers` | ircd/ctx_ole.cc:140-150 | with a limit of zero no job ever starts |
| `OffloadPool.Drain` | ircd/ctx_ole.cc:165-189 | in any order of worker steps and with any failures, the workers come to rest with every pushed job run exactly once |
| `BitmapAllocator.BitUpdate` | include/ircd/allocator/state.h:27-33 | setting or clearing a bit of its word changes that position and no other |
| `BitmapAllocator.NextFitUnique` | ircd/allocator.cc:448-472 | next fit determines one position: lowest free run in [last, size), else lowest in [0, last), else size |
| `BitmapAllocator.TruncationShows` | ircd/allocator.cc:448-472 | the length is kept in a uint: the position found is the right one if and only if the length is a uint or no run of its remainder was found either |
| `BitmapAllocator.WholeUint` | ircd/allocator.cc:448-472 | a length of 2^32 is found at the cursor of a bitmap that is not that long |
| `BitmapAllocator.FullIffNoRoom` | ircd/allocator.cc:448-472 | for a block of at least one, size is returned exactly when neither side has a free run |
| `BitmapAllocator.AllocKeepsExact` | ircd/allocator.cc:429-446 | filling a free run adds a block disjoint from all live ones, and set bits stay exactly their union |
| `BitmapAllocator.FreeKeepsExact` | ircd/allocator.cc:401-412 | clearing a live block keeps set bits exactly the union of the others |
| `BitmapAllocator.FreeUndoesAllocate` | ircd/allocator.cc:401-446 | freeing restores the bitmap, and the next block of up to that length goes where the freed one was |
| `BitmapAllocator.State.Scan` | ircd/allocator.cc:452-458 | the lowest free run that lies in the scanned range, or that there is none |
| `BitmapAllocator.State.Next` | ircd/allocator.cc:448-472 | the next-fit position for the length as a uint, whatever the length is |
| `BitmapAllocator.State.Available` | ircd/allocator.cc:474-479 | true exactly when the next-fit position for the length as a uint is below size, which for a length below 2^32 is that of the length itself |
| `BitmapAllocator.State.TryAllocate` | ircd/allocator.cc:429-446 | for a length below 2^32, and for any other that is not found, takes the next-fit run of that length, sets just its bits and moves the cursor behind it; or changes nothing |
| `BitmapAllocator.State.Allocate` | ircd/allocator.cc:414-427 | for the same lengths takes the next-fit run, sets just its bits and moves the cursor behind it; or throws and changes nothing |
| `BitmapAllocator.State.Deallocate` | ircd/allocator.cc:401-412 | clears just the block's bits and moves the cursor to it; the other blocks stay live |
| `ThreadLocal.KeyRoundTrip` | ircd/db_fixes.cc:132-149 | packing and unpacking a key are inverse for all 32-bit ids and 64-bit keys |
| `ThreadLocal.KeyRange` | ircd/db_fixes.cc:199-203 | the keys of an id are exactly those from its zero key up to the next id's |
| `ThreadLocal.StoreIsLocal` | ircd/db_fixes.cc:245-267 | storing for one id and context is seen there and by no other |
| `ThreadLocal.DestroyIsLocal` | ircd/db_fixes.cc:205-213 | destroying an id makes its contexts see null and leaves every other id as it was |
| `ThreadLocal.DestroyErasesAll` | ircd/db_fixes.cc:199-213 | nothing of the id is left if and only if it is not the last 32-bit id, or stored nothing |
| `ThreadLocal.Bounded` | ircd/db_fixes.cc:199-205 | the range between the two bounds is exactly the id's entries |
| `ThreadLocal.Store.Construct` | ircd/db_fixes.cc:156-175 | the next id of a counter that wraps at 2^32, and its handler recorded if there is one and none was left |
| `ThreadLocal.IdsRepeat` | ircd/db_fixes.cc:156-162 | two objects share an id if and only if a multiple of 2^32 objects lies between them |
| `ThreadLocal.Store.Get` | ircd/db_fixes.cc:216-237 | what the total map holds for the current context, null by default |
| `ThreadLocal.Store.Swap` | ircd/db_fixes.cc:245-267 | stores and returns what was there, an absent entry counting as null |
| `ThreadLocal.Store.CompareAndSwap` | ircd/db_fixes.cc:269-312 | stores exactly when the total map held the expected pointer, and reports what it held |
| `ThreadLocal.Store.Destroy` | ircd/db_fixes.cc:177-214 | erases the id's range, calling its handler once per stored entry in key order; the last 32-bit id erases nothing |
| `Globular.IMatch` | ircd/globular.cc:57-87 | true exactly for the texts of a smaller language: an inner star stands for the text up to the first place of the next pattern character, taken literally, a final one for any text but the empty one, a final pair for any text with a star in it |
| `Globular.TakenMatches` | ircd/globular.cc:57-87 | that language is part of the case-insensitive glob language, so the matcher is sound |
| `Globular.OneStarExact` | ircd/globular.cc:57-87 | for patterns without an inner star it is the glob language, but for texts in which a final star would stand for nothing |
| `Globular.GlobExact` | ircd/globular.cc:57-87 | the matcher's language is the glob language if and only if the pattern has no star |
| `Globular.StarFails` | ircd/globular.cc:57-87 | for every pattern with a star, a text of its glob language that the matcher does not take |
| `Globular.SearchExact` | ircd/globular.cc:57-87 | for stars with one literal each between them and a star at the end not backtracking loses nothing: taken are exactly the texts with these characters in order and one more behind |
| `Globular.LowerJoins` | ircd/globular.cc:57-87 | case folding joins the two cases of a letter and nothing else |
| `Globular.NoBacktracking` | ircd/globular.cc:57-87 | the glob *ab matches aab and the matcher does not |

## Left out

- PromiseSpec.Step: the value is an int and `then` callbacks are not modelled, so code that a callback runs in the middle of `make_ready` is not seen.
- PromiseHeap.World.TakeFuture: the copies that are still linked behind a promise whose event is over must be alive and without an event; the source does not clear these links, follows them even to destroyed promises, and takes a follower out of an event it has since joined.
- PromiseHeap.World.MoveFuture: the old followers of a future that is not pending must be alive, and it is not moved onto one of them; the source follows these links, which may dangle, and would go round in a circle.
- PromiseHeap.World.CopyFuture: only pending futures are copied, as the source asserts.
- DockSchedule.Step: whether a timed wait has expired is arbitrary, and its true or false is not returned; termination and the NOINTERRUPT flag are not modelled; a context may queue at any place, which covers all three orders.
- DockRefinement.Wait: one dock at a time is coupled; interrupts and timers of the objects are only in the machine.
- DockSchedule.NoLostWakeup: the discipline (notify_all before yielding) is sufficient, not necessary.
- CtxList.Dock.Leave: the context's own exception is a flag; interrupt_all is `DockSchedule` interrupting each waiter, terminate_all is left out.
- DirectWriter.WritableFileDirect.PhysicallyWrite: a failing write, the mutex and the log are left out; PositionedAppend is unsupported in the source.
- AioSystem.System.Submit: the wait for room before it is a precondition; a kernel that accepts only part of the queue is asserted away in the source and left out.
- AioSystem.System.SetHandle: arming the handler does not fail here.
- AioSystem.System.Handle: an unknown error ends the process in the source; the model only says so (`alive` is false).
- Base58.EncodeSize: the size arithmetic does not model a wrap of size_t, which needs strings beyond 2^54 bytes.
- Base58Signed.SignedEncodeExact: the equivalence is about a string and all its prefixes; after a first wrong symbol no claim is made about longer strings.
- Base58Signed.SignedDecodeExact: the same; a later symbol may in principle undo an earlier error.
- Base58.Decode: what is written past the buffer when it overruns is not modelled.
- Base64Spec.EncodedSize: the source computes 4/3 and 3/4 in long double; here they are exact.
- Base64Decode.Decode: strings whose spare bits are all ones decode differently from RFC 4648, as `CodeIsUnscalar` says; no claim about the text of the exception.
- OffloadPool.Pool.Push: termination of the pool, and the names and priorities of jobs, are left out.
- BitmapAllocator.State.Allocate: the hint is unused in the source; sizes stay below 2^32, as positions do there. A length from 2^32 on must not be found: for one whose remainder is found the source sets bits past the bitmap.
- BitmapAllocator.State.TryAllocate: the same.
- ThreadLocal.Store.Construct: an id that is given out again after 2^32 constructions may still have entries or a handler, which the source asserts against; a handler that re-enters the map is left out.
- Globular.IMatch: characters beyond ASCII are not folded.
- Boost.Asio, RocksDB, OpenCL, allocation hooks, statistics, logging and profiling are not part of this model.
- `globular_iequals`, the database prefetcher, `allocator::incore` and the pool of the database environment would only add easy or unrelated members.
