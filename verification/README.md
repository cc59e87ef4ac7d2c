# Verification model of the VC4CL run-time

A Dafny 4.11 model of the parts of the VC4CL OpenCL run-time whose behaviour spans several functions or threads, with
proofs. `dafny verify dfyconfig.toml` checks everything.

Four areas are modelled.

**The event queue** (`Events`, `EventObjects`, `EventProtocol`, `EventInvariants`, `EventReferences`, `EventGuarantees`,
`EventTurns`). `Events` gives each operation on an event as a function on values; `EventObjects` has the classes
`EventObject` and `EventQueue`, whose methods update their fields and are proved to do what those functions say.
`EventProtocol` lets any number of client threads and the one handler thread interleave: a step is one lock-protected
region, reading a wait list is one step per entry, a timed wait is a handler that tries again, and an action is any
result that is `CL_COMPLETE` or an error. `Good` is the invariant of all interleavings. From it follow the order of
execution, "an action runs exactly when all ancestors are complete", progress with a bound, callbacks called exactly
once, reference counts that equal the number of users, and what `finish` waits for.

**Kernel launches** (`WorkItems`, `WorkSizes`, `Uniforms`, `LaunchBuffers`, `KernelLaunch`, `GroupLoop`). From the
checks of the work sizes over the layout of the device buffer to the loop that launches all work-groups. The loop writes
a real array and records what it writes, launches and waits for; a launch records the memory the QPUs find. The proofs
say that no execution has its data rewritten before it has been waited for, that launch k finds exactly work-group k in
its UNIFORMs, and, composed with the decoding of the UNIFORMs, that every point of the requested range is worked on
exactly once.

**Buffers** (`Transfers`, `RectCopies`, `Mappings`). Rectangle copies as row moves on arrays, the overlap test of OpenCL
1.2, Appendix E, and the list of mappings.

**Images** (`Textures`, `Rasters`, `PixelLoops`, `Images`). The LT and raster address maps, the pixel loops over any
address map, and the scan-line loops that replace them for raster images. Rectangles of buffers are rasters of bytes.

`Boxes`, `Sequences`, `Arithmetic` and `Wrappers` hold shared notions: index boxes in loop order, sequences without an
element, facts on products, error codes.

## What the code does not guarantee

Some properties the code is written for hold only under a condition. The code is modelled as it is, and the exact
condition is proved.

- The overlap test does not look at y-wrapping for a region of one slice. An accepted copy shares a byte exactly in the
  case `FlatOverrun`, and the row-by-row copy differs from a simultaneous one exactly in the case `ForwardOverrun`
  (`RectCopies.OverlapTestExact`, `RectCopies.InPlaceCopyExact`, `RectCopies.ForwardOverrunExample`).
- Rectangle reads and writes do not replace a pitch of 0, and look at no pitch. The rectangle they access is the one
  OpenCL means exactly if no pitch that matters is 0 (`RectCopies.SpecifiedBytesExact`), and all contents arrive exactly
  if the rows of the destination are apart, the rows of the source being so (`RectCopies.EveryRectCopied`,
  `RectCopies.FollowsExact`): unless slices run into each other, if there is one row or the row pitch is not below its
  length (`Rasters.LinesApartExact`). `RectCopies.ZeroPitchExample` is accepted and loses a row.
- The size check of rectangle transfers takes them for tightly packed. With valid pitches, none of them left to its
  default, it is right exactly if they are (`RectCopies.QuickCheckExact`, `RectCopies.BoundsExample`).
- Sub-buffers of one parent are not tested for overlap when rectangles are copied. The copy is right on every memory
  exactly if no row is read after it has been changed (`RectCopies.OneMemoryExact`, `RectCopies.SubBufferExample`).
- The image checks compare the destination region with the size of the source image (`Images.CopyAllowedExact`,
  `Images.DestinationNotChecked`), and accept no image with less than three coordinates.
- A map action can come after the unmap that erases its entry; it finds the entry exactly if it does not
  (`Mappings.MapFindsEntry`, `Mappings.MapTooLate`).
- The test of the global offset rejects one single sum of size and offset, as larger ones wrap around 32 bits
  (`WorkSizes.OffsetTestExact`).
- Local IDs are packed into bytes. With merged work-items larger ones are accepted; a completed launch has worked on the
  whole range exactly if all fit (`GroupLoop.CompletedLaunchCovers`, `GroupLoop.UnfitIdsAccepted`).
- The size of the device buffer counts 14 implicit UNIFORMs, but 17 can be emitted, and arguments by elements. A kernel
  fits with any program around it exactly if its UNIFORMs are at most one word per block more than those counted and two
  words for each unused QPU (`LaunchBuffers.AlwaysFitsExact`, `ContentsOverflowExample`), and with a given one exactly
  if the surplus is not above the padding of the last page (`LaunchBuffers.ContentsFitExact`).
- The launch messages step by vector elements, the UNIFORMs by words; they agree exactly when the arguments together
  have as many words as elements or one QPU is used (`LaunchBuffers.MessagesExact`, `MessagesExample`).
- The QPUs cover a work-group, and the launches the range, exactly when work-items are not merged and their number does
  not wrap around 32 bits, or when the group has one dimension (`WorkItems.GroupCoveredExact`,
  `WorkItems.RangeCoveredExact`). Requests for which they do not are accepted (`WorkSizes.WrappedLaunchExample`,
  `WorkSizes.MergedLaunchExample`).
- The launch loop ends exactly if the range is not empty in y or is empty in z (`WorkItems.EndsExact`). Requests for
  which it does not are accepted (`GroupLoop.AcceptedNeverEnds`); the code then goes on until the line number wraps
  around (`WorkItems.EmptyRowLeftByWrapping`). If the range is empty in x or z the loop ends, but only after work-groups
  outside the range have been launched (`GroupLoop.EmptyRangeLaunched`).
- An LT image can be given pitches that are too short. Its pixels stay in its memory exactly when the last micro-tile of
  a slice comes before the next slice (`Textures.LTInMemoryExact`), and are separate exactly when a tile row holds its
  micro-tiles, if there is a second one, and a slice its own, if there is a second one (`Textures.LTSeparatedExact`).
  `Textures.ShortPitchesAccepted` has an accepted request for either failure. Both together, in LT and raster order:
  `PixelLoops.ImagePixelsSeparated`.
- `setUserEventStatus` calls no callbacks: exactly those of a user event that are registered late are called
  (`EventGuarantees.UserCallbacksExact`). Nor does it check the kind of event: on a command it takes a final status back
  exactly if that was another one (`EventGuarantees.CommandStatusSetExact`), and the handler takes back what was set too
  early (`EventGuarantees.EarlyStatusKeptExact`, `Events.UserStatusOnCommand`).
- An event that fails because of its wait list keeps one reference for ever (`EventGuarantees.ReferencesLeft`,
  `EventGuarantees.AbortedIsNeverDeleted`).

## Model

| member | source | states |
|---|---|---|
| `EventReferences.Reachable` | src/queue_handler.cpp:94-178 | every state any interleaving of clients and handler reaches keeps the whole invariant: order, statuses, wait lists, decisions, callbacks and reference counts |
| `EventReferences.StepKeepsGood` | src/queue_handler.cpp:40-178 | no step of any thread breaks the invariant, and no step takes anything back that events have reached |
| `EventProtocol.ClientsUnhindered` | src/CommandQueue.cpp:88-108 | what client threads can do does not depend on where the handler is |
| `EventInvariants.ClientKeepsInv` | src/CommandQueue.cpp:88-108 | creating, preparing, pushing, returning or failing an event, setting user statuses, registering callbacks and counting references keep order, statuses and decisions right |
| `EventInvariants.HandlerKeepsInv` | src/queue_handler.cpp:98-166 | so does every step of the handler, in the middle of its loop too |
| `EventInvariants.AddToWaitListRight` | src/Event.cpp:229-237 | as a client only knows events that were returned to it, a wait list names user events and events pushed before |
| `EventInvariants.PushRight` | src/queue_handler.cpp:40-45 | a pushed event is queued behind everything its wait list names |
| `EventInvariants.CheckedRight` | src/Event.cpp:256-268 | reading the wait list entry by entry while others act never reports complete what was not |
| `EventInvariants.ClearedRight` | src/queue_handler.cpp:158-166 | an event leaves the deque decided, final and with an empty wait list |
| `EventGuarantees.RunGrown` | src/Event.cpp:187-203 | whatever the threads do, no status ever goes up and no final status changes |
| `EventGuarantees.EndsAsActionReturned` | src/queue_handler.cpp:135-151 | whatever the threads do after an action has returned, its event ends with exactly what it returned, and keeps that status |
| `EventGuarantees.ProcessedOutcome` | src/queue_handler.cpp:123-151 | in every reachable state the status of a processed event is what its action returned, if that ran |
| `EventGuarantees.EndsAsUserSaid` | src/Event.cpp:31-45 | the first status a user gives to a user event is the one it has from then on, and no second one is accepted |
| `EventGuarantees.CallbacksOnce` | src/Event.cpp:73-104 | every accepted callback of a command has been called exactly once if its level is reached and not at all before, with its level or the error code |
| `EventGuarantees.UserCallbacksExact` | src/Event.cpp:31-104 | in every reachable state a callback of a user event has been called, once, exactly if it was registered after its level had been reached |
| `EventGuarantees.CommandStatusSetExact` | src/Event.cpp:31-45 | in every reachable state setUserEventStatus succeeds on a command too, and takes a final status back exactly if the command has ended with another one |
| `EventGuarantees.EarlyStatusKeptExact` | src/queue_handler.cpp:98-166 | exactly the announcements of the handler, and an end with another status, take back a status that was set too early |
| `EventGuarantees.ActionRunsInOrder` | src/queue_handler.cpp:98-151 | when an action runs, all events pushed before are final, none pushed after has begun, and it has not run before |
| `EventGuarantees.RanIffAncestorsComplete` | src/queue_handler.cpp:123-151 | the action of a processed event has run, once, exactly when all direct and indirect members of its wait list are complete; else the event has the wait-list error |
| `EventGuarantees.PendingOnUserEvent` | src/queue_handler.cpp:102-122 | the handler only ever has to wait for a user event whose status has not been set |
| `EventGuarantees.HeadIsRemoved` | src/queue_handler.cpp:94-178 | once the user events the head waits for are set, it is removed after at most Rank steps of the handler, however clients interfere |
| `EventGuarantees.QueueDrains` | src/queue_handler.cpp:94-178 | once no user event that a queued event waits for is open, all events queued now are removed after a bounded number of handler steps, whatever is pushed meanwhile |
| `EventGuarantees.HandlerAdvances` | src/queue_handler.cpp:98-166 | every step of the handler gets nearer to removing a head whose user events are set |
| `EventGuarantees.FirstOfExact` | src/queue_handler.cpp:63-73 | peek finds the oldest queued event of a command queue, and nothing exactly when there is none |
| `EventGuarantees.FinishWaits` | src/CommandQueue.cpp:125-136 | when finish finds nothing left, every event pushed to that queue before the call is final and out of the deque |
| `EventGuarantees.NothingLeft` | src/CommandQueue.cpp:132-134 | a deque without events of a queue means all events ever pushed to that queue are processed |
| `EventGuarantees.ReferencesLeft` | src/queue_handler.cpp:123-166 | after processing, an event's references are those of clients, of the returning call, of wait lists and of finish, and one more exactly if its action did not run |
| `EventGuarantees.DeletedIsUnused` | src/Object.h:53-68 | an event without references is in no deque, wait list, wrapper, client's or handler's hand |
| `EventGuarantees.AbortedIsNeverDeleted` | src/queue_handler.cpp:124-128 | an event that failed because of its wait list keeps a reference in every continuation |
| `EventGuarantees.OneEventRuns` | src/queue_handler.cpp:94-178 | from the empty state a client can enqueue an event, and eight steps of the handler run its action once and remove it |
| `EventReferences.HeadIsAlive` | src/queue_handler.cpp:98-166 | the event the handler works on has a reference at every step, so its release cannot fail |
| `EventReferences.ClientKeepsRefs` | src/Object.h:107-197 | references equal users through every step of clients, wrappers in wait lists and of finish included |
| `EventReferences.HandlerRefs` | src/queue_handler.cpp:156-166 | references equal users through release, clearing and popping |
| `EventTurns.TurnIsHandled` | src/queue_handler.cpp:98-166 | without interference the fine steps of the handler do to an event what one turn of the loop does |
| `EventTurns.ScanSolo` | src/Event.cpp:256-268 | reading a wait list entry by entry gives the verdict on the whole list |
| `Events.WaitListStatusExact` | src/Event.cpp:256-268 | finished means all complete, and an error is reported exactly behind complete entries only |
| `Events.CallbacksAdvance` | src/Event.cpp:174-203 | a status update calls each waiting callback whose level it reaches or passes, and no other, so that exactly-once is kept |
| `Events.FireCount` | src/Event.cpp:174-185 | a callback is called as often as it is registered if its level lies between the old and the new status, with the new status |
| `Events.FireInOrder` | src/Event.cpp:174-185 | callbacks are called in the order of their registration, each exactly if its level lies between the statuses, with the new one |
| `Events.HandledExact` | src/queue_handler.cpp:98-166 | status, references and wait list of an event after a turn of the loop, for each verdict: submitted, the wait-list error, or what the action returned |
| `Events.HandledCalls` | src/queue_handler.cpp:98-151 | which callbacks a turn calls with which statuses, in order |
| `Events.CallbacksRegister` | src/Event.cpp:73-104 | a registration is called at once if it is late and kept otherwise, so that exactly-once is kept |
| `Events.CallbacksUserSet` | src/Event.cpp:31-45 | setting a user event calls nobody |
| `Events.UserCallbackMissed` | src/Event.cpp:31-45 | a callback registered in time for a user event is never called although its level is reached |
| `Events.UserStatusOnCommand` | src/Event.cpp:31-45 | used on a queued command it completes it, and the handler then sets the status back |
| `EventObjects.EventObject.SetUserEventStatus` | src/Event.cpp:31-45 | the error codes; on success, which comes once, the event has exactly the status passed, else nothing changes |
| `EventObjects.EventObject.SetCallback` | src/Event.cpp:73-104 | keeps the callback, or calls it with its level or the error, or rejects the level without a change |
| `EventObjects.EventObject.FireCallbacks` | src/Event.cpp:174-185 | the loop makes exactly the calls that are due |
| `EventObjects.EventObject.UpdateStatus` | src/Event.cpp:187-203 | the event has the status passed, and the calls due between the old and the new one are made, none for the same status or without firing |
| `EventObjects.EventObject.IsFinished` | src/Event.cpp:161-166 | tells exactly the final statuses |
| `EventObjects.EventObject.Retain` | src/Object.h:53-59 | one more reference, unless the object is already released |
| `EventObjects.EventObject.Release` | src/Object.h:61-68 | one reference less, unless the object is already released |
| `EventObjects.EventObject.PrepareToQueue` | src/Event.cpp:210-227 | takes queue and reference once; all error cases with what they leave behind |
| `EventObjects.EventObject.SetEventWaitList` | src/Event.cpp:229-237 | every listed event is retained as often as it is listed |
| `EventObjects.EventObject.SetAsResultOrRelease` | src/Event.cpp:239-254 | the creation reference goes to the caller or is released, the first error is returned |
| `EventObjects.EventObject.GetWaitListStatus` | src/Event.cpp:256-268 | the verdict on the statuses of the wait list |
| `EventObjects.EventObject.ClearWaitList` | src/Event.cpp:270-273 | every listed event is released as often as it was listed |
| `EventObjects.EventObject.Settle` | src/queue_handler.cpp:124-157 | status, calls and reference of an event after its verdict: the result of its action, CL_INVALID_OPERATION without one, or the error |
| `EventObjects.EventQueue.PushEvent` | src/queue_handler.cpp:40-45 | the event is last and has one more reference |
| `EventObjects.EventQueue.PeekQueue` | src/queue_handler.cpp:47-53 | the first event or nothing |
| `EventObjects.EventQueue.PopFromEventQueue` | src/queue_handler.cpp:55-61 | the first event is gone and released |
| `EventObjects.EventQueue.Peek` | src/queue_handler.cpp:63-73 | the oldest event of a command queue, retained; nothing exactly if there is none |
| `EventObjects.EventQueue.EnqueueEvent` | src/CommandQueue.cpp:88-108 | succeeds exactly for a live, unfinished, unqueued event with an action on a live queue; then it is pushed with two more references, else nothing changes |
| `EventObjects.EventQueue.HandleNext` | src/queue_handler.cpp:98-166 | one turn of the loop: whether the head leaves the deque, the status it ends with, its references and whole new state, and the references of its wait list |
| `GroupLoop.ExecuteKernel` | src/executor.cpp:227-533 | all return codes; else every run that ends, on ranges with empty dimensions too, is safe, launches the counted work-groups in order from alternating, complete UNIFORM blocks, stops at the first failing wait and is complete exactly when no launch follows |
| `GroupLoop.EndedTotal` | src/executor.cpp:474-533 | if the loop ends by itself, a run has at most as many launches as points are counted, and is complete exactly with all of them |
| `GroupLoop.LaunchGroups` | src/executor.cpp:461-533 | the same for the launch loop alone |
| `GroupLoop.PrepareNext` | src/executor.cpp:483-497 | rewriting the free block while the other is executed is safe and leaves code, data, messages and the busy block untouched |
| `GroupLoop.WritesAreSafe` | src/executor.cpp:483-497 | writes into one block never touch what an execution from the other one reads |
| `GroupLoop.CompletedLaunchCovers` | src/executor.cpp:227-533 | with accepted sizes, merged or not, a completed run has every global ID from the offset on, computed from the offsets, group and local IDs that the QPUs read, worked on if and only if all local IDs fit a byte; then by exactly one QPU in exactly one launch, and no other ID |
| `GroupLoop.UnfitIdsAccepted` | src/Kernel.cpp:563-628 | a group of 450 items on three QPUs is accepted, and its last local ID is 300 |
| `GroupLoop.EmptyRangeLaunched` | src/executor.cpp:461-511 | on a range that is empty in x or z a completed run has executed one work-group, or one per line, all of them outside the range |
| `GroupLoop.AcceptedNeverEnds` | src/Kernel.cpp:563-628 | the global sizes 4, 0, 1 with local sizes 4, 1, 1 are accepted and never counted to an end |
| `GroupLoop.KernelCoversRange` | src/executor.cpp:461-511 | the IDs that the QPUs read from their UNIFORMs over all launches name every point of groups times local sizes once, for every merge factor with which the QPUs cover a group |
| `GroupLoop.KernelCoversExact` | src/executor.cpp:84-114 | they name every point if and only if all local IDs fit the byte they are packed into |
| `GroupLoop.QpuReadsUsed` | src/executor.cpp:84-114 | from the address in the launch message in memory, a QPU reads every value the kernel uses for its own work-item in the launched work-group, and the kernel's code from the other one |
| `GroupLoop.QpuReadsRequest` | src/executor.cpp:84-114 | bit by bit: the work dimensions, global by local sizes, the group, the three offsets and the data address that a QPU reads are those of the request |
| `GroupLoop.QpuReadsSizes` | src/executor.cpp:87-95 | local sizes and local IDs are read back from their bytes exactly if all three fit |
| `GroupLoop.QpuReadsArgument` | src/executor.cpp:341-389 | word i of argument u is read behind the used implicit values and the words of the arguments before |
| `GroupLoop.QpuReadsData` | src/executor.cpp:297-306 | the data address read leads to the global data |
| `GroupLoop.QpuReadsLimits` | src/executor.cpp:391-399 | behind the arguments a QPU reads the address of its own UNIFORMs and the numbers of work-groups |
| `GroupLoop.QpuReadsOffset` | src/executor.cpp:106-111 | the global offset read is the requested one |
| `GroupLoop.QpuSeesItem` | src/executor.cpp:84-114 | read from there, group and local IDs are those the QPU was launched for, unused IDs being 0, exactly if the local ID fits its bytes |
| `KernelLaunch.PrepareBuffer` | src/executor.cpp:301-435 | before the first launch code, data and both message tables are in place and both blocks show the first work-group |
| `KernelLaunch.BuildBlocks` | src/executor.cpp:333-402 | the QPUs' blocks follow each other with the local IDs in loop order, nothing else is written |
| `KernelLaunch.DuplicateBlock` | src/executor.cpp:408-420 | the second block is a copy of the first |
| `KernelLaunch.PutMessages` | src/executor.cpp:422-435 | one message per QPU, nothing else is written |
| `KernelLaunch.PutBlock` | src/executor.cpp:337-399 | implicit values, arguments and loop values of one QPU, nothing else |
| `KernelLaunch.SetWorkItemInfo` | src/executor.cpp:56-115 | every used implicit value of the request, in its place behind the used ones before it, and where the next word goes |
| `KernelLaunch.RewriteBlock` | src/executor.cpp:488-497 | rewriting only the implicit values turns a complete block of one work-group into a complete block of another, inside that block |
| `LaunchBuffers.ContentsFitExact` | src/executor.cpp:42-54 | the contents fit the allocated size exactly when the surplus of written over counted words is within the padding of the last page |
| `LaunchBuffers.AlwaysFitsExact` | src/executor.cpp:269-271 | the contents fit for all code and data of whole words if and only if the UNIFORMs are at most one word per block above those counted and the messages of unused QPUs |
| `LaunchBuffers.ContentsFit` | src/executor.cpp:269-271 | at most 14 implicit UNIFORMs and arguments of the counted size always fit |
| `LaunchBuffers.ContentsOverflowExample` | src/executor.cpp:31-33 | a kernel that uses all 17 implicit UNIFORMs on 12 QPUs and does not fit |
| `LaunchBuffers.PartsInOrder` | src/executor.cpp:301-435 | data, stacks, code, both UNIFORM blocks and both message tables follow each other without overlap |
| `LaunchBuffers.MessagesExact` | src/executor.cpp:422-435 | every message names the start of its QPU's UNIFORMs exactly when one QPU is used or the arguments together have as many words as elements |
| `LaunchBuffers.MessagesExample` | src/executor.cpp:422-435 | with one 64-bit argument on two QPUs the second message points one word too early |
| `Uniforms.BlockReads` | src/executor.cpp:84-114 | every used implicit value is found behind the used ones before it, and the arguments behind all of them |
| `Uniforms.BlockTellsRequest` | src/executor.cpp:84-114 | every used implicit value in a block, bit by bit, is the one of the request modulo 32 bits |
| `Uniforms.BlockTellsSizes` | src/executor.cpp:87-95 | the three bytes of local sizes and IDs are the sizes and IDs exactly if these fit |
| `Uniforms.BlockTellsArgument` | src/executor.cpp:341-389 | where each word of each argument is |
| `Uniforms.BlockTellsLimits` | src/executor.cpp:391-399 | where the own address and the numbers of work-groups are |
| `Uniforms.BitOrExact` | src/executor.cpp:87-95 | a bit of the combined word is set exactly if it is set in one of the parts |
| `Uniforms.BlockIdentifiesItem` | src/executor.cpp:84-114 | the kernel reads back the group IDs it uses, and the local IDs exactly if they fit their bytes |
| `Uniforms.PackExact` | src/executor.cpp:87-95 | three values packed into a word are read back exactly when each fits a byte |
| `Uniforms.PackOverflows` | src/executor.cpp:87-95 | a first value that does not fit is read as parts of the other two |
| `Uniforms.EmittedAt` | src/shared/BinaryHeader.cpp:252-256 | a used value stands behind as many words as flags are set before it |
| `WorkItems.IncrementIndex` | src/executor.cpp:117-132 | each new index and whether the index space goes on |
| `WorkItems.NextExact` | src/executor.cpp:117-132 | each index after one increment, and the order in which they carry |
| `WorkItems.NextInOrder` | src/executor.cpp:117-132 | one increment moves to the next point of the loop order, and the end is reported exactly after the last |
| `WorkItems.NthIsPoint` | src/executor.cpp:117-132 | n increments lead to point n of the loop order |
| `WorkItems.EndsExact` | src/executor.cpp:117-132 | the end is ever reported if and only if there is something to count in y or nothing in z |
| `WorkItems.EmptyBoxCounted` | src/executor.cpp:117-132 | which points are counted before the end in a box that is empty in x or z |
| `WorkItems.EmptyRowNeverEnds` | src/executor.cpp:117-132 | with nothing to count in y no increment ever leaves the first slice |
| `WorkItems.EmptyRowLeftByWrapping` | src/executor.cpp:117-132 | with indices of a fixed width the first slice is left exactly when the line number wraps around |
| `WorkItems.NDRangeCoveredOnce` | src/executor.cpp:461-511 | group times local size plus local index, over all launches and QPUs, is a bijection onto the global range |
| `WorkItems.GroupCoveredExact` | src/executor.cpp:232-237 | the QPUs reach all work-items of a group if and only if nothing is merged and the count does not wrap, or the group has one dimension |
| `WorkItems.RangeCoveredExact` | src/executor.cpp:461-511 | all launches together reach the whole range if and only if the QPUs of one launch reach their whole group |
| `WorkItems.RangeHitOnce` | src/executor.cpp:461-511 | no point of the range is worked on by two QPUs or in two launches, and none outside, merged or not |
| `WorkItems.WorkedOnOnce` | src/executor.cpp:89-95 | no work-item is worked on by two QPUs, merged or not |
| `WorkItems.CeilDivIsLeast` | src/executor.cpp:233-235 | the QPU count is the smallest one that holds all work-items |
| `WorkSizes.SplitCompileWorkSize` | src/Kernel.cpp:427-455 | uses the compile-time sizes exactly when they divide the global sizes and fit the device |
| `WorkSizes.SplitGlobalWorkSize` | src/Kernel.cpp:457-513 | never fails, and takes the whole range or the largest divisor of the first dimension that fits |
| `WorkSizes.SetWorkGroupSizes` | src/Kernel.cpp:515-628 | every element of sizes, offsets and local sizes in terms of the request, given or chosen; acceptance in terms of these elements, and each error code exactly when its test is the first to fail |
| `WorkSizes.CheckSizesExact` | src/Kernel.cpp:592-628 | the last tests, written out, in their order |
| `WorkSizes.OwnChoiceExact` | src/Kernel.cpp:427-513 | the local sizes chosen without a request: those of the compiler if they divide and fit, else the whole range if that fits, else the largest divisor of the first dimension |
| `WorkSizes.OffsetTestExact` | src/Kernel.cpp:601-612 | of all sums of an acceptable size and a 32-bit offset exactly one is rejected |
| `WorkSizes.AcceptedSizesExecute` | src/Kernel.cpp:563-628 | accepted sizes never need more QPUs than there are, so executeKernel does not reject them, and the groups tile the range |
| `WorkSizes.OwnChoiceAccepted` | src/Kernel.cpp:427-513 | sizes the run-time chooses itself pass its own group checks |
| `WorkSizes.AcceptedLaunchCovers` | src/Kernel.cpp:563-628 | an accepted unmerged launch covers the range if and only if the group's size does not wrap around 32 bits |
| `WorkSizes.WrappedLaunchExample` | src/Kernel.cpp:563-628 | 65536 by 65536 items in one group are accepted and executed by no QPU |
| `WorkSizes.MergedLaunchExample` | src/Kernel.cpp:563-628 | a group of 8 by 2 items with merge factor 2 is accepted and not covered |
| `RectCopies.CheckCopyOverlap` | src/Buffer.cpp:381-422 | the verdict in terms of coordinates: the boxes meet, or the address ranges meet and a rectangle runs over the end of its rows or slices into the other |
| `RectCopies.OverlapTestExact` | src/Buffer.cpp:381-422 | a copy the test lets through shares a byte if and only if it is a flat overrun, with x-wrapping rows included |
| `RectCopies.OverlapTestExactUnwrapped` | src/Buffer.cpp:381-422 | for rectangles inside their rows and slices the test is exact in both directions |
| `RectCopies.ValidateCopy` | src/Buffer.cpp:424-477 | an accepted request has valid pitches on both sides and its zero pitches replaced |
| `RectCopies.ValidateCopyExact` | src/Buffer.cpp:424-477 | the verdict, error code and final pitches of every request, written out |
| `RectCopies.EnqueueCopyRect` | src/Buffer.cpp:424-477 | the checks in their order: pitches that are given are kept, a zero row pitch becomes the width and a zero slice pitch the height times the row pitch |
| `RectCopies.AcceptedBytes` | src/Buffer.cpp:437-493 | which source byte each destination byte of an accepted copy gets, from the pitches of the request, given or not |
| `RectCopies.PackedBytes` | src/Buffer.cpp:442-449 | with all pitches 0 both rectangles are tightly packed |
| `RectCopies.InPlaceCopyExact` | src/Buffer.cpp:1040-1059 | an accepted copy inside one buffer gives the simultaneous result on every memory if and only if it is no forward overrun |
| `RectCopies.OneMemoryExact` | src/Buffer.cpp:1040-1059 | any two rectangles of one memory, of sub-buffers for instance, are copied like that on every memory if and only if no row is read after it has been changed |
| `RectCopies.RowsIntactExact` | src/Buffer.cpp:381-493 | of the requests accepted inside one buffer exactly the forward overruns read changed rows |
| `RectCopies.InPlaceCopyIsSimultaneous` | src/Buffer.cpp:1040-1059 | every destination byte is the original source byte and every other byte is unchanged |
| `RectCopies.ForwardOverrunCorrupts` | src/Buffer.cpp:1040-1059 | in a forward overrun there is a memory on which a wrong byte arrives |
| `RectCopies.ForwardOverrunExample` | src/Buffer.cpp:381-477 | a concrete request that passes all checks, stays inside its buffer and is copied wrongly |
| `RectCopies.AcceptedOverrunCorrupts` | src/Buffer.cpp:424-477 | every accepted forward overrun is copied wrongly on some contents |
| `RectCopies.BufferRectCopy` | src/Buffer.cpp:1040-1059 | for every accepted request the row loops give the simultaneous result, between two buffers, inside one or between sub-buffers of one parent, unless they read rows they have changed, which inside one buffer are the forward overruns |
| `RectCopies.SubBufferExample` | src/Buffer.cpp:424-493 | an accepted copy between overlapping sub-buffers after which a byte is wrong |
| `RectCopies.WithinExact` | src/Buffer.cpp:200-212 | a rectangle is inside the memory exactly if its last byte is |
| `RectCopies.QuickCheckExact` | src/Buffer.cpp:206-212 | with valid pitches, given as they are, the quick size check is right for every size exactly for tightly packed rows and slices |
| `RectCopies.BoundsExample` | src/Buffer.cpp:424-477 | an accepted request whose rectangles leave their buffers |
| `RectCopies.BufferRectAccess` | src/Buffer.cpp:939-963 | for all pitches, a rectangle read or written arrives, and nothing else changes, if and only if bytes that share their place in the destination are the same in the source |
| `RectCopies.EveryRectCopied` | src/Buffer.cpp:939-963 | all contents arrive if and only if the source rectangle repeats itself where the destination does |
| `RectCopies.FollowsExact` | src/Buffer.cpp:939-963 | from a rectangle whose rows are apart, that is if and only if the rows of the destination are apart |
| `RectCopies.SpecifiedBytesExact` | src/Buffer.cpp:214-298 | the bytes read or written are those OpenCL means if and only if no row or slice pitch that matters is left to its default |
| `RectCopies.ValidateAccessExact` | src/Buffer.cpp:227-239 | the error codes of rectangle reads and writes |
| `RectCopies.AtExact` | src/Buffer.cpp:939-946 | where a byte of a rectangle is |
| `RectCopies.ZeroPitchExample` | src/Buffer.cpp:214-298 | an accepted write with row pitch 0 that loses its first row |
| `RectCopies.RectRoundTrip` | src/Buffer.cpp:939-963 | what the row loops write to a rectangle they read back unchanged, whatever the host memory holds, if and only if the host rectangle repeats itself where the buffer rectangle does; no other byte is touched |
| `RectCopies.OffsetInside` | src/Buffer.cpp:200-204 | a byte of a rectangle lies less than the extent of the region behind its origin |
| `Transfers.Execute` | src/TextureFormat.cpp:55-99 | three nested loops around a memmove do the moves of the box in loop order, also inside one memory |
| `Transfers.RunTransfers` | src/Buffer.cpp:1040-1059 | moves one after the other into separate places do what moving everything at once does |
| `Transfers.RunInPlace` | src/Buffer.cpp:1040-1059 | the same inside one memory if no move reads what an earlier one has changed |
| `Transfers.RunInPlaceExact` | src/Buffer.cpp:1040-1059 | and on every memory only then |
| `Transfers.RunSameBytes` | src/TextureFormat.cpp:101-119 | the same bytes arrive in all destinations, shared ones included |
| `Mappings.MappingsReachable` | src/Buffer.cpp:592-606 | in every interleaving live entries are the added without the erased ones, queued unmaps name different marked entries in the list, and each erases exactly one |
| `Mappings.UnmapAccepted` | src/Buffer.cpp:629-655 | an unmap is accepted exactly while the pointer has been mapped more often than unmapped |
| `Mappings.MapFindsEntry` | src/Buffer.cpp:592-610 | in every interleaving a map action finds its entry exactly if no unmap has erased it |
| `Mappings.MapTooLate` | src/Buffer.cpp:592-669 | two threads map the same memory, one unmaps it, and the map action of the other finds its entry erased |
| `Mappings.StepKeepsInv` | src/Buffer.cpp:629-669 | mapping, unmapping, running and dropping unmaps keep the ledger, for every pointer |
| `Mappings.StepsOnList` | src/Buffer.cpp:592-669 | the steps of the ledger do to the list what adding and scheduling do |
| `Mappings.ErasedExact` | src/Buffer.cpp:870-873 | running an unmap removes one entry, leaves all others and frees no other unmap |
| `Mappings.FirstFreeExact` | src/Buffer.cpp:641-648 | the search finds the first entry of the pointer that is not marked, and nothing exactly if there is none |
| `Mappings.MappingList.Add` | src/Buffer.cpp:592-606 | the new entry is last and carries its flags |
| `Mappings.MappingList.Schedule` | src/Buffer.cpp:629-655 | succeeds exactly if an entry of the pointer is not marked, and marks the first of these and nothing else; else the error code and no change |
| `Mappings.MappingList.Erase` | src/Buffer.cpp:870-873 | the entry the unmap names is gone and every other one kept, IDs stay distinct, and no pointer has more unmarked entries than before |
| `Textures.TileBytes` | src/TextureFormat.cpp:344-359 | a micro-tile has 64 bytes for every element size |
| `Textures.LTPitchesExact` | src/TextureFormat.cpp:220-242 | which pitches an LT image accepts and which it gets for 0, with the micro-tiles of 8 by 8, 8 by 4, 4 by 4 and 2 by 4 pixels |
| `Textures.RasterPitchesExact` | src/TextureFormat.cpp:283-289 | the pitches a raster image gets |
| `Textures.RoundUpIsLeast` | src/TextureFormat.cpp:170-177 | rounding up gives the least multiple that is not below |
| `Textures.Shape.ApplyPitchesPitched` | src/TextureFormat.cpp:220-242 | accepted pitches are whole micro-tiles, computed ones have room for all lines |
| `Textures.LTOffsetExact` | src/TextureFormat.cpp:244-278 | the LT address of a pixel from its coordinates and the pitches alone, for elements of 1, 2, 4 and 8 bytes |
| `Textures.RasterOffsetExact` | src/TextureFormat.cpp:291-300 | the raster address of a pixel from its coordinates and the pitches alone |
| `Textures.LTOffsetIsIndex` | src/TextureFormat.cpp:244-278 | the LT address is the place of the pixel in the order of slices, tile rows, tiles and pixels |
| `Textures.LTPixelsApart` | src/TextureFormat.cpp:244-278 | different LT pixels share no byte while rows, and slices if there are several, hold their micro-tiles |
| `Textures.LTSeparatedExact` | src/TextureFormat.cpp:220-278 | of all pitches an LT image can be given, exactly those keep all its pixels separate |
| `Textures.LTPixelBound` | src/TextureFormat.cpp:244-278 | LT pixels lie below slice pitch times depth while a slice holds its micro-tiles |
| `Textures.LTInMemoryExact` | src/TextureFormat.cpp:220-278 | of all pitches an LT image can be given, exactly those with which the last micro-tile of a slice comes before the next slice keep all pixels in the image memory |
| `Textures.ShortPitchesAccepted` | src/TextureFormat.cpp:220-242 | accepted pitches with which pixels lie behind the image memory or on top of each other |
| `Textures.RoomyIsSpacious` | src/TextureFormat.cpp:220-289 | pitches with room for whole lines and slices, as all computed ones have, have room for all pixels |
| `Rasters.RasterApart` | src/TextureFormat.cpp:291-300 | raster pixels of spacious pitches lie in loop order without overlap |
| `Rasters.RasterSeparatedExact` | src/TextureFormat.cpp:291-300 | for all pitches, raster pixels share no byte if and only if no line meets the next one or the first line of another slice |
| `Rasters.LinesApartExact` | src/TextureFormat.cpp:291-300 | unless slices run into each other that is when no line runs into the next one |
| `Rasters.RasterInMemoryExact` | src/TextureFormat.cpp:283-300 | raster pixels lie below slice pitch times depth if and only if a slice holds its own pixels |
| `PixelLoops.ImagePixelsSeparated` | src/TextureFormat.cpp:220-300 | in both orders the pixels of an image are separate and inside its memory if and only if its pitches have room for them |
| `PixelLoops.HostPixelsSeparated` | src/TextureFormat.cpp:55-76 | pixels in host memory are separate if and only if its lines are |
| `PixelLoops.LTPixelsAligned` | src/TextureFormat.cpp:244-278 | two LT pixels are at the same place or apart, whatever the pitches |
| `PixelLoops.PixelLoopsCopyRegion` | src/TextureFormat.cpp:55-99 | the pixel loops copy every pixel of a region and change no other byte |
| `PixelLoops.OtherPixelsKept` | src/TextureFormat.cpp:78-99 | pixels outside the region keep their contents, in every layout |
| `PixelLoops.ImageRoundTrip` | src/TextureFormat.cpp:55-99 | what the pixel loops write to an LT or raster image they read back: every pixel of the region arrives in the host memory, whose other bytes are kept |
| `PixelLoops.WriteKeepsOthers` | src/TextureFormat.cpp:78-99 | writing a region to such an image changes no pixel outside the region |
| `PixelLoops.FillsRegion` | src/TextureFormat.cpp:101-119 | one colour arrives in every pixel, even where pitches are so short that pixels lie on top of each other |
| `PixelLoops.LinesRefinePixels` | src/TextureFormat.cpp:302-342 | moving whole scan lines gives the same memory as moving pixel by pixel, for all regions and pitches |
| `PixelLoops.RasterLinesRefine` | src/TextureFormat.cpp:302-342 | the raster versions of read and write are such scan-line loops |
| `PixelLoops.CopyInsideExact` | src/TextureFormat.cpp:121-149 | inside one image a region is copied as if all pixels moved at once, on every memory, if and only if the regions are apart or the destination does not come after the source |
| `PixelLoops.RegionsReadIntact` | src/TextureFormat.cpp:121-149 | exactly then no pixel is read after it has been changed |
| `Images.Image.ApplyRasterPitches` | src/TextureFormat.cpp:283-289 | the pitches a raster image gets |
| `Images.Image.ApplyLTPitches` | src/TextureFormat.cpp:220-242 | the pitches an LT image gets, and what a rejected request leaves behind |
| `Images.Image.WritePixelData` | src/TextureFormat.cpp:78-99 | the region holds the host's pixels, every other byte of the image is unchanged |
| `Images.Image.ReadPixelData` | src/TextureFormat.cpp:55-76 | the host memory holds the region's pixels, every other byte is unchanged |
| `Images.Image.FillPixelData` | src/TextureFormat.cpp:101-119 | for all pitches the loops do the moves of the region and, in LT order, every pixel of the region has the colour; nothing else changes if pixels are separate |
| `Images.Image.CopyPixelData` | src/TextureFormat.cpp:121-149 | between two images or inside one, the loops do the moves in order; the region is copied and nothing else changes unless it overlaps a later destination in the same image |
| `Images.CopyAllowedExact` | src/Image.cpp:212-252 | copies are accepted for images with three coordinates only, with both regions inside the source image, and inside one image exactly if the regions are apart |
| `Images.AllowedCopyInside` | src/Image.cpp:237-252 | so an accepted copy inside one image is simultaneous |
| `Images.DestinationNotChecked` | src/Image.cpp:230-235 | an accepted copy to a destination image that is smaller than the region |
| `Images.Image.WriteLines` | src/TextureFormat.cpp:323-342 | the scan-line version leaves the memory of the pixel version |
| `Images.Image.ReadLines` | src/TextureFormat.cpp:302-321 | the scan-line version leaves the memory of the pixel version |
| `Boxes.PointsCoverBox` | src/TextureFormat.cpp:55-99 | three nested loops visit every point of their box exactly once |
| `Boxes.PointAtRank` | src/executor.cpp:333-402 | point number Rank of the loop order is the point |

## Left out

- The HAL, `executeQPU`, cache flushing, timeouts, performance counters, memory dumps: an execution is a token that a
  wait resolves with a result chosen by the environment.
- Compiler, linker, binary parser, `getInfo` queries, ICD dispatch, logging, profiling times and version strings.
- Shutdown of the handler thread, condition variables (a timed wait is a retry), `waitFor` and `waitForWaitListFinish`,
  which only read, and references to command queues and contexts; the reference count is unbounded.
- The branch of the handler for an event without an action is in `EventQueue.HandleNext` only: `enqueueEvent` rejects
  such events, so the interleaving model has none.
- The interleaving model lets clients set the status of user events only, as OpenCL demands; what the code does
  otherwise is in `CommandStatusSetExact` and `EarlyStatusKeptExact`.
- Contents of buffers under `CL_MEM_USE_HOST_PTR` when mapping and unmapping, and what a map action does that comes too
  late for its entry.
- An entry whose unmap could not be enqueued or was dropped stays in the list and cannot be unmapped again; the ledger
  counts it as live, as the code does.
- RectCopies.ValidateCopy: offsets and pitches are unbounded, so `size_t` wrap-around in them is not modelled;
  null-pointer checks are left out, and as the quick size check does not bound the true extent (`QuickCheckExact`), the
  actions require it (`WithinExact`).
- RectCopies.BufferRectCopy: between sub-buffers whether a changed row is read is stated on the rows (`ReadsIntact`),
  not in a closed form of the pitches.
- Of the texture layouts, `TFormatAccessor` (its address map is unimplemented) and arrays of 1D images; of the image
  requests, the checks before anything but a copy, and those of contexts, formats and host flags. Pitches are unbounded.
- GroupLoop.ExecuteKernel: the run has to end, because the loop does, which `EndsExact` decides, or because a wait
  fails, and the buffer has to have room for its contents, which `ContentsFitExact` and `AlwaysFitsExact` decide, as
  writing behind it has no defined effect. Indices are unbounded; where that matters, in empty rows,
  `EmptyRowLeftByWrapping` has the wrapping ones. The argument-type error, zeroing of stacks and wrap-around of the
  stack size are left out.
- GroupLoop.KernelCoversExact: the kernel knows its local sizes; what it reads for them is in `QpuReadsSizes`. Global
  IDs are unbounded, those of the code wrap around 32 bits. Local IDs below 2^24 (three bytes), arguments with as many
  words as elements together (`MessagesExact`), a buffer below address 2^32, merged work-items in groups of one
  dimension (`GroupCoveredExact`), and kernels that use every ID that can differ from 0.
- WorkSizes.SetWorkGroupSizes: the context, program and argument checks before the sizes; compile-time sizes are given
  for all dimensions or for none, as the code would otherwise divide by zero.
