# co_usb: proofs about its transfer engines, event-handler lifetime and hotplug acceptor

This project models three parts of co_usb in Dafny and proves what they keep over every run.

1. **The transfer engines.** N reusable libusb transfers serve M buffers. `CompleteEngine` and `PartialEngine` are
   the two awaitables as transition systems. An event is one iteration of the initial submission loop (accepted or
   refused) or one libusb callback; the two kinds interleave in any order, because the loop runs on the executor's
   thread while callbacks already fire. `CompleteAwaitable` and `PartialAwaitable` hold the awaitables with their own
   fields (`in_flight`, `buf_current`, `ec`, the `states` map, the transfers' `buffer` and `length`); every method is
   proved to take exactly the transition system's step, and `Valid` says that the object's state is a reachable one,
   which is what the theorems are about.
   `Flight` holds what both counters have in common, `SequenceView` the view that both loops walk.
2. **The event handler's lifetime.** `HandlerRefs` and `EventHandlerRef` account for references to handlers,
   `ReferenceOrigins` traces each back through copies and moves to the handler it was made from; `Operations` gives
   both engines one interface, and `Shutdown` puts the event loop, the references, the I/O objects and their running
   operations into one system; `OrderlyExit` says when its loop can be brought to its exit.
3. **The hotplug acceptor.** `Acceptor` is the rendezvous of waiting accepts and stored devices, one event per
   lock-protected section; `AcceptorTheorems`, `AcceptorOutcomes` and `AcceptorStore` say what its runs keep, and
   `HotplugAcceptor` holds the class with its own fields, tied to it the same way.

All theorems quantify over every sequence of events that libusb, the device and the executor allow. A device is one
of three kinds: it may report any length (`AnyLength`), at least one byte for a successful completion that asked for
some (`Progressing`), or all that was asked for (`FullLength`). Failing completions and failing submissions are
always possible.

## Where the code and its documentation differ

- `complete_io.hpp:133-134` promises that reading less is always coupled with an error. A transfer that takes a
  new buffer keeps its `total`, so its next buffer can be finished too early. `CompleteFill.FillsExactlyWhen` gives
  the exact condition for each kind of device; `CompleteTheorems.ShortReadWithoutError` is the smallest failing run
  and `CompleteTheorems.ReuseGuarantee` what holds without any condition.
- When an initial submission is refused, `in_flight` keeps the share of the transfers that were never submitted and
  the awaiting coroutine is never resumed (`CompleteTheorems.ResumableExactlyWhen`,
  `PartialTheorems.ResumableExactlyWhen`); its I/O object then keeps the event loop running for ever
  (`Shutdown.RefusedKeepsLoop`).
- `partial_io.hpp:54-57` promises that a held reference keeps the event handler from shutting down early. The service
  hands out references after the event loop has exited as well; whoever takes one then waits for ever
  (`Shutdown.LostCompletion`). The promise holds exactly in the runs without such a reference
  (`Shutdown.ServedExactlyWhen`), and a caller who takes none after a stop request is safe
  (`Shutdown.StopRuleSuffices`).
- A complete operation may run for ever if successful completions may be empty. The number of callbacks is bounded
  exactly when they may not, or when all buffers are empty (`CompleteTermination.BoundedExactlyWhen`).
- A stop is lost if it fires after `await_suspend` has looked at the token and before the first submission is accepted:
  there is nothing to cancel yet. `CompleteTheorems.StopEffectiveExactlyWhen` and
  `PartialTheorems.StopEffectiveExactlyWhen` say exactly when a stop ends the operation with an error.
- Assigning a handler to a reference that points to another handler does not release the other one. The counters are
  right exactly in the runs without such an assignment (`HandlerRefs.AccountedExactlyWhen`); after one, that
  handler's loop never exits (`Shutdown.ForgottenReleaseKeepsLoop`).
- `sequence_view::end()` answers the beginning. The awaitables rely on it; `cancel_transfer` on a view cancels nothing
  (`SequenceView.CancelView`).
- The acceptor's stop callback posts the continuation without checking that the accept still waits
  (`AcceptorOutcomes.PostedOnceExactlyWhen`, `AcceptorOutcomes.PostedTwice`).
- A departing device removes the first stored device with its triplet. A departed device stays in the store exactly
  when it leaves while another with its triplet was stored before it (`AcceptorOutcomes.CurrentExactlyWhen`); that
  cannot happen while attached devices differ (`AcceptorOutcomes.NoDepartedDevice`), and for a whole fleet it never
  happens exactly when no two of its devices share a triplet (`AcceptorOutcomes.NoDepartedDeviceExactlyWhen`).

## Assumptions

A callback is atomic with respect to other callbacks and to one iteration of the submission loop, as with the
supplied single-threaded handlers. libusb calls back once per accepted submission, with an actual length of at most
the submitted one. The transfers of a view are distinct; an operation has at least one transfer and one buffer; the
limit is at least one and fits in an `int`. Buffers are assumed disjoint only where the theorem says so. A
`std::error_code` is its value and category; it is set when the value is not zero. `size_t` fields are unbounded
naturals; `CompleteTheorems.CountersNeverWrap` and `HandlerRefs.NeverUnderflows` show that they neither underflow nor
exceed what the buffers and the live references account for. The narrowing of a buffer size to
`libusb_transfer::length` in the partial engine is modelled as it is; if libusb accepts a negative length, that
submission completes, with any status and no bytes.

`Shutdown.NoLostCompletion` and `Shutdown.ExitIsFinal` assume that no reference is taken from the service after the
loop has exited; not taking one after a stop request implies it. An I/O object runs one operation at a
time; it is neither destroyed while its operation is in progress nor moved, and only it uses its reference. The
acceptor's hotplug events may come at any time, also before `listen` and after `shutdown`, which allows more runs than
libusb does; the runs that are given as failures start with `listen`.

## Model

| member | source | states |
|---|---|---|
| CompleteFill.FillsExactlyWhen | include/co_usb/transfer/detail/complete_sequence_awaitable.hpp:105-149 | for every operation and kind of device: all error-free resumptions have filled every buffer if and only if each buffer beyond the number of transfers, with a non-empty one before it, cannot be left short by one completion |
| CompleteFill.FillsWhenNotReused | include/co_usb/transfer/complete_io.hpp:75-89 | the promise holds when there is a transfer for every buffer, with any device and limit, and when all buffers are within the limit and the device never falls short |
| CompleteFill.TransfersUsed | include/co_usb/transfer/complete_io.hpp:75-76 | an operation uses no more transfers than there are buffers or transfers, and as many as that allows |
| CompleteFill.HarmfulRun | include/co_usb/transfer/detail/complete_sequence_awaitable.hpp:119-138 | from any buffer before and any buffer that can be left short, a run that resumes without an error and leaves that buffer short |
| CompleteTheorems.ShortReadWithoutError | include/co_usb/transfer/detail/complete_sequence_awaitable.hpp:126-131 | the smallest error-free short read: two buffers of two bytes, one transfer |
| CompleteTheorems.ReuseGuarantee | include/co_usb/transfer/detail/complete_sequence_awaitable.hpp:106-138 | on any error-free resumption each buffer got at least its size less what its transfer had moved before, at most its size, in consecutive chunks from its start, and exactly its size if it is among the first, one per transfer |
| CompleteTheorems.FilledTotal | include/co_usb/transfer/detail/complete_sequence_awaitable.hpp:214-222 | on an error-free resumption the reported total is the sum of the sizes if and only if every buffer was filled |
| CompleteTheorems.ExactlyOnceResumption | include/co_usb/transfer/detail/complete_sequence_awaitable.hpp:64-81 | in every reachable state in_flight counts pending transfers and those not yet accepted; the continuation was posted at most once, and exactly when all were accepted and none is pending |
| CompleteTheorems.ResumableExactlyWhen | include/co_usb/transfer/detail/complete_sequence_awaitable.hpp:198-211 | a reachable state can still be resumed by some events if and only if no initial submission was refused |
| CompleteTheorems.RefusedForever | include/co_usb/transfer/detail/complete_sequence_awaitable.hpp:203-209 | after a refused initial submission no run posts the continuation |
| CompleteTheorems.ReportedResult | include/co_usb/transfer/detail/complete_sequence_awaitable.hpp:71-118 | a resumed operation reports the first failure of its completion log, with that record's status in the transfer status category or its refused resubmission's answer in the usb error category, and the bytes of the log up to and including it |
| CompleteTheorems.LogIsHistory | include/co_usb/transfer/detail/complete_sequence_awaitable.hpp:60-150 | the log holds every completion and refusal of the run, in order |
| CompleteTheorems.SubmissionWithin | include/co_usb/transfer/detail/complete_sequence_awaitable.hpp:119-138 | every transfer in flight covers a range inside the buffer it holds, within the limit, and empty only for an empty buffer; one whose kept total exceeds its buffer starts at the buffer's start |
| CompleteTheorems.SubmissionLength | include/co_usb/transfer/detail/complete_sequence_awaitable.hpp:119-138 | a transfer in flight asks for the bytes right after those its buffer has received, and for as much as is left and the limit allows; what it moved before is missing from what is left, except right after it took the buffer |
| CompleteTheorems.SubmissionsDisjoint | include/co_usb/transfer/detail/complete_sequence_awaitable.hpp:119-138 | no two transfers in flight hold the same buffer or, in disjoint buffers, share a byte |
| CompleteTheorems.CountersNeverWrap | include/co_usb/transfer/detail/complete_sequence_awaitable.hpp:35-58 | in_flight stays between zero and the number of transfers and no total exceeds the sum of the buffer sizes |
| CompleteTheorems.Affinity | include/co_usb/transfer/complete_io.hpp:30-32 | an event claims at most the next buffer, for the completing transfer only, and only when nothing is left of the one it held; earlier claims keep their transfer |
| CompleteTheorems.Partition | include/co_usb/transfer/detail/complete_sequence_awaitable.hpp:119-138 | while no error is recorded each claimed buffer is held by its own transfer alone or is finished |
| CompleteTheorems.DrainsAfterError | include/co_usb/transfer/detail/complete_sequence_awaitable.hpp:72-81 | after a recorded error no callback submits, claims or counts; at most in_flight more run, and the last of them resumes |
| CompleteTheorems.CancellationResumes | include/co_usb/transfer/complete_io.hpp:75-89 | after any cancelled completion, also one that arrives during the submission loop, at most in_flight - 1 callbacks follow and the operation is resumed after exactly that many; its error is the cancellation or one that came before, unless a later submission was refused, and then it is not resumed |
| CompleteTheorems.StopEffectiveExactlyWhen | include/co_usb/transfer/complete_io.hpp:77-85 | with the cancellations honoured, every resumption after a stop comes with an error if and only if a transfer was pending when it fired or an error had been recorded |
| CompleteLog.StepLogInv | include/co_usb/transfer/detail/complete_sequence_awaitable.hpp:60-150 | every event keeps the invariant that ties all fields to the completion log: counts, claims, chunk positions, totals and error |
| CompleteLog.TotalPreserved | include/co_usb/transfer/detail/complete_sequence_awaitable.hpp:105-118 | every event keeps the sum of the per-transfer totals equal to the bytes of the log up to the first error |
| CompleteTermination.CallbackBound | include/co_usb/transfer/detail/complete_sequence_awaitable.hpp:119-149 | if non-empty successful completions move at least one byte, any run has at most as many callbacks as the sum of the sizes plus the number of empty buffers |
| CompleteTermination.BoundedExactlyWhen | include/co_usb/transfer/detail/complete_sequence_awaitable.hpp:119-149 | for every operation and kind of device the number of callbacks is bounded over all runs, and then by the budget of one per byte plus one per empty buffer, if and only if completions may not be empty or all buffers are empty |
| CompleteTermination.UnboundedRun | include/co_usb/transfer/detail/complete_sequence_awaitable.hpp:133-138 | with possibly empty completions and a buffer that is not empty, at whatever position, a run with at least any given number of callbacks |
| CompleteTermination.Finish | include/co_usb/transfer/detail/complete_sequence_awaitable.hpp:139-149 | from every state of a running operation some completions resume it and add no error |
| CompleteEngine.StepInv | include/co_usb/transfer/detail/complete_sequence_awaitable.hpp:60-150 | every enabled event keeps the engine's invariant |
| CompleteAwaitable.CompleteSequenceAwaitable.PrepareOrCancel | include/co_usb/transfer/detail/complete_sequence_awaitable.hpp:173-198 | a requested stop gives value 3 in the transfer status category and leaves the other fields and the transfers as they were; otherwise every transfer points to its own buffer, with as much of it as the limit allows, and in_flight is preset |
| CompleteAwaitable.CompleteSequenceAwaitable.SubmitNext | include/co_usb/transfer/detail/complete_sequence_awaitable.hpp:199-210 | one iteration of the submission loop takes the system's Accept or Refuse step and keeps the state reachable; a refusal records libusb's answer in the transfer status category |
| CompleteAwaitable.CompleteSequenceAwaitable.TransferCallback | include/co_usb/transfer/detail/complete_sequence_awaitable.hpp:60-150 | a callback takes the system's Complete step on the object's fields and keeps the state reachable; it records a failed status in the transfer status category and a refused resubmission in the usb error category, and never replaces an error |
| CompleteAwaitable.CompleteSequenceAwaitable.Refill | include/co_usb/transfer/detail/complete_sequence_awaitable.hpp:119-138 | points the transfer at the rest of its buffer, or at the next buffer with its total kept |
| CompleteAwaitable.CompleteSequenceAwaitable.AwaitResume | include/co_usb/transfer/detail/complete_sequence_awaitable.hpp:214-222 | in whatever order the map yields its entries, the total is the bytes of the history up to its first error; for a resumed operation the error is that first one; after an early stop the total is zero |
| CompleteAwaitable.CompleteSequenceAwaitable.CancelInUse | include/co_usb/transfer/complete_io.hpp:77-85 | the stop callback cancels exactly the transfers in use, in order; every transfer of the view that is pending is one of them |
| PartialTheorems.Coverage | include/co_usb/transfer/detail/sequence_awaitable.hpp:97-116 | on an error-free resumption every buffer was completed exactly once, in exactly one callback each |
| PartialTheorems.CallbackBound | include/co_usb/transfer/detail/sequence_awaitable.hpp:86-116 | whatever the device does, a run has at most one callback per buffer |
| PartialTheorems.RunMeasure | include/co_usb/transfer/detail/sequence_awaitable.hpp:56-116 | unclaimed buffers plus transfers in flight fall with every callback and bound those to come |
| PartialTheorems.TotalWithinSizes | include/co_usb/transfer/detail/sequence_awaitable.hpp:84-87 | in every run the total is at most the sum of the buffer sizes |
| PartialTheorems.ExactlyOnceResumption | include/co_usb/transfer/detail/sequence_awaitable.hpp:49-68 | in every reachable state in_flight counts pending transfers and those not yet accepted; the continuation was posted at most once, and exactly when all were accepted and none is pending |
| PartialTheorems.ReportedResult | include/co_usb/transfer/detail/sequence_awaitable.hpp:56-96 | a resumed operation reports the first failure of its log, with that record's status in the transfer status category or its refused resubmission's answer in the usb error category, and the bytes up to and including it |
| PartialTheorems.LogIsHistory | include/co_usb/transfer/detail/sequence_awaitable.hpp:45-117 | the log holds every completion and refusal of the run, in order |
| PartialTheorems.SubmissionWithin | include/co_usb/transfer/detail/sequence_awaitable.hpp:102-106 | every transfer covers a prefix of its own buffer, of the size taken modulo 2 to the 32 into the range of an int, which is the whole of it if and only if the size fits |
| PartialTheorems.SubmissionsDisjoint | include/co_usb/transfer/detail/sequence_awaitable.hpp:102-106 | no two transfers hold the same buffer or, in disjoint buffers, share a byte |
| Usb.NarrowingIsModular | include/co_usb/transfer/detail/sequence_awaitable.hpp:105-106 | a size_t stored in libusb's int length keeps its value modulo 2 to the 32 and lands in the range of an int |
| PartialTheorems.BytesInPlace | include/co_usb/transfer/detail/sequence_awaitable.hpp:102-106 | in every reachable state each completion's bytes went to the start of its buffer, at most its size, and no buffer was completed twice |
| PartialTheorems.DrainsAfterError | include/co_usb/transfer/detail/sequence_awaitable.hpp:57-68 | after a recorded error at most in_flight more callbacks run, none submits or counts, the last of them resumes, and the error stays unless a submission is refused |
| PartialTheorems.CancellationResumes | include/co_usb/transfer/partial_io.hpp:80-92 | after any cancelled completion at most in_flight - 1 callbacks follow and the operation is resumed after exactly that many, with the cancellation or an earlier error, unless a later submission was refused |
| PartialTheorems.StopEffectiveExactlyWhen | include/co_usb/transfer/partial_io.hpp:81-89 | with the cancellations honoured, every resumption after a stop comes with an error if and only if a transfer was pending when it fired or an error had been recorded |
| PartialTheorems.RefusedForever | include/co_usb/transfer/detail/sequence_awaitable.hpp:161-168 | after a refused initial submission no run posts the continuation |
| PartialTheorems.ResumableExactlyWhen | include/co_usb/transfer/detail/sequence_awaitable.hpp:157-169 | a reachable state can still be resumed by some events if and only if no initial submission was refused |
| PartialTheorems.Finish | include/co_usb/transfer/detail/sequence_awaitable.hpp:97-116 | from every state of a running operation some completions resume it and add no error |
| PartialAwaitable.SequenceAwaitable.PrepareOrCancel | include/co_usb/transfer/detail/sequence_awaitable.hpp:135-157 | a requested stop gives value 3 in the transfer status category and leaves the other fields and the transfers as they were; otherwise every transfer points to its own buffer, with its size narrowed to an int, and in_flight is preset |
| PartialAwaitable.SequenceAwaitable.SubmitNext | include/co_usb/transfer/detail/sequence_awaitable.hpp:158-169 | one iteration of the submission loop takes the system's Accept or Refuse step and keeps the state reachable; a refusal records libusb's answer in the transfer status category |
| PartialAwaitable.SequenceAwaitable.TransferCallback | include/co_usb/transfer/detail/sequence_awaitable.hpp:45-117 | a callback takes the system's Complete step on the object's fields and keeps the state reachable; it records a failed status in the transfer status category and a refused resubmission in the usb error category, and never replaces an error |
| PartialAwaitable.SequenceAwaitable.AwaitResume | include/co_usb/transfer/detail/sequence_awaitable.hpp:173-176 | the total is the bytes of the history up to its first error; for a resumed operation the error is that first one |
| PartialAwaitable.SequenceAwaitable.CancelInUse | include/co_usb/transfer/partial_io.hpp:81-89 | the stop callback cancels exactly the transfers in use, in order; every transfer of the view that is pending is one of them |
| Flight.PostedOnce | include/co_usb/transfer/detail/sequence_awaitable.hpp:49-68 | the counting that both engines share: in_flight is the pending transfers plus those not accepted, and the continuation was posted exactly when both are none |
| Simulation.Lockstep | include/co_usb/transfer/detail/sequence_awaitable.hpp:86-116 | with buffers within the limit and full completions, both engines allow the same event sequences and reach the same submissions, error, posts, history and total |
| SequenceView.SubmissionLoopInsideExactlyWhen | include/co_usb/transfer/sequence_view.hpp:43-56 | a loop from begin() to end() + n stays on the view's transfers if and only if the view has n of them |
| SequenceView.CancelView | include/co_usb/transfer/operations.hpp:28-36 | cancel_transfer on a sequence_view cancels nothing, whatever the view is over, so it is complete only for an empty view |
| SequenceView.CancelFirst | include/co_usb/transfer/partial_io.hpp:81-89 | the stop callbacks' loop over single transfers cancels exactly the first ones of the view, in order |
| SequenceView.CancelTransfer | include/co_usb/transfer/operations.hpp:28-36 | cancels exactly the transfers of the range it is given, in order |
| HandlerRefs.AccountedExactlyWhen | include/co_usb/ev/event_handler_ref.hpp:39-99 | over any operations on any references and handlers, a counter equals its live references if and only if no assignment from another handler overwrote one, and is never less |
| HandlerRefs.RunExcess | include/co_usb/ev/event_handler_ref.hpp:46-56 | a counter exceeds its live references by exactly the number of forgotten releases |
| HandlerRefs.ForgottenRelease | include/co_usb/ev/event_handler_ref.hpp:46-56 | the smallest leak: one reference assigned from a second handler leaves the first one counted for ever |
| HandlerRefs.NeverUnderflows | include/co_usb/ev/event_handler_ref.hpp:64-74 | a released handler's counter is at least one, and copy assignment between references to one handler never lets its counter touch zero |
| ReferenceOrigins.PointsWhereTraced | include/co_usb/ev/event_handler_ref.hpp:39-99 | after any operations a reference is live and points to a handler exactly when copies and moves trace it back to one made from the handler and neither destroyed nor retargeted since; the counter is the number of those plus the forgotten releases |
| ReferenceOrigins.CopyKeeps | include/co_usb/ev/event_handler_ref.hpp:58-74 | after a copy or copy assignment the new owner has the old one's target, the old one keeps it, and no other reference changes |
| ReferenceOrigins.MoveTakes | include/co_usb/ev/event_handler_ref.hpp:76-94 | after a move or move assignment the new owner has the old one's target, the old one is null, onto itself nothing changes, and no other reference changes |
| ReferenceOrigins.LiveChanges | include/co_usb/ev/event_handler_ref.hpp:39-99 | a handler gains a live reference by a construction or assignment from it and by a copy, none by a move, and loses one by destroying or assigning over |
| EventHandlerRef.SoundMeansReleasable | include/co_usb/ev/event_handler_ref.hpp:124-131 | in every accounted world each reference may be released |
| EventHandlerRef.Handler.ShouldExit | include/co_usb/ev/handlers.hpp:129-133 | the loop's test on the counter succeeds if and only if a stop was requested, no reference points to the handler and no release was forgotten |
| EventHandlerRef.Reference.CopyOf | include/co_usb/ev/event_handler_ref.hpp:58-62 | copy construction takes the accounting step: both references have the old target, whose counter grows by one |
| EventHandlerRef.Reference.FromHandler | include/co_usb/ev/event_handler_ref.hpp:39-44 | construction from a handler takes the accounting step: the reference points to it and its counter grows by one |
| EventHandlerRef.Reference.MovedFrom | include/co_usb/ev/event_handler_ref.hpp:76-80 | move construction takes the accounting step: the new reference has the old target and the old one is null |
| EventHandlerRef.Reference.AssignHandler | include/co_usb/ev/event_handler_ref.hpp:46-56 | assignment from a handler takes the accounting step, which forgets the old target: the reference points to the handler, counted once more unless it did before |
| EventHandlerRef.Reference.CopyAssign | include/co_usb/ev/event_handler_ref.hpp:64-74 | copy assignment, self-assignment included, takes the accounting step: both references have the other's old target |
| EventHandlerRef.Reference.MoveAssign | include/co_usb/ev/event_handler_ref.hpp:82-94 | move assignment, self-assignment included, takes the accounting step: the reference has the other's old target, and another one is left null |
| EventHandlerRef.Reference.Destroy | include/co_usb/ev/event_handler_ref.hpp:96-99 | destruction takes the accounting step: the target's counter falls by one |
| Shutdown.NoLostCompletion | include/co_usb/ev/handlers.hpp:116-143 | in every state reached without a reference from the service after the exit: while an operation, complete or partial, is in progress the event loop has not exited and its handler's counter is at least one, so every event of the operation can happen |
| Shutdown.ExitIsFinal | include/co_usb/ev/handlers.hpp:129-133 | after an exit that left no reference, and unless the service gives one, no reference to the handler is live and no I/O object exists, for ever |
| Shutdown.ServedExactlyWhen | include/co_usb/ev/detail/handler_service.hpp:188-191 | in every state of a run whoever has a reference has a running loop, if and only if the run takes no reference from the service after the exit |
| Shutdown.StopRuleSuffices | include/co_usb/ev/detail/handler_service.hpp:177-191 | a run that takes no reference from the service after a stop request takes none after the exit |
| Shutdown.LateOpenSafeExactlyWhen | include/co_usb/transfer/partial_io.hpp:64-67 | after a stop request, opening an I/O object right after the loop's test is safe if and only if a reference is live already or a release was forgotten |
| Shutdown.LostCompletion | include/co_usb/ev/detail/handler_service.hpp:245-260 | the shortest loss: stop, exit, open, submit one byte; the transfer is pending and the operation waits in every continuation |
| Shutdown.StrandedForever | include/co_usb/ev/handlers.hpp:116-135 | an operation not resumed when the loop has exited is never resumed, and its pending transfers stay pending |
| Shutdown.RefusedKeepsLoop | include/co_usb/transfer/detail/complete_sequence_awaitable.hpp:203-209 | an operation with a refused initial submission stays in progress in every run, and the loop never exits |
| Shutdown.ExitsExactlyWhen | include/co_usb/ev/handlers.hpp:129-133 | the loop's test succeeds if and only if a stop was requested, no reference is live and no release was forgotten |
| Shutdown.ForgottenReleaseKeepsLoop | include/co_usb/ev/event_handler_ref.hpp:46-56 | after a forgotten release the loop never exits |
| Shutdown.OperationCanResume | include/co_usb/transfer/partial_io.hpp:54-67 | while the loop runs, whatever has happened, a stop request included, an operation with no refused initial submission can be brought to its resumption by its own events |
| Shutdown.ActInv | include/co_usb/transfer/partial_io.hpp:64-67 | every action keeps the system's invariant: sound counters, one live reference per I/O object, valid operations, and an exit only after a stop request |
| OrderlyExit.CanExitExactlyWhen | include/co_usb/ev/handlers.hpp:116-143 | while the loop runs, some actions lead to its exit if and only if no release was forgotten and no operation in progress has a refused initial submission |
| OrderlyExit.GiveUpAll | include/co_usb/ev/handlers.hpp:116-143 | the actions: every operation finishes by its own events and is resumed, every I/O object is closed, the references that no I/O object owned are destroyed, and a stop is requested; nothing is opened or started |
| OrderlyExit.CloseReleases | include/co_usb/ev/event_handler_ref.hpp:96-99 | closing an I/O object destroys its reference: one live reference and one count less, and no other reference or I/O object changes |
| OrderlyExit.OpenTakes | include/co_usb/transfer/partial_io.hpp:64-67 | opening an I/O object adds one counted live reference to the loop |
| OrderlyExit.StartsFresh | include/co_usb/transfer/complete_io.hpp:68-91 | a started operation is of the kind and configuration asked for, with nothing submitted yet |
| OrderlyExit.OthersUntouched | include/co_usb/transfer/partial_io.hpp:64-67 | an action leaves every other I/O object, its operation and its reference as they are |
| OrderlyExit.OperationsReachable | include/co_usb/transfer/partial_io.hpp:73-93 | whatever runs side by side, every operation in progress is in a reachable state of its own engine |
| AcceptorTheorems.Conservation | include/co_usb/hotplug/device_acceptor.hpp:125-149 | every arrival is stored, or the device of exactly one accept, or dropped; the three add up; no two accepts have the same device |
| AcceptorTheorems.NeverBoth | include/co_usb/hotplug/device_acceptor.hpp:254-265 | accepts wait only while nothing is stored, and the queue holds exactly the registered accepts not yet posted |
| AcceptorTheorems.FirstComeFirstServed | include/co_usb/hotplug/device_acceptor.hpp:139-147 | an arrival goes to the earliest registered accept not yet posted, and to the store only if there is none |
| AcceptorOutcomes.PostedOnceExactlyWhen | include/co_usb/hotplug/device_acceptor.hpp:178-194 | an accept is posted at most once if and only if its stop never fires after it was posted; then it ends with a device or a cancellation, never both, never neither |
| AcceptorOutcomes.PostedTwice | include/co_usb/hotplug/device_acceptor.hpp:181-191 | from the start: listen, an accept waits, its device arrives, its stop fires; it was posted twice and reports its device as a cancellation |
| AcceptorOutcomes.NeverOutnumbered | include/co_usb/hotplug/device_acceptor.hpp:125-143 | in every run, for every triplet, no more devices are stored than attached |
| AcceptorOutcomes.CurrentExactlyWhen | include/co_usb/hotplug/device_acceptor.hpp:125-135 | in every state of a run all stored devices are attached, if and only if no stored device leaves while another with its triplet was stored before it |
| AcceptorOutcomes.NoDepartedDevice | include/co_usb/hotplug/device_acceptor.hpp:125-135 | in every run whose attached devices have distinct triplets at each moment, no departed device can be accepted from the store |
| AcceptorOutcomes.NoDepartedDeviceExactlyWhen | include/co_usb/hotplug/device_acceptor.hpp:44-46 | in all runs of a fleet every stored device is attached, if and only if no two of its devices share a triplet |
| AcceptorOutcomes.ConcreteMatchIsEquality | include/co_usb/wrapper/device_triplet.hpp:33-50 | on triplets from descriptors the wildcard comparison is equality |
| DeviceTriplet.TripletsDiffer | include/co_usb/wrapper/device_triplet.hpp:46-50 | descriptors have the same triplet exactly when they agree on vendor, product and class |
| DeviceTriplet.MatchMeansCommonDevice | include/co_usb/wrapper/device_triplet.hpp:33-44 | two filters match exactly when some device passes both, and a device's triplet matches exactly the filters that admit it |
| AcceptorStore.TakesNewest | include/co_usb/hotplug/device_acceptor.hpp:232-242 | an accept that looks into a store with devices gets the arrival that is the newest of the stored ones; the others stay stored in order and nothing else changes |
| AcceptorStore.WaitsLast | include/co_usb/hotplug/device_acceptor.hpp:260-265 | with nothing stored, a suspending accept waits behind all others, without a result |
| AcceptorStore.StoppedBefore | include/co_usb/hotplug/device_acceptor.hpp:247-252 | a stop requested before the suspension cancels the accept, which takes no device and is not queued |
| AcceptorStore.StopTakesOne | include/co_usb/hotplug/device_acceptor.hpp:178-194 | the stop callback cancels and posts a registered accept and takes it alone out of the queue; store and other accepts stay |
| AcceptorStore.LeaveTakesFirst | include/co_usb/hotplug/device_acceptor.hpp:125-135 | a departure takes out the device stored first among those with its vendor, product and class, and nothing if there is none; the others stay in order |
| AcceptorStore.DroppedOnlyBy | include/co_usb/hotplug/device_acceptor.hpp:125-135 | a stored arrival is dropped only by a listening acceptor's shutdown or by the departure of a device with its vendor, product and class, which drops no other |
| AcceptorStore.Settled | include/co_usb/hotplug/device_acceptor.hpp:125-149 | once an arrival is handed over or dropped, no run changes that |
| AcceptorStore.ShutdownEmpties | include/co_usb/hotplug/device_acceptor.hpp:68-89 | a listening acceptor's shutdown drops every stored device and cancels and posts every waiting accept once; any other shutdown changes nothing |
| AcceptorStore.StoredExactlyWhileAttached | include/co_usb/hotplug/device_acceptor.hpp:40-51 | in every run without a shutdown whose attached devices differ at each moment, an arrival that no accept got is stored if and only if its device has not left since |
| Acceptor.StepInv | include/co_usb/hotplug/device_acceptor.hpp:117-150 | every section keeps the acceptor's invariant |
| HotplugAcceptor.DeviceAcceptor.OnArrived | include/co_usb/hotplug/device_acceptor.hpp:136-148 | the arrival section takes its step: with nobody waiting the device is stored last with its vendor, product and class, else the first waiting accept gets it and is posted |
| HotplugAcceptor.DeviceAcceptor.OnLeft | include/co_usb/hotplug/device_acceptor.hpp:125-135 | the departure section takes its step: the first stored device with the descriptor's vendor, product and class is erased, and nothing if there is none |
| HotplugAcceptor.DeviceAcceptor.FindStored | include/co_usb/hotplug/device_acceptor.hpp:128-130 | the search yields the first stored device that matches, or the end |
| HotplugAcceptor.DeviceAcceptor.AwaitReady | include/co_usb/hotplug/device_acceptor.hpp:232-242 | the ready check takes its step: with devices stored the accept gets the newest and the others stay, else it gets none |
| HotplugAcceptor.DeviceAcceptor.AwaitSuspend | include/co_usb/hotplug/device_acceptor.hpp:244-266 | the suspension takes its step: a requested stop cancels the accept, a stored device gives it the newest, and else it waits behind all others |
| HotplugAcceptor.DeviceAcceptor.StopAccept | include/co_usb/hotplug/device_acceptor.hpp:178-194 | the stop callback takes its step: it cancels and posts a registered accept and takes it, and no other, out of the queue if it is there |
| HotplugAcceptor.DeviceAcceptor.ShutDown | include/co_usb/hotplug/device_acceptor.hpp:68-89 | shutdown, taken as one section, takes its step: every waiting accept is cancelled and posted once, queue and store are empty; without a handle nothing changes |

## Left out

- libusb, Capy, coroutine frames, threads and memory resources: outside the repository; they appear as events and as a count of posted continuations.
- Several event threads running callbacks at once: the engines' plain fields assume a single one.
- Isochronous transfers: their error code comes from a packet and can be zero for a failed transfer; only the other transfer types are modelled.
- `handler_service` beyond being the source of references, stop and join; restarting it after `emplace_handler` does nothing, because `m_started` is not reset.
- Shutdown.NoLostCompletion: not claimed for runs that take a reference from the service after the exit, where it is false (Shutdown.LostCompletion).
- HotplugAcceptor.DeviceAcceptor.ShutDown: taken as one atomic section, although the code unlocks between two accepts.
- Operations without buffers, which `await_ready` resumes at once with nothing, or without transfers, which complete I/O asserts against and for which partial I/O waits for ever.
- `close`, `bind` and the filter of the acceptor: they set a field or forward to libusb.
- The race in `accept` between the stop check and the registration: no claim that a stop arriving there is noticed.
- `device_ref`, `device_handle`, `interface`, `driver_guard`, `any_event_handler`: ownership wrappers that would repeat the reference accounting in an easier form.
- Endpoints, flags, error categories' messages, error protocols, prefill functions, one-shot hotplug: forwarding or single-branch code.
