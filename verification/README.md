# Verification of libusbp's transfers, errors and searches

This project models, in Dafny, the parts of libusbp whose correctness cannot be seen
in one function, and proves what they promise.

**Asynchronous IN pipes.** Any number of pipes share one generic handle. Each has a
ring of transfers, each transfer a request block that the kernel may hold. There are
two models. `PipeModel` is a state machine on values: a world is all pipes ever opened
on the handle, and a step is a call of the library or a move of the kernel (accept or
refuse a submission, complete any request that is in flight, hand out any finished
one). `AsyncInTransfer` and `AsyncInPipe` have the objects of the C code: transfers and
pipes that are updated in place, the handle, the kernel's side of the device node, and
the heap. Each method is proved to take exactly a step of the state machine, and the
validity of the handle includes that its world can be reached by a run and that exactly
the blocks of that world are allocated. `PipeInvariant` has the invariant that every
step keeps, `PipeTheorems` what follows for all runs, `PipeOperations` what each call and
each move of the kernel does to submissions and deliveries, `PipeMemory` which blocks are
allocated in a world and what closing a pipe leaves, `RefusedData` with which bytes a
refused submission is delivered. Assertions of the C code, and touching freed memory, set
a flag in the state machine (`failed`) that is proved never to be set; in the objects
they are preconditions, met at every call.

**Errors under allocation failure.** `ErrorModel` says what each operation on an error
yields for every pattern of allocation failures: an oracle lists which of the coming
allocations fail. `ErrorObjects` has the C code on memory, with blocks that are
allocated and freed, static errors, copy on write and messages assembled in place;
the methods compute the functions of `ErrorModel` and say exactly which blocks are live
afterwards, for one call and for any sequence of calls. `LinuxErrors` has the conversion
of errno values and request statuses.

**Backends.** `Backends` has one automaton for a transfer. Whatever calls are made, a
macOS or Windows transfer is in a state that a run of the automaton leads to;
`LinuxBackend` proves the same for every transfer of every pipe on every run of the pipe
model.

**Searches and owned data.** `SerialPortMac`, `CompositeSearch` and `UdevSearch` prove
search loops against declarative specifications, with every handle and reference
accounted for. `DeviceList` has the growing list of devices and the search in it,
`HardwareIds` the walk over a multi-string from the Windows registry. `Ledgers` has the
account of blocks, handles and references that they share with the pipes.

A finding: on Linux nothing resets the byte count of a transfer when it is submitted, so
a submission that is refused is delivered, with its error, with the bytes delivered one
round of the ring before. `RefusedData.StaleBytesAreDelivered` is a run in which that
happens, `RefusedData.RefusedDataExactly` says for all runs which bytes are delivered and
exactly when there are none.

The promise about errors has a boundary that no machine reaches: a code added to an error
that already has SIZE_MAX / 4 codes is dropped. `ErrorModel.CompleteExactly` says exactly
when a history is complete if no allocation fails.

`dafny verify dfyconfig.toml` checks the project.

## Model

| member | source | states |
|---|---|---|
| PipeTheorems.MemoryIsSafe | src/linux/async_in_transfer_linux.c:77-142 | on every run of any pipes on a handle the kernel holds exactly the transfers whose flag is pending; none of these is freed or has an error stored, nothing is freed before its pipe is closed or twice, no stored error is overwritten, no assertion fails |
| PipeTheorems.RingIsQueue | src/async_in_pipe.c:174-311 | on every run the deliveries are a prefix of the submissions, each faithful to the fate of its own submission, and the window is the rest of the submissions in order, whatever order the kernel completes them in, across wrap-around, cancel and restart |
| PipeTheorems.RingIsConsistent | src/async_in_pipe.c:13-35 | on every run the indices are in range, next_submit is next_finish plus pending_count modulo the transfer count, and whatever the kernel holds is inside the window |
| PipeTheorems.EndlessMeansFull | src/async_in_pipe.c:200-205 | between calls, if endless transfers are enabled then every transfer is pending |
| PipeTheorems.CloseFreesOrLeaks | src/async_in_pipe.c:37-55 | close frees each transfer exactly once except those the kernel holds at that moment, and these are never freed whatever happens later |
| PipeTheorems.RunContinues | src/async_in_pipe.c:249-311 | along any run deliveries only grow, a settled fate never changes, and a closed pipe delivers, submits and frees nothing more |
| PipeTheorems.CancelledPipeDrains | src/async_in_pipe.c:301-320 | from any reachable world in which endless transfers are off for a pipe, on any run without a start of this pipe, nothing is submitted and pending_count falls by exactly the number of deliveries |
| PipeTheorems.DrainLoopEnds | src/async_in_pipe.c:276-311 | once the kernel has given back the window, finishing lowers pending_count by one each time and delivers them all |
| PipeOperations.CancelStops | src/async_in_pipe.c:301-343 | after a cancel, on any further run without a start of this pipe, endless transfers are off, nothing is submitted, and what is pending or delivered is what had been submitted before |
| PipeOperations.DeliveredExactly | src/linux/async_in_transfer_linux.c:144-174 | on every run a completed submission is delivered with as many bytes as the kernel reported, or a whole buffer if it reported more or a negative number, and they are the bytes that the kernel wrote, as far as it wrote that many |
| PipeOperations.DeliveredErrorExactly | src/linux/async_in_transfer_linux.c:96-142 | on every run a delivery has no error exactly if its request was good; otherwise the documented codes for the request status, or for the errno with which the submission was refused, or MEMORY |
| PipeOperations.AllocateAddsTransfers | src/async_in_pipe.c:113-172 | allocating gives this pipe that many transfers of that size, for its endpoint, none pending and each pointing to itself, and changes nothing else |
| PipeOperations.StartFills | src/async_in_pipe.c:187-208 | a start turns endless transfers on and submits every free transfer in order, each with the answer that the kernel gives, and delivers nothing |
| PipeOperations.FinishDelivers | src/async_in_pipe.c:249-311 | one transfer is delivered exactly if there is a submission not yet delivered and the kernel does not hold the transfer of the first of these; then one is submitted exactly if endless transfers are on; otherwise nothing changes |
| PipeOperations.CompleteSettles | src/linux/usbfd_linux.c:159-202 | what the kernel completes is an accepted submission that has this transfer by its number modulo the transfer count, and only this one is settled |
| PipeOperations.ReapGivesBack | src/linux/usbfd_linux.c:184-202 | reaping gives back the one transfer, with the reported length and the bytes written, and touches no other and no submission or delivery |
| PipeTheorems.Always | src/async_in_pipe.c:57-343 | every reachable world satisfies the invariant of all pipes |
| PipeInvariant.StepKeeps | src/async_in_pipe.c:57-343 | each call and each kernel step keeps the invariant of every pipe on the handle, not only of the one it is about |
| PipeInvariant.SubmitNextKeeps | src/async_in_pipe.c:174-185 | a submission finds room and a transfer that is neither pending nor freed, and keeps the ring in order |
| PipeInvariant.DeliverKeeps | src/async_in_pipe.c:291-303 | taking the next finished transfer appends its results to the deliveries and keeps ring, window and history in agreement |
| PipeInvariant.ResultsFaithful | src/linux/async_in_transfer_linux.c:144-174 | under any allocation failures a refused or bad transfer is delivered with an error, with the codes for its status or MEMORY, and a good one with none; for a completed transfer the byte count is the one the kernel reported, limited to the transfer size, and the bytes are those the kernel wrote as far as it wrote that many |
| RefusedData.RefusedDataExactly | src/linux/async_in_transfer_linux.c:96-166 | on every run a refused submission is delivered with exactly the bytes of the delivery one round of the ring before, or with none in the first round; so it comes without bytes if and only if it is in the first round or that delivery came without bytes |
| RefusedData.StaleBytesAreDelivered | src/linux/async_in_transfer_linux.c:96-166 | a run that delivers a byte, has the next submission refused because the device is gone, and delivers the same byte again with the error |
| PipeMemory.CloseLeavesOnlyHeld | src/async_in_pipe.c:37-55 | of a closed pipe nothing stays allocated but the struct, the buffer and the stored error of the transfers the kernel held when it was closed, whatever happens later |
| PipeInvariant.ReapIsRecognized | src/linux/generic_handle_linux.c:330-347 | a reaped request block belongs to a pending transfer that has not been freed; both error branches are dead |
| PipeInvariant.CompleteKeeps | src/linux/usbfd_linux.c:184-202 | the kernel may complete requests in any order without disturbing ring or history |
| AsyncInPipe.Handle.HeldExactlyIfPending | src/linux/async_in_transfer_linux.c:77-142 | the same for the objects: a transfer's flag is set exactly if the kernel has it in flight or finished, and then it has not been freed and stores no error |
| AsyncInPipe.Handle.AllocatedExactly | src/async_in_pipe.c:37-172 | what the validity of a handle, kept by every method, says about memory: exactly the struct and the array of each open pipe, and the struct, the buffer and the stored error of each transfer that was not freed, are allocated |
| AsyncInPipe.Handle.OpenAsyncInPipe | src/async_in_pipe.c:57-111 | opening succeeds exactly for an IN endpoint from 1 to 15 when the allocation succeeds, and adds one empty pipe for this endpoint and its block; otherwise nothing changes and nothing is left allocated, and a failed allocation is reported with MEMORY |
| AsyncInPipe.Pipe.AllocateTransfers | src/async_in_pipe.c:113-172 | all or nothing: it succeeds exactly if the arguments are good and none of its allocations fails; then the pipe has that many new transfers, none pending, and exactly the array and two blocks for each are newly allocated; otherwise pipe, handle and the set of allocated blocks are unchanged, and with good arguments the error has MEMORY |
| AsyncInPipe.Pipe.CreateTransfers | src/async_in_pipe.c:138-166 | the allocations succeed exactly if the array and both blocks of every transfer can be allocated; after a failure the set of allocated blocks is what it was before |
| AsyncInPipe.Pipe.FreeNewArray | src/async_in_pipe.c:37-46 | frees the array and both blocks of each transfer in it, each while it is allocated, and nothing else |
| AsyncInTransfer.Transfer.Create | src/linux/async_in_transfer_linux.c:18-75 | a transfer is made exactly if the size fits an int and both allocations succeed, pointing to itself and not pending, with two blocks allocated; otherwise no block is left |
| AsyncInTransfer.Transfer.Submit | src/linux/async_in_transfer_linux.c:96-111 | the error of the submission before is freed; an accepted transfer is pending without an error, a refused one is not pending and owns the new error |
| AsyncInTransfer.Transfer.HandleCompletion | src/linux/async_in_transfer_linux.c:113-142 | clears the flag and stores the error for the status and error count, where no error is stored that would be lost |
| AsyncInTransfer.Transfer.GetResults | src/linux/async_in_transfer_linux.c:144-174 | as many bytes of the buffer as the actual length says if it is neither negative nor larger than the buffer, otherwise the whole buffer, and a copy of the stored error |
| AsyncInTransfer.Transfer.Free | src/linux/async_in_transfer_linux.c:77-94 | frees the stored error, the buffer and the struct, each while it is allocated, unless the transfer is pending |
| AsyncInPipe.Pipe.SubmitNextTransfer | src/async_in_pipe.c:174-185 | the in-place submission is the submission step of the state machine |
| AsyncInPipe.Pipe.StartEndlessTransfers | src/async_in_pipe.c:187-208 | fails exactly without transfers; otherwise endless transfers are on and it is the start step, which fills the window |
| AsyncInPipe.Pipe.HandleFinishedTransfer | src/async_in_pipe.c:249-311 | it is the finish step; it reports a transfer exactly if one is finished, and what it gives out is what the history records as delivered, which PipeOperations.DeliveredExactly describes |
| AsyncInPipe.Pipe.CancelTransfers | src/async_in_pipe.c:313-343 | it is the cancel step and leaves endless transfers off; it fails exactly if the kernel refuses to discard some transfer for a reason other than that it is already finished, with the documented error for the first such refusal |
| AsyncInPipe.Pipe.Close | src/async_in_pipe.c:48-55 | it is the close step, which frees what is not pending; afterwards the array and the struct are not allocated, and of the rest what the validity of the handle says |
| AsyncInTransfer.Usbfd.SubmitUrb | src/linux/usbfd_linux.c:159-170 | a request is either in flight afterwards or refused with the documented error for the errno, in the context of submitting, or MEMORY, and nothing else changes |
| AsyncInPipe.Handle.HandleCompletedUrb | src/linux/generic_handle_linux.c:330-347 | fails exactly for a request block that points to no transfer, is not of bulk type or is not for an IN endpoint; otherwise the transfer it points to is completed |
| AsyncInPipe.Handle.TakeFinishedUrb | src/linux/usbfd_linux.c:184-202 | hands out a finished request of one of the handle's transfers, each at most once, or none exactly if none is finished, or fails with the documented error for the errno and changes nothing |
| AsyncInPipe.Handle.HandleEvents | src/linux/generic_handle_linux.c:349-380 | terminates even if more requests complete meanwhile: each request reaped leaves the kernel one fewer, and nothing else changes how many it holds; takes only completions and reaps of the model, for whichever pipe; an error comes out if and only if a reap fails, and is the documented one for its errno, so never from a request that was handed out, and otherwise nothing finished is left unreaped |
| ErrorModel.HistoryOrMemory | src/error.c:57-176 | for every sequence of operations and every pattern of allocation failures the error is the complete history of all of them, or of those since one failed on top of the static error that says so |
| ErrorModel.CompleteOrMemory | include/libusbp.h:114-120 | nothing is lost or the error has the MEMORY code |
| ErrorModel.MemorySticks | src/error.c:96-176 | once the MEMORY code is there, no later operation removes it |
| ErrorModel.NullExactly | src/error.c:55-104 | a null error comes out exactly if one went in and no operation creates one, whatever fails |
| ErrorModel.JoinAssociative | src/error.c:131-150 | joining messages with two spaces is associative |
| ErrorModel.JoinIdentity | src/error.c:131-132 | the empty message is its identity on both sides |
| ErrorModel.JoinIsSpaced | src/error.c:131-150 | adding messages one by one gives the non-empty ones, newest first, with two spaces between them |
| ErrorModel.CompleteExactly | src/error.c:160-176 | with no allocation failing, the history is complete if and only if all codes fit below the limit |
| ErrorModel.CodeDroppedAtLimit | src/error.c:164 | an error at the limit and a code whose addition leaves no trace |
| ErrorObjects.ErrorLibrary.Free | src/error.c:45-53 | frees exactly what the error owns, each block while it is live; static errors own nothing |
| ErrorObjects.ErrorLibrary.Copy | src/error.c:57-91 | computes the copy of the model; afterwards exactly the blocks of the result are new, so a failure leaves none behind |
| ErrorObjects.ErrorLibrary.NewError | src/error.c:68-90 | three allocations are always attempted; the result is a complete new error, or null with nothing left, exactly if one that is needed failed |
| ErrorObjects.ErrorLibrary.MakeMutable | src/error.c:96-104 | the result is the error given if it is mutable, otherwise a new one or the masked one; static errors are not written |
| ErrorObjects.ErrorLibrary.AddText | src/error.c:109-155 | computes the addition of the model; the input is freed or handed back, exactly once, and no other block is left on any path |
| ErrorObjects.ErrorLibrary.JoinedMessage | src/error.c:116-150 | a mutable error always has a heap message, so the literal that stands for a missing one never reaches free; the new block holds the joined message |
| ErrorObjects.AssembleMessage | src/error.c:142-150 | the three writes stay inside message_length + 1 bytes and leave the outer text, the separator and the inner message as one C string that fills the block |
| ErrorObjects.ErrorLibrary.AddCode | src/error.c:160-176 | computes the addition of the model with exact ownership, like AddText |
| ErrorObjects.ErrorLibrary.CallAll | src/error.c:45-176 | for any sequence of calls and any allocation failures: the error is the one of the model, and of all blocks ever allocated in the calls, and of what the error owned before, exactly what it owns at the end is left |
| ErrorObjects.Memory.ReallocCodes | src/error.c:166-173 | the contract of realloc that the code relies on: the old block stays on failure and is replaced on success |
| ErrorObjects.ErrorLibrary.HasCode | src/error.c:198-210 | tells exactly whether the code is one of the error's codes |
| ErrorObjects.CStringUnique | src/error.c:63 | a block holds one C string only |
| ErrorObjects.Strlen | src/error.c:131 | finds the string at the start of a block without leaving it |
| ErrorObjects.ErrorLibrary.CreateErrno | src/linux/error_linux.c:7-85 | building the error step by step yields the error of the model, owns everything allocated, and leaves nothing else behind |
| ErrorObjects.ErrorLibrary.SwitchOnErrno | src/linux/error_linux.c:13-63 | each case of the switch adds its text and codes |
| LinuxErrors.ErrnoDocumented | test/error_message_test.cpp:175-330 | under any allocation failures the error has exactly the codes and the message documented for the errno, or MEMORY; if none fails it has these codes and this message, for ENOMEM too |
| LinuxErrors.CompletionErrorExactly | src/linux/async_in_transfer_linux.c:122-141 | a completion yields an error if and only if its status or its error count is not zero, whatever allocations fail |
| LinuxErrors.CompletionErrorDocumented | src/linux/error_linux.c:87-111 | the error of a bad completion has exactly the codes and the message for its status and error count, with the context, or MEMORY; if no allocation fails it has these codes and this message |
| LinuxErrors.SubmitErrorDocumented | src/linux/usbfd_linux.c:159-170 | a refused submission is reported with the codes and the message documented for the errno, in the context of submitting, or MEMORY; if no allocation fails with these codes and this message |
| LinuxErrors.UnpluggedMessage | src/linux/error_linux.c:33-37 | the very message and the one code that a refusal because the device is gone gives when no allocation fails |
| LinuxErrors.DecimalIsRight | src/linux/error_linux.c:10 | the number in a message reads back as the errno |
| LinuxErrors.SubmitErrorNonNull | src/linux/usbfd_linux.c:159-170 | a refused submission always yields an error |
| Backends.EachSubmitEndsOnce | src/linux/async_in_transfer_linux.c:96-142 | in every state that a run of the automaton leads to, each submission has ended at most once and all but the pending one have, and while one is pending no error is stored |
| Backends.ResultIsFixed | src/windows/async_in_transfer_windows.c:209-239 | along any run of the automaton without a submission, what is not pending does not change |
| Backends.SubmitsAreCounted | src/linux/async_in_transfer_linux.c:96-111 | the count of submissions never falls along a run of the automaton and stays exactly if there is none |
| Backends.RunExactly | src/mac/async_in_transfer_mac.c:14-136 | after any run of the automaton from the start the counters are the numbers of events that submit and that end a submission, a transfer is pending exactly if more were submitted than ended, and the result is the one of the last event that is not a look |
| LinuxBackend.LinuxEndsOnce | src/linux/async_in_transfer_linux.c:96-142 | on every run of any pipes every transfer is in a state that a run of the automaton leads to, so each of its submissions ends at most once, and while it is pending it stores no error |
| LinuxBackend.LinuxResultStays | src/linux/async_in_transfer_linux.c:96-174 | along every run, whatever its pipe and the others do, the submissions of a transfer are counted, and once it has ended its error, byte count and bytes stay until its own next submission |
| Backends.LinuxRefines | src/linux/async_in_transfer_linux.c:96-111 | the Linux submission is a step of the automaton |
| Backends.LinuxCompletionRefines | src/linux/async_in_transfer_linux.c:113-142 | the Linux completion is a step of the automaton |
| Backends.MacTransfer.EndsOnce | src/mac/async_in_transfer_mac.c:14-136 | after any calls and callbacks each submission has ended at most once, and while one is pending no error is stored |
| Backends.MacTransfer.ResultStays | src/mac/async_in_transfer_mac.c:14-136 | between any two moments without a submission a transfer that is not pending keeps its byte count and error |
| Backends.WinTransfer.EndsOnce | src/windows/async_in_transfer_windows.c:53-239 | after any calls each submission has ended at most once, and while one is pending no error is stored |
| Backends.WinTransfer.ResultStays | src/windows/async_in_transfer_windows.c:53-239 | between any two moments without a submission a transfer that is not pending keeps its byte count and error |
| Backends.MacTransfer.Create | src/mac/async_in_transfer_mac.c:40-91 | a transfer is made exactly if the size is allowed and both allocations succeed; otherwise nothing is left allocated, and for an allowed size the error has MEMORY |
| Backends.MacTransfer.Free | src/mac/async_in_transfer_mac.c:100-116 | frees the stored error, the buffer and the struct, each once, unless the transfer is pending |
| Backends.MacTransfer.Submit | src/mac/async_in_transfer_mac.c:118-136 | the error of the submission before is freed; the macOS submission is a step of the automaton and resets the byte count; a refusal is reported with the number, the codes and the context, or MEMORY |
| Backends.MacTransfer.Callback | src/mac/async_in_transfer_mac.c:14-38 | the assertions of the callback hold; it is a completion of the automaton with the byte count given and, exactly if there is a failure, the error for it |
| Backends.MacTransfer.GetResults | src/mac/async_in_transfer_mac.c:138-169 | the assertion on the byte count holds; what is given out is the result of the automaton |
| Backends.WinTransfer.Create | src/windows/async_in_transfer_windows.c:87-157 | a transfer is made exactly if the size is allowed, both allocations succeed and there is an event; otherwise nothing is left allocated, and the error has MEMORY or says why there is no event |
| Backends.WinTransfer.Free | src/windows/async_in_transfer_windows.c:33-51 | frees the stored error, the event, the buffer and the struct, each once, unless the transfer is pending |
| Backends.WinTransfer.Submit | src/windows/async_in_transfer_windows.c:53-85 | the error of the submission before is freed; the Windows submission ends at once, is accepted or is refused, as the automaton allows, with the byte count written and the error for a refusal |
| Backends.WinTransfer.Pending | src/windows/async_in_transfer_windows.c:209-239 | a transfer that is not pending is not polled and does not change; an outcome of polling is a completion of the automaton with the byte count written and the error for a failure |
| Backends.WinTransfer.GetResults | src/windows/async_in_transfer_windows.c:159-189 | the byte count is the result's if it fits the buffer, otherwise the size of the buffer, with a copy of the error |
| Backends.PlatformErrorIsFailure | src/mac/async_in_transfer_mac.c:24-33 | reporting a failure of the system yields an error under any allocation failures: the context, what was added in between and the number, with all codes, or MEMORY; without failing allocations never MEMORY instead |
| SerialPortMac.CreateSerialPort | src/mac/serial_port_mac.c:9-137 | the first call that does not work decides; if all work, the first port that belongs to the interface, or an unreadable interface before it, or neither; every reference and the struct are released exactly once, each while it is held, except the struct of a port that was created |
| SerialPortMac.FindService | src/mac/serial_port_mac.c:66-116 | the loop computes the scan and keeps the reference to the service that it finds and no other |
| SerialPortMac.ScanFindsFirst | src/mac/serial_port_mac.c:66-116 | the scan finds the first port that belongs to the interface, by a definition that looks back over the nodes instead of keeping variables, unless an unreadable interface comes first |
| SerialPortMac.OneCreation | src/mac/serial_port_mac.c:9-137 | which outcome creating a port has, in terms of the calls and of the definition that looks back; it is the only one |
| SerialPortMac.PortsAreAttributed | src/mac/serial_port_mac.c:66-116 | for functions with distinct interface numbers, ACM or plain, with or without a port, in any number and order with unrelated nodes between them, the scan finds for an interface exactly the port it should, identified by its place among the ports, or ends without one |
| SerialPortMac.FunctionGetsItsPort | src/mac/serial_port_mac.c:66-116 | scanning for the control interface of an ACM function or for a plain interface finds the port of that very function if it has one; scanning for a data interface finds none |
| SerialPortMac.UnrelatedDoNotMatter | src/mac/serial_port_mac.c:76-108 | services of other classes do not change what is found |
| CompositeSearch.GetInterfaceComposite | src/windows/interface_windows.c:86-243 | the loop with restarts returns what one pass over the concatenation of the three lists decides, stated on the lists alone: the first entry wanted, or the first item that cannot be read, or neither; it destroys every handle it opened exactly once, except the one it hands to the caller |
| CompositeSearch.SearchExactly | src/windows/interface_windows.c:116-242 | an entry is found if and only if it is a child of the device whose number, after MI_ or else in an FTDIBUS ID, is the one asked for, and everything before it can be read and is not such a child; there is no result if and only if no entry is one; and each failure comes out if and only if its broken item is the first |
| CompositeSearch.FirstStopDecides | src/windows/interface_windows.c:116-242 | the one pass is decided by the first item that is not skipped |
| CompositeSearch.FoundIsRight | src/windows/interface_windows.c:180-240 | what is found is a child of the device with the interface number asked for |
| UdevSearch.GetInterface | src/linux/udev_linux.c:276-354 | the first entry that is the interface, or of which something needed cannot be read, decides, and every reference is dropped exactly once except the one to what is found, whatever fails |
| UdevSearch.GetTty | src/linux/udev_linux.c:358-431 | the same for the search for a tty |
| UdevSearch.FoundIsRight | src/linux/udev_linux.c:236-354 | the outcomes in terms of the entries: found, if and only if it is the first entry that is a USB interface with the number asked for below the device asked for and everything before it can be read; failed, if and only if an entry that cannot be opened or has no type, or an interface without number, or one with the number and without parent, comes first; not ready, if and only if there is neither |
| UdevSearch.FoundIsTty | src/linux/udev_linux.c:358-431 | the same for a tty: the search fails only at an entry that cannot be opened |
| UdevSearch.ExactlyOneOutcome | src/linux/udev_linux.c:298-353 | every enumeration has exactly one outcome |
| DeviceList.Append | src/list.c:27-51 | a list stays NULL-terminated with no NULL before, whether the append succeeds or not; the old array is freed exactly if a new one takes its place |
| DeviceList.CreateList | src/list.c:9-25 | a new list is empty and NULL-terminated |
| DeviceList.AddDevice | src/linux/list_linux.c:5-27 | a device that was created is in the list afterwards or has been freed |
| DeviceList.AddIfNeeded | src/linux/list_linux.c:29-81 | an entry adds one device exactly if it is an initialised USB device whose creation and append succeed; nothing else is left allocated, and the reference to the entry is dropped |
| DeviceList.ListConnectedDevices | src/linux/list_linux.c:83-165 | the list has exactly the initialised USB devices whose IDs can be read and for which there is memory, in order, as distinct devices; what is newly allocated is exactly the list and its devices, and every reference to udev is dropped, whatever fails |
| DeviceList.ListedExactly | src/linux/list_linux.c:29-165 | the listed IDs come from increasing places of the enumeration, each of an initialised USB device, and no such device is at any other place |
| DeviceList.FindDevice | src/find_device.c:26-73 | the first listed device with the IDs is returned, and null if there is none; of all that was allocated in the call exactly this device is left; the error from checking a device never happens |
| DeviceList.CheckVidPid | src/find_device.c:3-24 | matches exactly if both IDs are equal, and fails exactly for a null device |
| HardwareIds.CheckAndCapitalize | src/windows/device_windows.c:77-103 | accepts exactly the buffers that end with two NULs, and replaces in place each small letter by the capital at the same place of the alphabet and nothing else |
| HardwareIds.CapitalizationKeepsStructure | src/windows/device_windows.c:77-103 | capitalising keeps the terminators and capitalises the strings one by one |
| HardwareIds.StringsExactly | src/windows/device_windows.c:120-131 | the strings that the walk goes through are the only non-empty ones without NUL that, each followed by a NUL and all by one more, start the buffer |
| HardwareIds.Device.TakeInfo | src/windows/device_windows.c:110-135 | the walk ends, stays inside every buffer that passed the check, takes the IDs of the first string that parses, and fails exactly if none does |
| HardwareIds.FirstParsedIsFirst | src/windows/device_windows.c:120-134 | the first string that parses, in terms of positions |
| HardwareIds.ParseAt | src/windows/device_windows.c:120-131 | a string and the place after it lie inside the buffer, and the walk from here is decided by this string or else by the walk from there |

## Left out

- The bodies of ioctl, WinUSB, SetupAPI, IOKit, mach and libudev calls: they may succeed or fail in any way their contracts allow.
- The kernel is assumed not to write past a buffer, to complete only what it was given, and to hand out each finished request once.
- Formatting and parsing: a format yields some text without NUL, and a hardware ID parses or not; vsnprintf does not fail.
- The messages of some argument errors are not distinguished; invalid pipe IDs are told apart from valid ones, but the text with the number is not modelled.
- An error stored in a transfer is a value and one block of the pipes' heap; its parts, and errors handed to the caller, are accounted for in `ErrorObjects`.
- Transfer buffers are sequences in a field of the transfer, so the copying to the user's buffer is by value.
- Optional output pointers and NULL pipe arguments, which are checked and change nothing.
- `has_pending_transfers` and other getters: short reads of one field.
- AsyncInPipe.Handle.HandleEvents: the loop's early end at an error leaves finished requests for the next call, so what is said about nothing being left is said for success.
- PipeInvariant.ResultsFaithful: if the kernel reports more bytes than it wrote, nothing is said about the bytes beyond those it wrote.
- The pipe and the event loop of macOS and Windows above the transfer automaton; on these systems cancelling before transfers were allocated is not covered.
- Backends.WinTransfer.Pending: a failing poll may write any byte count, and it is kept as the code keeps it.
- The numbers of errno values are those of the Linux ABI; they are not in the repository.
- Overflow of message lengths, and a request status of INT_MIN, whose negation overflows.
- Errors of macOS and Windows calls: the codes added by their switches are arbitrary operations in the model.
- Creating a device from a udev entry, and the copies of its strings: it succeeds with the IDs or fails and leaves nothing.
- Opening and closing handles, timeouts, synchronous transfers, the search for non-composite interfaces, strings and serial numbers: short, or foreign calls one after the other.
- Threads and real time: calls and kernel steps interleave one at a time.
