# Liberation: exception RPC and breakpoints

A Dafny model, with proofs, of three parts of the debugging library and one loop.

* **The mach exception RPC.** The client stubs pack their arguments into one of three
  messages, two of them with two variable-length arrays laid out without gaps through a
  struct pointer that is slid backwards; the server checks such a message in 32-bit
  arithmetic, slides its own pointer, calls a handler and builds a reply of variable size;
  the client checks and unpacks it. `ExceptionMessages` says what a message is,
  `ExceptionServer` and `ExceptionClient` are the two halves, on arrays of 32-bit words. The
  main result, `ExceptionClient.MachExceptionRaiseState`, is that the remote call means the
  same as calling the handler directly, errors and the handler's effects included: a handler
  changes a state of any type, and that state comes out changed by one run of the handler on
  the caller's arguments if the request was served, and as it was if not.
* **Software breakpoints.** `TargetMemory`, `SoftwareBreakpoints`, `BreakpointRegistry` and
  `ExceptionHandling` model the memory of any number of processes, the three kinds of trap, the
  registry and the exception callback, each as functions on values, with the classes proved
  against them. `ExceptionService` joins them to the RPC, with the registry as the handler's
  state: any run of clients' calls and registry operations, in which the callback runs on the
  exceptions that the messages bring and on no others.
* **x86-64 hardware breakpoints.** `HardwareBreakpoints` models the allocation of debug
  register slots over a list of threads and the editing of DR7.
* **Memory regions.** `MemoryRegions` models the loop over a process's regions.

## What is assumed

* The stubs are compiled with `__MigTypeCheck` and `__MigPackStructs`, on a little-endian
  machine. An `int64_t` code is two words; a pointer into a message is a distance in words.
* `MachMessage.Arrives` is the whole of the kernel's part in a message: it stamps the size,
  swaps the ports and their bits, turns rights asked for into rights held (19 into 17, 21
  into 18) and carries port names over unchanged. `mach_msg` may also fail with any code,
  and then either before the server has seen the request or after it has served it
  (`ExceptionClient.Transport`). The server's buffers have 4096 bytes, whatever is not
  received in them is arbitrary, and the reply lands over the request. A reply shorter than
  a header cannot be sent, and one whose return code is MIG_NO_REPLY is not; what the caller
  gets instead, the notification that its send-once right is gone or an error code, depends
  on code outside the repository and is a parameter (`ExceptionClient.Unanswered`). A reply
  that does not fit the receive limit with its 8-byte trailer is refused with
  `MACH_RCV_TOO_LARGE`.
* A handler is any function from its state, the exception port and the arguments to a return
  code, a flavor, the 224 words of new_state, any 32-bit count, and a new state.
* Processes are told apart by their tasks; `Process` objects of the same task, which share its
  memory, are one object here.
* A breakpoint is applied where memory can be read: `ReadMemory` reports success and failure
  alike (`src/process.cc:25`, `src/process.cc:203`), so `Apply` cannot tell them apart. The
  calls of a write succeed or fail independently, as given by a `Kernel` value.
* `active_` and `in_use_` are never initialised (`src/breakpoint.h:36`,
  `src/x64/breakpoint_x64.h:24`); their starting values are parameters.
* The program counter of an exception is an input, unknown when there is no thread state. In
  the source it is always unknown on x86-64 (`src/process.cc:275-278`), so that the results
  about handled x86-64 exceptions say what the callback would do with a state.
* What a breakpoint's callback does is given as the registry operations it performs.
* Each kernel thread occurs once in a thread list, and Load and Save succeed.

The stubs of `raise_state` and `raise_state_identity` differ in ids, offsets and the port
descriptors only. They are one method here, with the routine or the presence of a caller's
identity as parameter; the rows below cite the identity form, which has everything the other
has.

## Results that are not plain successes

* Two Applies in a row of an ARM or Thumb breakpoint save the trap as original code; Reset
  then restores memory exactly when the trap was the original code
  (`SoftwareBreakpoints.ArmAppliedTwice`).
* What any sequence of Applies and Resets of one x86-64 software breakpoint saves and leaves
  in memory is given in closed form (`SoftwareBreakpoints.X64Leaves`), and with it exactly
  when memory is the original again (`SoftwareBreakpoints.X64LeavesOriginal`): n cycles
  restore it when the n bytes from the address were equal
  (`SoftwareBreakpoints.X64CyclesRestore`), Apply, Apply, Reset when the next byte was a trap
  (`SoftwareBreakpoints.X64AppliedTwice`).
* An `InstallBreakpoint` that returns false leaves memory as it was exactly when its write
  failed or the code was the trap (`BreakpointRegistry.FailedInstall`); the exception of a
  trap left behind is nobody's unless another breakpoint is listed there
  (`ExceptionHandling.FailedInstallIsUnhandled`).
* A client does not hear of every exception that is handled: the calls that return success are
  as many as the exceptions handled exactly when no handled call loses its reply, and the
  difference is the number of those (`ExceptionService.SuccessesAreHandled`, with an input in
  `ExceptionService.LostSuccess`). A client that tries again is refused by an x86-64 breakpoint
  and handled twice by an ARM one (`ExceptionService.RetryAfterLoss`).
* The handler is shared by all processes and looks breakpoints up by address alone. A handled
  exception whose Reset writes leaves its own trap in place exactly when the first listed
  breakpoint at the address belongs to another process, whose memory is written instead
  (`ExceptionHandling.TrapIsLiftedIff`, with an input in `ExceptionHandling.TrapStaysIn`).
* `GetRegions` takes any status but KERN_INVALID_ADDRESS for an answer, whose contents are
  undefined, before it ends: the result then is the wanted regions so far and at most one more
  (`MemoryRegions.GetRegions`).
* Two Applies in a row of a hardware breakpoint leave a thread trapping after one Reset
  exactly when the second Apply found a free slot (`HardwareBreakpoints.AppliedTwiceLeaks`).
* Two hardware breakpoints on the same threads both trap exactly when their `in_use_` started
  at different values (`HardwareBreakpoints.BothTrapIffStartsDiffer`), and then do not
  disturb each other's Reset (`HardwareBreakpoints.ResetsAreIndependent`).
* Reset gives no slot back: after n cycles over m threads the next Apply succeeds exactly
  while `in_use_` and (n + 1) m slots make at most 4
  (`HardwareBreakpoints.ApplySucceedsAfter`).

## Model

| member | source | states |
|---|---|---|
| MachMessage.Transmit | src/mach_excUser.c:734-738 | carries out the assumed kernel step word for word: size stamped, ports swapped, descriptors' dispositions as the receiver sees them, nothing past the message touched |
| MachMessage.DeliveredBits | src/mach_excServer.c:115-118 | the receiver finds the sender's local disposition as remote and the other way round, and the complex bit as it was |
| ExceptionMessages.CarriesIffTightlyPacked | src/mach_excUser.c:690-722 | a message carries given arguments, by the positions of its fields, exactly when its words are the plain concatenation of all fields without gaps |
| ExceptionMessages.WhereFieldsAre | src/mach_excUser.c:690-722 | the same in word numbers: exception at word 15 or 8, then count, codes, flavor, count and state, ports in words 6 to 12, and the length |
| ExceptionMessages.AcceptedIffCarried | src/mach_excServer.c:556-613 | canonical form: the accepted buffers are exactly those whose received words are the layout of some arguments, and these are unique and the ones decoded |
| ExceptionMessages.Reencodes | src/mach_excServer.c:556-613 | word for word: whatever message carries the arguments decoded from an accepted request, an encoder's for one, has its length and, from the exception to the end and in count and names of the ports, its very words |
| ExceptionMessages.VerdictReadsReceivedWords | src/mach_excServer.c:556-610 | a verdict depends on no word past the received size, except the descriptor count, which is looked at whatever the size |
| ExceptionMessages.DecodeReadsReceivedWords | src/mach_excServer.c:695-699 | the arguments passed to a handler depend on received words only |
| ExceptionMessages.VerdictByWords | src/mach_excServer.c:556-613 | the verdict in the numbers of the wire: bad arguments for complex bit, descriptor count or size range, then type error for the ports, then bad arguments for the counts |
| ExceptionServer.CheckRaiseRequest | src/mach_excServer.c:266-311 | the 32-bit check returns the verdict defined over the integers: success iff complex, two port descriptors of disposition 17, at most 2 codes and a size of exactly 68 + 8 per code |
| ExceptionServer.CheckStateHeader | src/mach_excServer.c:556-575 | bad arguments iff complex bit, descriptor count or size range is wrong, else type error iff a descriptor is not a received send right |
| ExceptionServer.RoomTest | src/mach_excServer.c:587-591 | the wrapping comparison of remaining room with a count is, above the base size, the comparison over the integers |
| ExceptionServer.CheckStateRequest | src/mach_excServer.c:543-614 | both state checks return the verdict over the integers for every buffer, with the delta computed before the count check never escaping, and on success the slide of 8 codeCnt - 16 bytes |
| ExceptionServer.RaiseStub | src/mach_excServer.c:329-385 | the reply buffer answers the request with the handler's return code for the decoded arguments, or with the verdict; the handler has run once or, on a request not accepted, not at all |
| ExceptionServer.StateArguments | src/mach_excServer.c:695-699 | what is read through the two pointers is what the request carries |
| ExceptionServer.FinishStateReply | src/mach_excServer.c:700-710 | an error leaves the minimal reply, a success is flavor, count, new_state and a size of 44 + 4 count in 32 bits |
| ExceptionServer.StateStub | src/mach_excServer.c:635-711 | for every buffer and handler the reply is the verdict, the handler's error, or its new state; the handler has run once or, on a request not accepted, not at all |
| ExceptionServer.Serve | src/mach_excServer.c:759-788 | every request is answered to its reply port with id + 100, not complex, an NDR record and no port of its own, by the routine of its id, or with MIG_BAD_ID and FALSE, and nothing runs on an unknown id |
| ExceptionServer.RefusedHasNoEffect | src/mach_excServer.c:684-690 | a request that is not accepted, or of an unknown id, gets one of three error codes and the handler is not run |
| ExceptionServer.DispatchersAgree | src/mach_excServer.c:790-798 | the lookup with a wrapping subtraction names, for every 32-bit id, the routine that answers it, and none exactly for unknown ids |
| ExceptionClient.PackPorts | src/mach_excUser.c:671-687 | two port descriptors with the given names, whatever the padding held |
| ExceptionClient.PackCodes | src/mach_excUser.c:690-699 | leading fields, count and codes in place; MIG_ARRAY_TOO_LARGE iff more than 2 codes |
| ExceptionClient.PackSlid | src/mach_excUser.c:705-713 | the writes through the slid pointer put flavor, count and state behind the codes and touch nothing before; MIG_ARRAY_TOO_LARGE iff more than 224 words |
| ExceptionClient.PackStateFields | src/mach_excUser.c:690-715 | the two-phase packing stays inside the buffer, whose words then carry exactly the arguments, and computes the size of just these words |
| ExceptionClient.PackState | src/mach_excUser.c:671-722 | the message is a complete request for the given port, reply port and arguments, whatever the buffer held |
| ExceptionClient.PackRaise | src/mach_excUser.c:229-265 | the same for the form without state |
| ExceptionClient.RequestIsReceived | src/mach_excUser.c:717-738 | a request that is sent arrives carrying the same arguments, with rights of disposition 17, for the same port, itself of disposition 17, and a reply port of disposition 18 |
| ExceptionClient.ReceivedIsServed | src/mach_excServer.c:682-703 | what arrives is accepted, decodes to the caller's arguments, is answered with the handler's result for them and leaves the handler's state |
| ExceptionClient.AnswerIsHeld | src/mach_excUser.c:746-755 | a reply arrives at the caller's port under the id it waits for, with the handler's values |
| ExceptionClient.StateReplyAccepted | src/mach_excUser.c:515-559 | a reply passes as a success iff, over the integers, its size is 44 + 4 count with count at most 224, for every buffer |
| ExceptionClient.StateReplyJudged | src/mach_excUser.c:515-559 | the verdict on every received buffer in numbers: dead server, mismatch, type error, the return code found there, or success |
| ExceptionClient.RaiseReplyJudged | src/mach_excUser.c:109-131 | the same for the form without state |
| ExceptionClient.HeldReplyChecked | src/mach_excUser.c:303-346 | on replies of this server the check returns the handler's error, success, or a type error iff the handler's count exceeds 224, even when the server's size has wrapped |
| ExceptionClient.MachMsg | src/mach_excUser.c:734-744 | sending, serving and receiving together: the handler has run once on the carried arguments unless the call failed before serving; its result is held, or the call fails in either half, or goes unanswered as the parameter says |
| ExceptionClient.Receive | src/mach_excUser.c:734-744 | the three fates of a reply, by its size and return code |
| ExceptionClient.UnpackStateReply | src/mach_excUser.c:747-768 | out parameters change on success only, new_state in its first count words; the branch for more than 224 words after the check is never taken |
| ExceptionClient.MachExceptionRaise | src/mach_excUser.c:137-296 | RPC transparency: for any handler the call returns the code that calling it directly returns, if the codes fit and the transport works; the transport's code if it fails; and what the absent reply amounts to if the handler wants none. The handler's state is that after one run on the caller's arguments unless the request was not sent, also when the reply is lost |
| ExceptionClient.MachExceptionRaiseState | src/mach_excUser.c:566-769 | RPC transparency with state: over a working transport every error code of the handler is returned as it is, and a success with at most 224 words as a success, delivering exactly its flavor, count and new_state prefix; larger counts give one of three errors by the wrapped size; on any error nothing changes; the handler has run once unless the request was not sent |
| ExceptionClient.RepositoryRefusesStates | src/exception_handler.cc:33-48 | the library's own server answers a state request with KERN_FAILURE iff it is well-formed, otherwise with the check's error, and without effect |
| TargetMemory.Process.ReadMemory | src/process.cc:200-204 | returns false whether or not the kernel can read, as KERN_SUCCESS is 0; if it can, the output is the bytes, otherwise arbitrary |
| TargetMemory.Process.WriteMemory | src/process.cc:206-220 | success iff all kernel calls succeed, memory written iff the first two do, protection of whole pages left as the calls made leave it |
| TargetMemory.PagesTouched | src/process.cc:209-215 | the pages that change protection are exactly those with some of the addresses written |
| TargetMemory.ForcedWriteProtects | src/process.cc:209-215 | by the outcomes of the three calls: exactly the pages holding written bytes change, to readable and executable if all succeed, to everything and copy if a later one fails |
| TargetMemory.PatchUndone | src/process.cc:206-220 | writing back what was read undoes a write |
| TargetMemory.PatchChangesNothing | src/process.cc:206-220 | a write changes nothing iff it writes what was there |
| SoftwareBreakpoints.Breakpoint.ApplyArm | src/armv7/breakpoint_armv7.cc:24-35 | the four bytes replace the saved ones and the trap is written |
| SoftwareBreakpoints.Breakpoint.ApplyThumb | src/armv7/breakpoint_armv7.cc:42-53 | the same with two bytes |
| SoftwareBreakpoints.Breakpoint.ApplyX64 | src/x64/breakpoint_x64.cc:152-163 | active whatever happens, the byte at the address appended to the saved ones, the trap written |
| SoftwareBreakpoints.Breakpoint.Apply | src/breakpoint.h:26-26 | the virtual call: each kind's own Apply; an x86-64 breakpoint becomes active and saves the code besides what it had, an ARM one saves it instead |
| SoftwareBreakpoints.Breakpoint.Reset | src/x64/breakpoint_x64.cc:165-169 | all saved bytes are written back; on x86-64 inactive whatever happens |
| SoftwareBreakpoints.TrapIsInstruction | src/armv7/breakpoint_armv7.cc:26-44 | a write that succeeds leaves BKPT of ARM, BKPT of Thumb or INT3, byte by byte |
| SoftwareBreakpoints.X64Cycles | src/x64/breakpoint_x64.cc:152-169 | after n cycles n copies of the original byte are saved and the n bytes from the address hold it, all else unchanged |
| SoftwareBreakpoints.X64CyclesRestore | src/x64/breakpoint_x64.cc:152-169 | n cycles restore memory iff those n bytes were equal before |
| SoftwareBreakpoints.ArmCyclesRestore | src/armv7/breakpoint_armv7.cc:24-40 | any number of cycles restores memory |
| SoftwareBreakpoints.ArmAppliedTwice | src/armv7/breakpoint_armv7.cc:24-40 | Apply, Apply, Reset of an ARM or Thumb breakpoint restores memory iff the code was the trap already |
| SoftwareBreakpoints.X64Leaves | src/x64/breakpoint_x64.cc:152-169 | for any sequence of Applies and Resets with any writes failing: one saved byte per Apply, the trap where one was in and the original byte otherwise, and memory is the original with the bytes the calls leave, given by the calls and the original byte alone |
| SoftwareBreakpoints.X64LeavesOriginal | src/x64/breakpoint_x64.cc:152-169 | memory is the original iff the bytes left were there to begin with |
| SoftwareBreakpoints.X64AppliedTwice | src/x64/breakpoint_x64.cc:152-169 | Apply, Apply, Reset restores memory iff the byte after the breakpoint was a trap |
| BreakpointRegistry.EnableApplies | src/breakpoint_handler.cc:42-44 | enabling, alone or on installation, makes an x86-64 breakpoint active and adds the code to what it has saved, whatever the kernel does; the list stays |
| BreakpointRegistry.DisableResets | src/breakpoint_handler.cc:46-48 | disabling makes an x86-64 breakpoint inactive, whatever the kernel does; what is saved and the list stay |
| BreakpointRegistry.UseIsOperation | src/breakpoint_handler.cc:42-48 | the uses of one breakpoint in the results above are its Enable and Disable, which change no other process's memory |
| BreakpointRegistry.InstallLists | src/breakpoint_handler.cc:17-29 | an install that reports success appends to the list, is found at its address if none was there before, and without activation changes nothing else |
| BreakpointRegistry.ApplyKeepsOverlay | src/armv7/breakpoint_armv7.cc:24-57 | one Apply, however the write turns out, keeps memory the original overlaid with the applied traps |
| BreakpointRegistry.ResetKeepsOverlay | src/armv7/breakpoint_armv7.cc:37-40 | so does one Reset, of an applied breakpoint or not |
| BreakpointRegistry.RunOverlays | src/breakpoint_handler.cc:17-48 | over every run of Install, Enable and Disable in any processes with disjoint footprints, no Apply on top of an Apply and any kernel outcomes, each memory is the original overlaid with the traps of exactly the applied breakpoints |
| BreakpointRegistry.FreshEnablesAreDisciplined | src/breakpoint_handler.cc:42-44 | among these runs are all those that enable fresh breakpoints once each, in any order and with any writes failing |
| BreakpointRegistry.ResetAllRestores | src/breakpoint_handler.cc:46-48 | from every such state, resetting the applied breakpoints in any order brings the original memory back |
| BreakpointRegistry.StackOrderRestores | src/armv7/breakpoint_armv7.cc:24-57 | any breakpoints of the three kinds and of any processes, equal and overlapping addresses allowed, enabled with any writes failing and disabled in reverse order, leave memory as it was |
| BreakpointRegistry.FailedInstall | src/breakpoint_handler.cc:17-29 | every failing install is off the list again, and memory is as before iff the write failed or the code was the trap |
| BreakpointRegistry.SelectAll | src/breakpoint_handler.cc:57-68 | both flags list every breakpoint once per installation in order, no flag lists none |
| BreakpointRegistry.SelectionPartitions | src/breakpoint_handler.cc:57-68 | the enabled and the disabled ones together are the list, repetitions included |
| BreakpointRegistry.SelectedAppends | src/breakpoint_handler.cc:57-68 | the selection from a list is that from its parts, one after the other, so in list order |
| BreakpointRegistry.SelectedByActivity | src/breakpoint_handler.cc:57-68 | each flag selects only breakpoints whose active_ it asks for |
| BreakpointRegistry.BreakpointHandler.InstallBreakpoint | src/breakpoint_handler.cc:17-29 | the step of the state machine: on the list exactly if it returns true; and true for a null breakpoint |
| BreakpointRegistry.BreakpointHandler.EnableBreakpoint | src/breakpoint_handler.cc:42-44 | Apply of that breakpoint, the list and the others unchanged |
| BreakpointRegistry.BreakpointHandler.DisableBreakpoint | src/breakpoint_handler.cc:46-48 | Reset of that breakpoint, the list and the others unchanged |
| BreakpointRegistry.BreakpointHandler.BreakpointAtAddress | src/breakpoint_handler.cc:50-55 | the first listed breakpoint at the address, of whatever process, or null if there is none |
| BreakpointRegistry.BreakpointHandler.Breakpoints | src/breakpoint_handler.cc:57-68 | exactly the selection by flags, in order |
| ExceptionHandling.HandledIff | src/exception_handler.cc:141-163 | an exception is handled by a breakpoint iff it is a breakpoint exception with a known pc and that breakpoint is the first listed there and active; by none if none is listed there |
| ExceptionHandling.AppliedIsHandled | src/exception_handler.cc:147-159 | once enabled, whatever the kernel did, an x86-64 breakpoint that is first listed at its address handles the next breakpoint exception there |
| ExceptionHandling.InstalledIsHandled | src/breakpoint_handler.cc:17-29 | so does one installed with activation where none was listed, and it is among the enabled ones |
| ExceptionHandling.ExceptionIsOperations | src/exception_handler.cc:150-157 | a handled exception is its callback's operations followed by a Disable, any other changes nothing |
| ExceptionHandling.FailedInstallIsUnhandled | src/exception_handler.cc:147-163 | the exception of a trap that a failed install left behind is not handled and changes nothing, when no listed breakpoint is at its address |
| ExceptionHandling.HandledAgain | src/exception_handler.cc:147-159 | the next breakpoint exception at a place where one was handled, whatever the callback did: refused by an x86-64 breakpoint, handled again by an ARM one |
| ExceptionHandling.TrapIsLiftedIff | src/breakpoint_handler.cc:50-55 | over overlaid memory, the trap that raised a handled exception, left alone by the callback, is gone afterwards iff the first listed breakpoint at the address belongs to the process that raised it and the Reset writes |
| ExceptionHandling.TrapStaysIn | src/exception_handler.cc:147-159 | an input where it is not: two processes with a trap at the same address, and an exception of the one listed second |
| ExceptionHandling.HandledAtMostApplied | src/exception_handler.cc:132-164 | over every run, callbacks enabling and disabling included: exceptions handled by an x86-64 breakpoint, plus one while it is active, never exceed its Applies, plus one if it started active |
| ExceptionHandling.HandledAtMostSaved | src/x64/breakpoint_x64.cc:152-163 | the same bound with the bytes saved since the start in place of the Applies: each Apply saves one |
| ExceptionHandling.ArmActivityNeverChanges | src/armv7/breakpoint_armv7.cc:24-57 | an ARM breakpoint's flag keeps its uninitialised value over every run, so one that starts inactive never handles anything |
| ExceptionHandling.EventsAreRun | src/exception_handler.cc:132-164 | a run with exceptions is, for memory, flags and list, the run of the operations its callbacks and Resets amount to |
| ExceptionHandling.EventsOverlay | src/exception_handler.cc:157-157 | so memory stays the original overlaid with the applied traps over runs with exceptions |
| ExceptionHandling.ExceptionHandler.Dispatch | src/exception_handler.cc:144-161 | the registry changes by the callback's operations and a Reset iff the exception is handled |
| ExceptionHandling.ExceptionHandler.ExceptionCallback | src/exception_handler.cc:132-164 | the thread stays suspended once more iff the exception is no breakpoint, and no other thread's count changes; the exception is recorded; KERN_SUCCESS iff it is handled, else KERN_FAILURE |
| ExceptionService.RaiseThrough | src/exception_handler.cc:23-31 | a client's call over the RPC: if the request is served, even if the reply is lost, the exception recorded has the call's thread, task and type, the registry changes as for it, and the call's thread is left suspended iff the type is not a breakpoint; otherwise nothing changes; the client gets 0 or 5 by whether it was handled, or its own error |
| ExceptionService.RunService | src/exception_handler.cc:23-31 | over any sequence of calls and registry operations every call returns what the registry at its time makes of it, the registry is that of the run of the events served, and the history has grown by just their exceptions, in order |
| ExceptionService.SuccessesAreHandled | src/exception_handler.cc:132-164 | over every such run the calls that return KERN_SUCCESS, with the handled ones whose reply is lost, are exactly as many as the exceptions handled; without them iff there are none |
| ExceptionService.LostSuccess | src/mach_excUser.c:277-285 | a handled exception whose client sees any failure code instead |
| ExceptionService.RetryAfterLoss | src/exception_handler.cc:147-159 | a call repeated after its handled first attempt lost the reply returns KERN_FAILURE on an x86-64 breakpoint, whatever the callback did, and KERN_SUCCESS on an ARM one |
| ExceptionService.SuccessesAtMostApplied | src/exception_handler.cc:132-164 | over every such run on x86-64 breakpoints the calls that return KERN_SUCCESS, the handled ones whose reply is lost, and the breakpoints active at the end, are together no more than the Applies made, which are the bytes saved meanwhile, and the breakpoints active at the start |
| HardwareBreakpoints.StoredIsLoaded | src/x64/breakpoint_x64.cc:33-35 | the struct survives the register, whose upper half becomes the sign extension of bit 31 |
| HardwareBreakpoints.EditsAreLocal | src/x64/breakpoint_x64.cc:48-91 | arming enables and disarming disables a slot, every other bit of the low half staying as it was |
| HardwareBreakpoints.EditsByBit | src/x64/breakpoint_x64.cc:16-36 | in the register, arming slot j sets bit 2j and disarming clears bits 2j and 2j + 1, as DR7 has them (section 17.2.4 of the Intel SDM Vol. 3), the rest of the low half unchanged; a slot is enabled iff one of the two is set |
| HardwareBreakpoints.ArmDisarm | src/x64/breakpoint_x64.cc:121-145 | arming then disarming gives the low half back iff both flag bits were clear, and the upper half as its sign |
| HardwareBreakpoints.EditsCommute | src/x64/breakpoint_x64.cc:48-91 | edits of different slots commute |
| HardwareBreakpoints.ArmedTouchesOneSlot | src/x64/breakpoint_x64.cc:48-91 | one address register and one slot's flags change |
| HardwareBreakpoints.ClearedTouchesOneSlot | src/x64/breakpoint_x64.cc:111-145 | no address register changes, and only the last slot with the address is disabled |
| HardwareBreakpoints.HardwareBreakpoint.ArmThread | src/x64/breakpoint_x64.cc:48-91 | the slot numbered in_use_ of a loaded state is armed with the address, or nothing if there is no such slot |
| HardwareBreakpoints.HardwareBreakpoint.Apply | src/x64/breakpoint_x64.cc:39-97 | with in_use_ at k, thread i gets slot k + i as far as there are slots, later threads nothing; true iff no thread was left over |
| HardwareBreakpoints.HardwareBreakpoint.FindSlot | src/x64/breakpoint_x64.cc:111-115 | the last slot holding the address, or -1 |
| HardwareBreakpoints.HardwareBreakpoint.Reset | src/x64/breakpoint_x64.cc:99-150 | in each thread the last slot holding the address is disarmed, other threads stay as they are |
| HardwareBreakpoints.ArmedSlotIsFound | src/x64/breakpoint_x64.cc:111-115 | a slot armed above all leftovers is the one the search finds, and its disarming leaves none enabled |
| HardwareBreakpoints.CycleIsQuiet | src/x64/breakpoint_x64.cc:39-150 | Apply, even failing partway, then Reset: every slot just armed is found and nothing traps at the address any more |
| HardwareBreakpoints.CyclesAreQuiet | src/x64/breakpoint_x64.cc:39-150 | after any number of cycles nothing traps at the address, and the next cycle's Reset finds in each thread the slot just armed, above all earlier ones |
| HardwareBreakpoints.CyclesUseUpSlots | src/x64/breakpoint_x64.cc:92-92 | in_use_ after n cycles over m threads from k is the lesser of 4 and k + n m |
| HardwareBreakpoints.ApplySucceedsAfter | src/x64/breakpoint_x64.cc:39-150 | after n cycles Apply gets through all threads iff there are none or k + (n + 1) m is at most 4 |
| HardwareBreakpoints.AppliedTwiceLeaks | src/x64/breakpoint_x64.cc:39-150 | Apply, Apply, Reset leaves a thread trapping iff there are threads and in_use_ plus their number is at most 3, in_use_ not negative |
| HardwareBreakpoints.BothTrapIffStartsDiffer | src/x64/breakpoint_x64.cc:43-96 | of two breakpoints applied to the same threads from any in_use_ values, the second traps, and the first still traps iff the values differ |
| HardwareBreakpoints.SecondBreakpointTakesOver | src/x64/breakpoint_x64.cc:43-96 | with equal values no slot is left to the first, whose Reset changes nothing |
| HardwareBreakpoints.ResetsAreIndependent | src/x64/breakpoint_x64.cc:99-150 | with different values either Reset takes away its own traps and leaves the other's |
| MemoryRegions.AnswerDescribes | src/process.cc:233-245 | one answer at a stop of the walk leaves it before the same leaf region or just past it |
| MemoryRegions.GetRegions | src/process.cc:222-248 | ends by address space, then nesting; ended by KERN_INVALID_ADDRESS it returns exactly the leaf regions the kernel describes whose protection is the wanted one, or all if 0x2000 is wanted, in order, by another status those before that place and at most one more; nothing is presumed of answers to questions the loop does not ask, nor of failing ones |
| MemoryRegions.FilterAscending | src/process.cc:242-245 | what is returned is ascending, without overlaps, and holds a leaf region iff it is wanted |
| MemoryRegions.SpaceIsWalked | src/process.cc:230-246 | the premises hold of every address space of ascending non-empty regions under submaps nested to any depth, with a kernel that answers inside a region with that region and never fails |
| MemoryRegions.InsideIsAnsweredByRegion | src/process.cc:233-234 | asked anywhere inside a region, deep enough to see it, that kernel answers with the whole region |

## Left out

- Real Mach calls, port allocation, `SetupHandler`, `server_thread`: foreign code, replaced by the assumed steps above.
- `mach_msg_server_once`'s retries and what it does after failed sends, other than the cases above: outside the repository.
- Translation of port names between tasks, voucher code, static templates, NDR conversion and the cleanup of reply ports after a failed `mach_msg`.
- In-place changes a handler may make to the request's codes and old_state: nothing reads them afterwards.
- `UninstallBreakpoint` (`src/breakpoint_handler.cc:31-40`): it goes on with an iterator after erasing its element, so its matching case has no defined meaning.
- Hardware breakpoints on ARM, which always fail, AArch64 breakpoints, which are only declared, and the host classes.
- Register tables, descriptions, the disassembler, and finding processes by name or number.
- SoftwareBreakpoints.Breakpoint.Apply: does not model a failing read, after which the saved bytes are arbitrary.
- ExceptionClient.MachMsg: a caller left waiting for ever, by a server that keeps the reply right and sends no reply, does not return and has no outcome here.
- ExceptionHandling.ExceptionHandler.ExceptionCallback: saving the thread state and exceptions raised while a callback runs are not modelled.
