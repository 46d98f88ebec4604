# A verified model of libspe2

libspe2 lets a Linux program on the Cell Broadband Engine create, load and run programs on
the synergistic processing elements (SPEs).  This project models the parts of it that are
algorithms and protocols of their own, with the kernel, the SPE and the other threads as an
environment that may do anything its contract allows, and proves what they are for.

`dafny verify dfyconfig.toml` checks the whole project with Dafny 4.11.

| module | what it models |
|---|---|
| `Barrier` | the reusable two-phase barrier `barrier_sync`, as a transition system over any number of threads with sleeping, woken and spuriously woken threads |
| `VarArgs`, `Formats`, `Directives`, `Printf`, `Printf64`, `Scanf` | moving the variable arguments of an SPE `printf` or `scanf` into a PowerPC `va_list`, driven by the format string, for the 32-bit and the 64-bit host |
| `StopEvents`, `EventContexts` | the counted pipe on which a context reports why its SPE stopped: the protocol as a transition system, and the functions that update the fields, each proved to be a step of it, and a read to be a run of it |
| `Mailboxes` | the mailbox reads and writes, through mapped registers or spufs files, with the SPE and other threads acting in between |
| `Registers` | the trampoline that loads the argument registers, executed by an interpreter of the SPU instructions it consists of |
| `RunLoop` | `_base_spe_context_run`: the loop over kernel results, library callbacks that run contexts themselves, what has become of every context and its local store, and the list the debugger follows |
| `ElfLoader` | relocation and loading of an SPE program image, byte by byte |
| `Argv` | the argument block that `elfspe` places at the top of local store |
| `Contexts` | descriptors and mappings of a context from creation to destruction |
| `Procs` | the totals per process of `spu-top` and `spu-ps` |
| `Bytes`, `Common` | big-endian numbers and what else several modules share |

Code that changes things in place is modelled by classes and arrays with the fields and
loops of the original.  A script is a finite sequence that says what the environment does:
the results of `spu_run`, the answers of `poll` and `read`, the moves of other threads.  A
theorem about every script is a theorem about every behaviour; a call whose script runs out
has not returned yet.

## What the proofs found

Where the code does not always do what it is for, the exact condition is stated and proved.

- A reader that has part of a stop record loses it when `poll` or `read` fails.  The stream
  stays intact if and only if no read has failed inside a record since its pipe was opened
  (`StopEvents.StreamIntactIff`, `StopEvents.Delivery`).  After such a failure the next
  reader may get a record nobody wrote (`StopEvents.TornRecord`), or wait for good with the
  lock held: `StopEvents.BlockedIff` says exactly when, `StopEvents.ReaderBlocks` shows a run
  that gets there.
- `_base_spe_open_if_closed` counts a descriptor only if it is greater than 0, and the counts
  are memory fresh from `malloc`.  Counts and cache agree after creation if and only if that
  memory was zero (`Contexts.Create`, `Contexts.JunkIsKept`), and stay in agreement across an
  open if and only if the entry was cached already or the kernel's answer is not 0
  (`Contexts.Context.OpenIfClosed`), which it is in a process that closes descriptor 0 after
  it has created the context (`Contexts.ZeroIsNotCounted`).  No descriptor is lost in any
  case.
- `setsignotify` computes an error for a short write and then returns 0
  (`Contexts.Context.SetSigNotify`).
- The size of the argument block is summed up in an `int`.  The limit is enforced if and only
  if the size is within it or its low 32 bits are an `int` above it (`Argv.LimitIff`); no list
  of 2^31 up to 2^32 bytes is refused (`Argv.LimitMissed`).
- 0 stands for "no .toe section yet", so the lowest .toe address is found if and only if no
  .toe section is at address 0 or the last one is (`ElfLoader.ToeIsLowestIff`, with two
  sections in `ElfLoader.LowestToeMissed`).
- `prev_ph` is never advanced, so `overlay` never filters and overlapping segments are all
  loaded, the last one on top (`ElfLoader.LoadSegments`, `ElfLoader.LastSegmentWins`).
- A mailbox write that fails returns -1 whether or not words have been delivered.  Only one
  that was to deliver all its words can have delivered some of them: through the file exactly
  if the first answer moved words, through the registers as many as the mailbox had room for
  (`Mailboxes.Context.InWrite`, `Mailboxes.FirstMoved`; `Mailboxes.FileFailsHalfway` and
  `Mailboxes.PollFailsHalfway` are two such calls).
- The 64-bit `scanf` copies every temporary back, also those of conversions the host never
  reached, with whatever their memory held.  Local store gets exactly what the host has
  scanned, for every content of that memory, if and only if the host has reached them all
  (`Scanf.ScannedIff`); with `%ld %ld` and the input `5` the second variable of the SPE is
  overwritten (`Scanf.SecondVariableLost`).
- The 64-bit `scanf` masks where a target starts, not where it ends.  The memory behind local
  store stays as it is, for every input, if and only if there is room for four bytes at every
  target (`Scanf.InsideIff`); a pointer into the last three bytes is one that has none
  (`Scanf.TargetAtTheEnd`).

## Model

| member | source | states |
|---|---|---|
| `Barrier.InitInv` | tests/common/ppu_thread.c:28-34 | a barrier just initialized, with nobody in the call, satisfies the invariant |
| `Barrier.NextInv` | tests/common/ppu_thread.c:42-74 | every step of every thread, and every spurious wakeup, keeps the invariant: mutual exclusion, the counts of waiting threads, who may sleep when, and which threads arrived and returned |
| `Barrier.RunInv` | tests/common/ppu_thread.c:42-74 | the invariant holds in every reachable state, for any number of threads |
| `Barrier.BarrierSafety` | tests/common/ppu_thread.c:42-74 | in every run nobody returns before N threads of its batch have arrived, a batch releases exactly the N threads that arrived in it, batches never mix, and while `done` is positive `counter` is 0 and exactly `done` threads have still to leave; the assertion of line 64 holds |
| `Barrier.NoLostWakeup` | tests/common/ppu_thread.c:47-62 | a thread sleeps at either wait only while the condition it waits for is false |
| `Barrier.Stuck` | tests/common/ppu_thread.c:42-74 | no thread can make a step exactly when nobody is leaving and everybody in the call sleeps in an incomplete batch |
| `Barrier.BarrierProgress` | tests/common/ppu_thread.c:42-74 | with N threads in the call some thread can always make a step |
| `Barrier.NextPotential` | tests/common/ppu_thread.c:47-71 | each step of the program uses up potential, except that calls, spurious wakeups and the end of a batch add a fixed amount |
| `Barrier.RunPotential` | tests/common/ppu_thread.c:42-74 | the steps of any run are paid for by its calls, spurious wakeups and finished batches |
| `Barrier.BarrierSteps` | tests/common/ppu_thread.c:42-74 | a bound on the steps of every run from the start, and of every stretch in which no thread calls and no batch ends |
| `Barrier.BatchEnds` | tests/common/ppu_thread.c:42-74 | while a batch leaves, or with N threads in the call that are not on the way out, every run that cannot be continued, and every run without calls that is longer than a bound linear in the threads, has ended a batch |
| `VarArgs.SlotIs` | spebase/default_c99_handler.c:188-195 | the k-th argument lies 16 * k bytes behind the first, and 32 more once the caller's frame has been reached |
| `VarArgs.SlotUnbroken` | spebase/default_c99_handler.c:188-195 | a caller's frame that is not on the grid of slots is never skipped |
| `VarArgs.GetLsVarg` | spebase/default_c99_handler.c:188-195 | the macro reads the current slot and moves to the next one |
| `VarArgs.AlignIs` | spebase/default_c99_handler.c:170-175 | a position of the list is rounded up to the size of its type, which leaves 4-byte types alone |
| `VarArgs.VaListPut` | spebase/default_c99_handler.c:177-182 | the value is stored at the aligned position, what was stored before stays |
| `VarArgs.ReadAppend` | spebase/default_c99_handler.c:177-182 | a `va_arg` reader finds the arguments stored before and then the new one |
| `VarArgs.MarshalledPut` | spebase/default_c99_handler.c:177-195 | moving one argument keeps what the whole list means to its reader, at a cost of its size and at most 4 bytes of padding |
| `VarArgs.PutArg` | spebase/default_c99_handler.c:597-634 | the same for the code that fetches, converts and stores |
| `VarArgs.ValueIsArgument` | spebase/default_c99_handler.c:597-634 | what is stored for an argument is the 4 or 8 bytes of its slot, or, for an address in local store, a pointer into the mapped local store as far behind its start as the address behind a multiple of its size |
| `VarArgs.ArgumentFollowed` | spebase/handler_utils.h:36-37 | a host that follows such a pointer into memory that holds local store finds the SPE's own bytes |
| `VarArgs.PointersDiffer` | spebase/handler_utils.h:36-37 | different addresses in local store have different pointers |
| `Formats.SkipLength` | spebase/default_c99_handler.c:419-446 | the loop ends behind the modifiers, with the value of `format_long` |
| `Formats.NrFormatArgs` | spebase/default_c99_handler.c:524-542 | the estimate is three times the number of percent signs |
| `Printf.EveryConversion` | spebase/default_c99_handler.c:569-637 | every conversion of section 7.19.6.1 of ISO/IEC 9899:1999 short of the modifier `L`, spelled out character by character, is among the formats, with the arguments it takes |
| `Printf.EveryModifier` | spebase/default_c99_handler.c:419-446 | the length modifiers, the star and the precision as the standard spells them |
| `Printf.FlagsScanned` | spebase/default_c99_handler.c:401-417 | the flags of a conversion are skipped exactly |
| `Printf.WidthScanned` | spebase/default_c99_handler.c:374-399 | the field width is skipped exactly, and a star is seen where there is one |
| `Printf.PrecisionScanned` | spebase/default_c99_handler.c:347-372 | the precision is skipped exactly, and a star is seen where there is one |
| `Printf.LengthScanned` | spebase/default_c99_handler.c:419-446 | the length modifier is skipped exactly and gives its `format_long` |
| `Printf.ParseConversion` | spebase/default_c99_handler.c:563-637 | one conversion moves exactly the arguments section 7.19.6.1 of ISO/IEC 9899:1999 gives it, stars first, and ends at its last character |
| `Directives.DirectiveFound` | spebase/default_c99_handler.c:557-563 | from the end of one conversion `strchr` finds the percent sign that begins the next one, and none behind the last |
| `Directives.PercentsCover` | spebase/default_c99_handler.c:524-561 | the estimate allows for every conversion of a format, so the guard `nr_vargs > 0` never ends a scan early |
| `Printf.ParsePrintfFormat` | spebase/default_c99_handler.c:544-643 | for every format of complete conversions the list holds exactly the SPE's arguments in order, and at most 8 * nr bytes are used |
| `Printf.MarshalPrintf` | spebase/default_c99_handler.c:154-182 | estimate, allocation and parse together: a `va_arg` reader of the C standard's types reads back every argument of the SPE, values byte by byte and addresses as pointers to the place in local store they name, and the writes stay within the allocation |
| `Printf64.WidenKeepsValue` | spebase/default_c99_handler.c:580-594 | a long keeps its number when it goes from 4 to 8 bytes, with sign for d and i and without for the others |
| `Printf64.ValueIsArgument` | spebase/default_c99_handler.c:569-637 | what is stored for an argument is its bytes, its number in 8 bytes, or a pointer to its place in local store |
| `Printf64.SwitchIsStandard` | spebase/default_c99_handler.c:569-637 | `format_long` and the conversion character select what the standard's types come to on a 64-bit host: long, size_t and ptrdiff_t are widened, and what %n stores in them goes through a temporary |
| `Printf64.PutArg` | spebase/default_c99_handler.c:569-637 | one argument is fetched, converted and stored in an element of 8 bytes, and the earlier elements and temporaries stay |
| `Printf64.ParsePrintfFormat` | spebase/default_c99_handler.c:544-643 | for every format of complete conversions each element holds what the host is to find, each temporary its target, and a null pointer ends them |
| `Printf64.MarshalPrintf` | spebase/default_c99_handler.c:161-166 | estimate, allocation and parse on the 64-bit host: at the end of each 8-byte element `va_arg` finds the argument of the SPE, with its bytes, with its number in 8 bytes, or as a pointer to the place in local store it names, within the lists allocated |
| `Scanf.SetScanned` | spebase/default_c99_handler.c:512-522 | a scanset ends at its own right bracket, also one that starts with `]` or `^]` |
| `Scanf.SkipCharSet` | spebase/default_c99_handler.c:512-522 | the macro finds that bracket or reports that there is none |
| `Scanf.ScanConversion` | spebase/default_c99_handler.c:661-723 | one conversion is scanned to its end, with its suppression and length |
| `Scanf.ParseScanfFormat` | spebase/default_c99_handler.c:645-736 | for every format the list holds one host pointer for each conversion of section 7.19.6.2 of ISO/IEC 9899:1999 that assigns, in order |
| `Scanf.MarshalScanf` | spebase/default_c99_handler.c:154-182 | estimate, allocation and parse together for scanf, within the allocation: each pointer leads to the place in local store that the SPE named |
| `Scanf.AllPointers` | spebase/default_c99_handler.c:666-724 | the arguments consumed are as many as the unsuppressed conversions other than `%%`, all of them pointers |
| `Scanf.EverySingle` | spebase/default_c99_handler.c:661-723 | every conversion of section 7.19.6.2 of ISO/IEC 9899:1999 with a conversion character, spelled out, is among the formats, and which of them need a temporary on a 64-bit host |
| `Scanf.OffsetIs` | spebase/handler_utils.h:36-37 | the place an element or a temporary leads to is the SPE's address, less a multiple of the size of local store |
| `Scanf.OneStored` | spebase/default_c99_handler.c:674-717 | what one conversion adds on a 64-bit host: an element, and a temporary with its target if the types differ in size |
| `Scanf.ParseScanfFormat64` | spebase/default_c99_handler.c:645-736 | on a 64-bit host the elements and the targets of the temporaries are those the format asks for, and a null pointer ends them |
| `Scanf.CopyVaTemp` | spebase/default_c99_handler.c:299-305 | the copy loop ends at the null pointer and has copied each temporary once, in order, into local store and the memory behind it |
| `Scanf.CopiedBackAt` | spebase/default_c99_handler.c:299-305 | every byte of local store comes from the last temporary copied over it, or is unchanged |
| `Scanf.EachAtItsTarget` | spebase/default_c99_handler.c:299-305 | a temporary whose target no later one touches is found there, truncated to 32 bits |
| `Scanf.HostScans` | spebase/default_c99_handler.c:270-296 | the host stores in the temporaries it reaches and leaves the others as their memory was |
| `Scanf.MarshalScanf64` | spebase/default_c99_handler.c:1176-1186 | the whole call on a 64-bit host, however many temporaries the host reaches: local store is as the host left it with every temporary copied to the target the SPE gave, later ones on top, the unreached ones with what their memory held; every target has room for its four bytes |
| `Scanf.ScannedIff` | spebase/default_c99_handler.c:299-305 | local store gets exactly what the host has stored, whatever the temporaries held before, if and only if the host has reached all of them |
| `Scanf.SecondVariableLost` | spebase/default_c99_handler.c:1176-1186 | `%ld %ld` with one number in the input: the second variable receives what the second temporary held |
| `Scanf.InsideIff` | spebase/default_c99_handler.c:299-305 | whatever the host reads, the copies leave the memory behind local store alone if and only if every target has room for four bytes |
| `Scanf.TargetAtTheEnd` | spebase/default_c99_handler.c:674-717 | a valid format and a pointer to the last byte of local store for which a target has no room |
| `StopEvents.NextInv` | speevent/spe_event.c:104-193 | every step of registrations, runs and readers keeps the invariant of counts, flights and stream |
| `StopEvents.RunInv` | speevent/spe_event.c:104-193 | the invariant holds in every run |
| `StopEvents.PipeInvariant` | speevent/spe_event.c:104-127 | the pipe is open exactly while the count is positive, the count is the registrations plus the runs in flight, an open pipe leaves the buffer empty, and every run in flight still has the right descriptor |
| `StopEvents.RunNeverReopens` | speevent/spe_event.c:586-611 | the acquire of a run never opens a pipe and always succeeds |
| `StopEvents.Registers` | speevent/spe_event.c:339-365 | a registration adds its handler, raises the count and opens the pipe if it is closed; when exactly it fails, leaving handlers, count and pipe as they were |
| `StopEvents.Deregisters` | speevent/spe_event.c:444-459 | a deregistration removes exactly its handler and lowers the count, and closes both ends exactly if it was the last handler and no run is in flight; otherwise nothing changes |
| `StopEvents.RegisterDeregister` | speevent/spe_event.c:339-459 | registering a handler and deregistering it again brings back handlers, count and an open or closed pipe |
| `StopEvents.WholeRun` | speevent/spe_event.c:586-611 | a run on its own adds its record to the end of the stream, or leaves it in the buffer without a handler, and changes nothing else |
| `StopEvents.Delivery` | speevent/spe_event.c:129-193 | in every interleaving, if no read has failed inside a record since the pipe was opened, the records read are the first records written, whole and in order; all of them once the pipe is drained |
| `StopEvents.StreamIntactIff` | speevent/spe_event.c:160-192 | what was read, what a reader holds and what is in the pipe together are what was written, if and only if no read has failed inside a record since this pipe was opened |
| `StopEvents.LostIff` | speevent/spe_event.c:160-192 | from any state of the invariant on: bytes of the pipe are missing at the end of a run exactly if a read failed in it while that pipe was open, or some were missing before and the pipe is still the same |
| `StopEvents.SamePipe` | speevent/spe_event.c:339-365 | as long as some handler stays registered the stream goes on in one pipe |
| `StopEvents.ReaderFinishes` | speevent/spe_event.c:166-190 | a reader that holds the lock with part of a record is no writer; if no read has failed inside a record of this pipe, the rest of its record is in the pipe and one more read ends the call |
| `StopEvents.BlockedIff` | speevent/spe_event.c:129-193 | nothing but an error of the reader can happen any more exactly when a reader inside a record holds the lock, the pipe is empty and no run has still to write |
| `StopEvents.ReaderBlocks` | speevent/spe_event.c:167-188 | a run that ends in such a deadlock, from one failed read |
| `StopEvents.LegacyBuffer` | speevent/spe_event.c:142-155 | without a handler the last record can be read once |
| `StopEvents.TornRecord` | speevent/spe_event.c:167-188 | a run with one failed read after which the next read returns a record nobody wrote |
| `EventContexts.EventContext.PipeClose` | speevent/spe_event.c:70-82 | both ends are closed and marked closed, as in the transition system |
| `EventContexts.EventContext.PipeOpen` | speevent/spe_event.c:84-102 | either both ends are open or, after any failure, neither |
| `EventContexts.EventContext.PipeAcquire` | speevent/spe_event.c:104-116 | is the acquire of the transition system, return code included |
| `EventContexts.EventContext.PipeRelease` | speevent/spe_event.c:118-127 | is the release of the transition system |
| `EventContexts.EventContext.RegisterStop` | speevent/spe_event.c:339-365 | is the step `Register`, and returns 0 exactly if epoll_ctl accepts a handler that is new and the pipe is open or can be opened; then exactly this handler is added |
| `EventContexts.EventContext.DeregisterStop` | speevent/spe_event.c:444-459 | is the step `Deregister`, and returns 0 exactly if epoll_ctl agrees and the handler was registered; then exactly this handler is removed |
| `EventContexts.EventContext.StopLocked` | speevent/spe_event.c:586-602 | is the step `RunStops`; the descriptor it leaves with is that of its flight |
| `EventContexts.EventContext.RunReleases` | speevent/spe_event.c:608-611 | is the step `RunEnds` |
| `EventContexts.EventContext.StopInfoRead` | speevent/spe_event.c:129-193 | which rounds of the loop a call uses and how it ends: it succeeds exactly with the next whole record of the stream, it fails exactly if the first read finds nothing or fails, or if poll or a later read fails, and it waits only for a poll without an answer; if what arrives is what runs in flight write, the call is a run of the transition system that adds the record to those returned, or drops what was read, or holds the lock with it; without a pipe it is the step `ReadBegins` |
| `EventContexts.ReadIsRun` | speevent/spe_event.c:158-192 | whatever meets the contract of a read from the pipe is a run of the transition system with its own reads and the writes of others as events |
| `EventContexts.RoundStands` | speevent/spe_event.c:168-187 | a round of the loop is the event `ReadGoesOn` with the number of bytes it moves, or none |
| `EventContexts.RoundBreaks` | speevent/spe_event.c:172-183 | an error that ends the loop is the event `ReadFails`, which drops what has been read |
| `EventContexts.ReadRound` | speevent/spe_event.c:168-187 | one round of the loop moves the next bytes of the stream into the record, and ends the loop only for the two errors that do |
| `Mailboxes.Context.Stat` | spebase/mbox.c:99 | the status register yields the entries and the free space at the two positions the code looks at |
| `Mailboxes.FirstInFirstOut` | spebase/mbox.c:86-200 | what has been taken from a mailbox is what was put in first, and of each writer its first words |
| `Mailboxes.Context.StoreWords` | spebase/mbox.c:102-105 | as many stores as there was room for, none of them into a full mailbox |
| `Mailboxes.Context.InWritePs` | spebase/mbox.c:86-110 | under the lock exactly the first `total` words are put in, without a gap; it stops short only at a full mailbox |
| `Mailboxes.Context.AwaitRoom` | spebase/mbox.c:134-140 | poll() is called only after a look at the status register that found no room |
| `Mailboxes.Context.WriteAllPs` | spebase/mbox.c:130-141 | returns exactly with all words delivered; it waits only for a poll without an answer and fails only with the poll that fails, having filled the room there was |
| `Mailboxes.Context.WriteAllFile` | spebase/mbox.c:143-151 | the same through the file: it waits only for an answer that does not come and fails, with EIO, only with the answer that refuses; each other answer has delivered a word at least |
| `Mailboxes.Context.WriteAnyPs` | spebase/mbox.c:157-167 | returns with at least one word delivered, or waits or fails as poll() says with none |
| `Mailboxes.Context.InWrite` | spebase/mbox.c:112-200 | for all three behaviours and both transports: n returned means the first n words delivered in order, all of them or at least one where that was asked for; the error cases; a call that waits or fails does so because of what poll() or write() answered last, and only one that was to deliver everything has delivered anything by then |
| `Mailboxes.FirstMoved` | spebase/mbox.c:143-151 | a call through the file that fails has moved words exactly if the first answer moved some |
| `Mailboxes.FileFailsHalfway` | spebase/mbox.c:143-197 | a write of two words that returns -1 with the first delivered |
| `Mailboxes.PollFailsHalfway` | spebase/mbox.c:130-141 | a write of five words through the registers that returns -1 with four delivered |
| `Mailboxes.Context.LoadWords` | spebase/mbox.c:49-52 | as many loads as entries were counted, none from an empty mailbox |
| `Mailboxes.Context.OutReadPs` | spebase/mbox.c:34-56 | the buffer receives exactly the next `total` words; it stops short only at an empty mailbox |
| `Mailboxes.Context.OutRead` | spebase/mbox.c:58-84 | n returned means n words taken in order, the rest of the buffer untouched; a mailbox file without data gives 0, and the call fails exactly if the kernel refuses for another reason |
| `Mailboxes.Context.ReadAll` | spebase/mbox.c:269-279 | returns exactly with the buffer full; it waits only for an answer that does not come and fails only with the answer that refuses |
| `Mailboxes.Context.IntrRead` | spebase/mbox.c:255-305 | the mirror image of the write through the file for the interrupt mailbox, in all three behaviours, with the same account of waiting and failing |
| `Registers.SetupRegisters` | spebase/regs.c:88-103 | local store gets the register block and the code at its top and keeps the rest; the entry is that of the code |
| `Registers.CodeDecodes` | spebase/regs.c:69-86 | the eight words are the instructions their comments say, in the encoding of the SPU instruction set architecture, version 1.2 |
| `Registers.ExecAll` | spebase/regs.c:69-86 | executing them, for any block and any registers, loads the five quadwords and branches |
| `Registers.Handoff` | spebase/regs.c:40-103 | from the returned entry the SPE reaches the program's entry with the block in r3 to r6, r2 zero, r1 at a zero back chain, the other registers as they were, and only the top 128 bytes of local store changed |
| `Registers.BuildBlock` | spebase/run.c:110-143 | the block holds the context, argp, envp and local store address in halves, or the caller's three registers |
| `Registers.ArgumentsDelivered` | spebase/run.c:104-147 | end to end: at the program's entry r3 to r6 hold the arguments of the call |
| `RunLoop.Prepare` | spebase/run.c:94-147 | where the SPE starts, and that arguments are installed exactly for a start at the program's own entry outside isolated mode |
| `RunLoop.StartsAt` | spebase/run.c:94-147 | an entry of all ones stands for the program's own, and only a start there outside isolated mode goes through the trampoline |
| `RunLoop.SpuRun` | spebase/run.c:166-172 | while the SPE runs the debugger's frame shows the context and where it was started, and what is stored in local store by then is in it |
| `RunLoop.IssueIsolatedExit` | spebase/run.c:55-70 | the exit is requested exactly if the control area is mapped |
| `RunLoop.Remember` | spebase/run.c:186-192 | the npc goes to the caller or, in emulated mode, into the context as its next entry point, and nothing else changes in any context |
| `RunLoop.Push` | spebase/run.c:149-164 | a new frame for this context at the head of the debugger's list, in front of the old ones |
| `RunLoop.Pop` | spebase/run.c:49-77 | the two clean-ups together remove one frame |
| `RunLoop.Handler` | spebase/run.c:245-248 | a handler makes its stores and runs in order and then returns its code; the contexts and their local stores are exactly what these make of them, and the debugger's list is as before |
| `RunLoop.Dispatch` | spebase/run.c:184-342 | every result of the kernel is taken as its declarative reading says: restart or stop, address, return value, reason, payload and errno; a library call leaves what its handler leaves, an exit in isolated mode a request, and every other result leaves all contexts alone |
| `RunLoop.RunTurns` | spebase/run.c:166-342 | the loop: for every script it ends exactly at the first result that does not restart; the debugger's frame shows the start address before each spu_run and npc and status after it; every context and local store is what the turns one after the other make of it |
| `RunLoop.ContextRun` | spebase/run.c:79-346 | for every script: the call returns exactly if there is a first result that does not restart, with the outcome of that result and the payload recorded last; the SPE is started at the declared addresses; every context's kept entry point, requested exit and local store are exactly those after the installed arguments, the stores of the SPE and of the handlers and the nested runs, at any depth; the debugger's list is as before |
| `RunLoop.ReturnsIff` | spebase/run.c:166-345 | a run returns exactly if it has a first stop and every handler on the way returns |
| `RunLoop.LastRecordedIs` | spebase/run.c:194-342 | the payload the caller finds is that of the last result that recorded one |
| `RunLoop.ExitSurvives` | spebase/run.c:267-301 | the exit code reported before the extra run that ends isolated mode is what the caller finds after it |
| `RunLoop.NothingReported` | spebase/run.c:298-301 | without an exit before it, the run that ends isolated mode leaves the caller's payload |
| `RunLoop.OnlyExitsAreRecorded` | spebase/run.c:227-301 | of the results that restart the SPE only an exit leaves a payload |
| `RunLoop.RestartAddress` | spebase/run.c:258-289 | the SPE is restarted 4 bytes on exactly after a library call, whose handler then returned 0, and in place otherwise |
| `RunLoop.PlainRun` | spebase/run.c:227-342 | outside isolated mode the stopping result alone decides reason and return value |
| `RunLoop.StopDecoded` | spebase/run.c:223-235 | the code of a stop instruction is found where the status word has it, for all bits around it |
| `RunLoop.ExitResult` | spebase/run.c:267-279 | by the raw status: code 0x2000 + x ends the run with 0 and reason exit x, or starts the end of isolated mode |
| `RunLoop.CallResult` | spebase/run.c:240-265 | by the raw status: code 0x2100 + x restarts 4 bytes on after a handler that returned 0, and ends the run with its code otherwise |
| `RunLoop.IsolatedResult` | spebase/run.c:281-296 | by the raw status: code 0x2206 restarts in place, and the other codes 0x2200 + e are isolation error e |
| `RunLoop.SignalResult` | spebase/run.c:298-309 | by the raw status: any other code is the program's own and is returned, except at the end of isolated mode |
| `RunLoop.FaultResult` | spebase/run.c:194-342 | by the raw status: return value, reason, status word and errno for a system call that failed and for each of the other status bits, in their order of precedence |
| `RunLoop.ExitsStay` | spebase/run.c:55-70 | an exit once requested stays requested, whatever runs afterwards and at whatever depth |
| `RunLoop.ExitIsRequested` | spebase/run.c:267-276 | after a run with an exit in isolated mode on its way the end of isolated mode has been requested |
| `RunLoop.EmulationResumes` | spebase/run.c:96-97 | in emulated mode the next run starts at the last npc, whatever entry it asks for, if no handler ran a context after it |
| `RunLoop.Bystander` | spebase/run.c:79-346 | a context that neither is run nor runs in a handler on the way stays as it was, local store included |
| `RunLoop.ByteStays` | spebase/run.c:104-147 | a byte of the installed arguments or of the program stays until it is stored over |
| `ElfLoader.ApplyRelocation` | spebase/elf_loader.c:219-236 | writing only if different is writing; 4 or 8 bytes of the host address |
| `ElfLoader.ApplyRelocations` | spebase/elf_loader.c:203-238 | the loop over one relocation section applies its handled relocations in order and leaves the tables as they are |
| `ElfLoader.ValueIs` | spebase/elf_loader.c:219-236 | relocations 15 and 16 are handled, with 4 and 8 bytes, and store the address of the image plus the addend modulo 2^32 or 2^64 |
| `ElfLoader.ParsePoke` | spebase/elf_loader.c:270-282 | a write outside the tables does not change what any header, name or relocation says |
| `ElfLoader.PatchesKeepTables` | spebase/elf_loader.c:275-281 | so all relocations of an image leave its tables as they are |
| `ElfLoader.PatchTwice` | spebase/elf_loader.c:219-236 | any list of writes applied twice is the same as once, overlaps included |
| `ElfLoader.Relocate` | spebase/elf_loader.c:275-300 | the loop over the sections applies all relocations and finds the .toe address and size |
| `ElfLoader.ToeIsLowestIff` | spebase/elf_loader.c:282-287 | the address found is the lowest .toe address exactly if no .toe section is at 0 or the last one is |
| `ElfLoader.LowestToeMissed` | spebase/elf_loader.c:282-287 | with .toe sections at 0 and then at 16 the address found is 16 |
| `ElfLoader.OneToe` | spebase/elf_loader.c:282-287 | with one .toe section its own address and size are found |
| `ElfLoader.ToeSizeIs` | spebase/elf_loader.c:282-287 | the size found is that of all .toe sections together |
| `ElfLoader.CopyToLdBuffer` | spebase/elf_loader.c:170-198 | base copy and shadow copy, in that order and only where the code makes them |
| `ElfLoader.LoadSegment` | spebase/elf_loader.c:309-318 | zeroed tail, then the copies |
| `ElfLoader.LoadSegments` | spebase/elf_loader.c:305-325 | every PT_LOAD segment is loaded in order, overlapping or not |
| `ElfLoader.Load` | spebase/elf_loader.c:240-339 | return codes, entry point, image and local store after a load, and that an image that is not an SPE executable changes nothing |
| `ElfLoader.TablesRead` | spebase/elf_loader.c:240-282 | for an image given by the bytes of its tables, as the System V ABI lays them out: what is read as entry, segments, sections, names and relocations is what the tables say, and it is taken for an SPE program exactly if machine is 23 and type 2 |
| `ElfLoader.HeaderByte` | spebase/elf_loader.c:180-196 | for such an image without .toe: at p_vaddr + d local store holds byte p_offset + d of the image, and zero behind p_filesz, unless a later segment covers the address |
| `ElfLoader.LastSegmentWins` | spebase/elf_loader.c:170-198 | the loop of copies leaves at every address the byte of the last segment that covers it: shadow, file or zero |
| `ElfLoader.LoadedByte` | spebase/elf_loader.c:270-331 | the same for a whole image, and addresses no segment covers keep their byte |
| `ElfLoader.PlainLoad` | spebase/elf_loader.c:180-196 | without a .toe section every byte is the plain one, for a segment at address 0 too |
| `ElfLoader.RelocatedByte` | spebase/elf_loader.c:200-237 | a relocated value is found in local store at the virtual address its relocation names |
| `ElfLoader.ReloadIsSame` | spebase/elf_loader.c:203-325 | relocating again changes nothing, so loading one image into two contexts gives the same bytes wherever a segment is |
| `Argv.CountBytes` | elfspe/elfspe.c:99-103 | the sum kept in an int is the true padded size, wrapped to 32 bits |
| `Argv.CheckLimit` | elfspe/elfspe.c:92-106 | for every list, of whatever size: the wrapped sum, and refusal exactly if it is above the limit in force |
| `Argv.LimitIff` | elfspe/elfspe.c:104-106 | exactly for which sizes the test against the limit is right |
| `Argv.LimitMissed` | elfspe/elfspe.c:99-106 | no list of a size from 2^31 up to 2^32 is refused, though all exceed the limit |
| `Argv.FillOne` | elfspe/elfspe.c:117-123 | one pointer and one string more are in place, all others stay, the rest is zero |
| `Argv.FillBlock` | elfspe/elfspe.c:112-124 | the whole block: pointers into local store, a null pointer, strings, padding |
| `Argv.SpeCopyArgv` | elfspe/elfspe.c:75-131 | 2 exactly for a block above the limit, 3 exactly without memory, the block and the registers that describe it otherwise, zero registers where there is no block; a list whose size the limit misses is followed up to a failing allocation |
| `Argv.ArgvRoundTrip` | elfspe/elfspe.c:52-74 | with the block at the top of local store argv[i] points to a NUL-terminated copy of argument i, argv[argc] is null, the copies do not overlap and lie below LS_SIZE |
| `Contexts.Context.constructor` | spebase/create.c:199-231 | a context that holds nothing yet |
| `Contexts.MapFileAt` | spebase/create.c:57-72 | a mapping or nothing, and no descriptor left open |
| `Contexts.OpenAndWrite` | spebase/create.c:74-89 | -1 exactly if the next answer of openat is no descriptor, 0 whatever the write does; the descriptor is closed again |
| `Contexts.Context.SetSigNotify` | spebase/create.c:74-89 | the same in a context, which keeps what it holds |
| `Contexts.Context.OpenIfClosed` | spebase/create.c:101-123 | cache and count after an open, with the descriptor the kernel answers; the context holds what it opened; counts and cache go on agreeing exactly if the entry was cached or the answer is not 0, so always if 0 is in use |
| `Contexts.ZeroIsNotCounted` | spebase/create.c:107-117 | a process that closes descriptor 0 after creating a context, where the next open gets 0 and ends up with count 0 |
| `Contexts.JunkIsKept` | spebase/create.c:199-231 | a new context whose count is 1 with nothing open |
| `Contexts.Context.CloseIfOpen` | spebase/create.c:125-141 | the descriptor is closed exactly with the last count, and counts keep agreeing with the cache |
| `Contexts.Context.Free` | spebase/create.c:143-181 | everything the context holds is given back, each thing once, and nothing else |
| `Contexts.Context.MapProblemState` | spebase/create.c:305-349 | one mapping with the five areas at their offsets, or five mappings of which all but mssync must succeed, as the answers of openat and mmap decide |
| `Contexts.AreasInside` | spebase/create.c:305-321 | the five areas of one mapping lie within it |
| `Contexts.Create` | spebase/create.c:183-372 | the answers of the kernel decide at which stage creation fails, if it does, and how many of them are used; a failure leaves descriptors and mappings as they were, with its errno; success gives a usable context, with the problem state mapped in isolated mode too; five errors of spu_create are passed on as they are, EPERM as ENODEV exactly in isolated mode, and any other as EFAULT |
| `Contexts.Lifetime` | spebase/create.c:101-372 | creation, any sequence of opens and closes, and destruction leave the descriptors and mappings of the process as they were, for all answers of the kernel |
| `Procs.Table.EnsureCapacity` | tools/spu-tools/src/proc-info.c:90-102 | the table has room, keeps its entries, and has grown in steps of 32 no further than needed |
| `Procs.Table.Collect` | tools/spu-tools/src/proc-info.c:182-203 | the entry gets the sums of its process and exactly the contexts of that process are marked |
| `Procs.Table.Scan` | tools/spu-tools/src/proc-info.c:168-205 | one entry for each distinct pid, with its totals and the names of its first context |
| `Procs.Table.Trim` | tools/spu-tools/src/proc-info.c:207-215 | entries of an earlier call that are not needed go, and a null pointer follows the last |
| `Procs.Table.Sort` | tools/spu-tools/src/proc-info.c:217 | rearranging the entries in any way keeps them |
| `Procs.Table.GetProcs` | tools/spu-tools/src/proc-info.c:158-220 | for any list and across calls: a non-null prefix of length procs_n, then null, with exactly one entry for each pid; every counter of an entry is the plain sum over the contexts of its process modulo 2^64, and the sum itself while it is below 2^64 |
| `Procs.Conservation` | tools/spu-tools/src/proc-info.c:182-203 | every counter summed in plain numbers over the entries is its sum over the contexts modulo 2^64, and the thread counts add up to the number of contexts |
| `Procs.SumOfIs` | tools/spu-tools/src/proc-info.c:186-198 | the total of a process is the plain sum of each of its 15 counters, modulo 2^64 |

## Left out

- The bodies of the C99, POSIX.1 and LIBEA handlers: one library call each; to the run loop a handler is the runs it makes and its return code.
- `spu_create`, `spu_run`, `epoll`, `poll`, `mmap` and spufs themselves: scripts, assuming that writes of one record to a pipe are atomic as in `write()` of IEEE Std 1003.1, that a mailbox file moves whole words and at least one, and that no descriptor is given out twice.
- Printf64.MarshalPrintf: what the host's printf stores through %n is copied by the same loop as for scanf and not followed further.
- Printf.ParsePrintfFormat: formats are made of complete conversions without the modifier `L`, which the code does not parse; `%%` has no flags, width or precision.
- Scanf.ParseScanfFormat: the same restriction to complete conversions without `L`.
- Scanf.MarshalScanf64: requires room for four bytes at every target; `Scanf.InsideIff` says when there is none.
- Scanf.CopyVaTemp: requires memory wherever a copy goes, which may be behind local store; `Scanf.MarshalScanf64` is about local store alone and requires room in it.
- StopEvents.Delivery: what a failed `write` or a write cut short would do to the stream is not modelled; the code ignores both.
- EventContexts.EventContext.PipeOpen: when `fcntl` fails the descriptors of `pipe` are closed at once and never appear in the state.
- Registration of the other events, the destruction of event handlers and `_event_spe_context_finalize`.
- Mailboxes.Context.InWrite: the arithmetic is unbounded, while in C four times the count has to fit an int; the status calls are not modelled.
- Registers.Handoff: interrupts are taken as disabled, and only the four instructions of the trampoline are interpreted.
- RunLoop.ContextRun: the numbers and tables of callbacks, `_base_spe_program_load_complete`, a null `stopinfo` and stores by others in the local store of a context that is not running are not modelled.
- ElfLoader.Load: relocations must not touch the tables, and headers, segments and relocations must lie within the image and local store; what lies outside the image reads as zero; the handling of isolated images is not modelled.
- Argv.SpeCopyArgv: for a size the limit misses, only a failing allocation is modelled, since the stores that follow an allocation go past its end.
- Contexts.Create: gangs and affinity only change arguments of `spu_create`; allocation failure is one outcome for both `malloc` calls.
- Contexts.Context.OpenIfClosed: the lock of a descriptor makes the operation one step; `spe_gang_context` is not modelled.
- Procs.Table.GetProcs: `percent_spu` is a floating-point sum and left out; the comparison of the sort is any rearrangement.
- Barrier.NextInv: between two tests of shared fields, code that holds the mutex is one step; this merges no step another thread could observe.
- The `active_tagmask` of dma.c, an exclusive-or inside a polling loop, keeps no invariant of its own.
- libspe12, the callback registry, argument checks, CPU counting, flag translation, sort comparators, the user interface and Ada bindings: they would add easy members only.
