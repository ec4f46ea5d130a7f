# A verified model of the kernel's scheduler, formatter, file reader and ELF loader

A small x86 kernel in C keeps its threads in intrusive ready queues, prints with its own `vsnprintf`, reads files from
a FAT12 floppy and loads ELF executables from them. This project models these four parts in Dafny, in the form the C
code has, and proves what they promise: over every run of the scheduler, for every format string, for every file on
every disk, and for every executable. Where the code does not keep a promise, the model keeps the code, and a lemma says
exactly when the promise holds.

| files | what they model |
|---|---|
| `ReadyQueues`, `Fairness`, `StaleTails` | the scheduler on values: its invariant, waiting times, starvation, dispatch order, and what stale tail pointers do to it |
| `Process` | proc/process.c: threads, processes and queues as linked objects that are updated in place |
| `Numerals`, `Vsprintf`, `FormatLaws`, `Directives` | libc/vsprintf.c: the state machine, a recursive-descent reference for it, and what every directive prints, from its characters |
| `Strtol`, `StrtolLaw`, `PrintParse`, `BaseZero` | `strtol` (libc/string.c), what it reads, from the characters of the text, and reading back what was printed, with and without its base |
| `Tokens` | `strtok` and `strtok_r` (libc/string.c) on one memory |
| `Bytes`, `FatTable` | fields of packed structures, the FAT, the layout of a volume, `fat12_mount` |
| `FatNames`, `FatLookup` | 8.3 names and the directory scan |
| `FatRead`, `FatFiles`, `FatContent` | `fat12_read`, the files on a volume, and when a read returns their bytes |
| `DiskFormat`, `FatDisk` | the structures of a FAT12 disk byte by byte, and a file from such a disk to the reader's buffer |
| `Vfs`, `Elf`, `ElfFormat` | the file cursor of fs/vfs.c, proc/elf.c, and loading an executable whose headers are written byte by byte |

How the parts fit together:

- The methods of `Process.Kernel` work on objects with `next` and `nextReady` pointers. `Kernel.Abs` reads off one
  sequence per priority, and `Kernel.Frays` adds the set of queues whose tail pointer is stale. Every operation is proved
  to be the abstract step of `StaleTails`, which is the step of `ReadyQueues` as long as no tail is stale. `Fairness` and
  `StaleTails` prove theorems about runs of these steps, and `Kernel.PerformRun` carries them over to the linked objects.
  `cli` and `sti` make each operation one step; a context switch is the change of the current thread.
- `Vsprintf.Vsnprintf` is the machine with its push-backs and its bounded buffer. `Vsprintf.Render` reads a format top
  down and yields the whole output. The contract of `Vsnprintf` ties the two together for all formats and all buffer
  sizes, and the laws are proved about `Render`. `Directives` gives every directive a meaning of its own, in terms of the
  characters it is written in, and proves that `Render` has it.
- `FatRead.CopyClusters` is the read loop. `FatRead.Output` says what it copies, stale bytes of its own buffer included,
  and `FatContent` compares that with the content of the file, which is defined from the FAT chain alone.
- Packed structures are decoded as in the C code. `DiskFormat` and `ElfFormat` lay out all their fields in the order of
  the headers, and prove that the decoders find each; `FatDisk.ReadNamed` and `ElfFormat.LoadWritten` are stated on disks
  and files that are written so.
- Block reads return the blocks of a `seq<seq<byte>>`. Memory allocation succeeds, except where a parameter or a result
  says otherwise, and yields storage of unknown content. The memory manager is an assumed contract
  (`Elf.AddressSpace.AllocRegion`).

What the proofs found in the code:

- `thread_destroy` leaves `queue_tail` alone. After the last of two or more queued threads has been destroyed, every
  thread posted at that priority is READY but on no queue (`PostIff`; `LostWakeupRun` comes to it from the start), however
  often it is posted, until the queue has been drained (`LostWhileStale`); so is the running thread at the end of its
  slice (`RunnerLost`). Left to itself the queue is drained one slice per thread, and each thread is lost in turn
  (`OneSliceEach`). An empty queue repairs its tail with the next post.
- Posting the last thread of a queue again links it to itself (`SchedulerPost`, `KnottedIsEndless`).
- The guard of `thread_destroy` turns away only a RUNNING thread. The current thread is READY after a tick in which it
  dispatches itself, that is when its slice runs out and nothing is queued from its priority up to 9
  (`ReadyWhileCurrent`), and then it is freed while it runs (`DestroyCurrent`, `SelfDispatchRun`).
- Threads of priority 10 are queued but dispatched in no run, as the scans start at 9 (`NeverDispatched`).
- A format that ends inside a directive makes `vsnprintf` return one less than the text is long, and so does one that
  prints a NUL with `%c` (`EndIff`, `LengthIff`). Where the text would have fitted, the terminator then overwrites its last
  character, or goes to the end of the buffer if there is none (`LastCharacterLost`). The buffer is right, whatever its
  size, exactly for the other formats (`BufferIff`).
- An odd number of `h` before an integer conversion, `%hd` for one, prints and takes eight bytes of arguments
  (`ShortModifiers`, `ShortSlots`).
- The `*` of `.*` fetches an argument and is then printed as an unknown conversion, and with it the rest of the directive
  as plain text (`StarPrecision`).
- A zero-padded decimal is read as octal by `strtol` with base 0: it reads back if and only if it is 7 at most
  (`RoundTripAuto`, which also says when octal and hexadecimal texts without `#` do).
- `strtok` returns empty tokens, unlike the `strtok` of ISO C (section 7.24.5.8 of ISO/IEC 9899:2011).
- `fat12_mount` truncates the hidden-sector count to eight bits and rounds the root directory down to whole sectors
  (`LayoutIff`).
- `fat12_read` computes the start cluster without following the FAT, reads one block of each cluster, and clips a request
  with a sum that wraps around (`ReadIsRightIff`, `ClipIff`). It counts the clusters in a `uint16_t`, which cuts off
  requests of more than 65535 of them (`ChunksTile`).
- A base of nine or more characters runs over into the extension (`RunsOver`).
- The names of `PAGE_ALIGN_UP` and `PAGE_ALIGN_DWN` are swapped, in their definitions and in their use, so that the
  loader computes the right pages.
- A segment at address 0 is mapped but not read, and one whose file is too short is read in part. Its memory is right,
  whatever the new pages held, if and only if neither is the case (`WholeIff`, `NothingAtZero`).

## Model

| member | source | states |
|---|---|---|
| ReadyQueues.StepKeepsInv | proc/process.c:298-397 | every tick, post, exit, creation and destruction of another thread keeps: queued threads are READY, distinct, in the queue of their priority and with a full slice; current has 1..5 ticks left, is in no queue, and is the only one that may be RUNNING |
| ReadyQueues.WithoutThreadsKeepsInv | proc/process.c:47-76 | filtering all threads of a process that is not current out of the queues keeps the invariant |
| ReadyQueues.ReadyWhileCurrent | proc/process.c:298-342 | exactly which steps leave the current thread READY instead of RUNNING: a tick at the end of its slice with nothing queued from its priority up to 9, and any step that leaves a READY one alone |
| StaleTails.TickLaw | proc/process.c:298-342 | the last tick of a slice in full: READY with five fresh ticks, at the back of its queue unless the tail is stale, then the head of the highest queue below 10 is current and RUNNING, and nothing else changes |
| StaleTails.TickWithin | proc/process.c:298-304 | a tick within a slice takes one of its ticks, and does nothing else |
| StaleTails.ExitLaw | proc/process.c:374-397 | an exit in full: TERMINATED and on no queue, the head of the highest queue below 10 is current and RUNNING, and nothing else changes |
| StaleTails.OneThread | proc/process.c:164-270 | posts, creations and destructions change one thread and at most one queue; a TERMINATED thread is not changed by a post |
| StaleTails.ExitedForGood | proc/process.c:343-397 | a thread that has exited is neither queued nor current in any run that does not destroy it, however often it is posted and whatever tails are stale |
| Fairness.ExactWait | proc/process.c:298-321 | in a run of ticks, posts and creations, a thread at position k that nothing outranks becomes current if and only if the run has at least (slice left) + 5k ticks |
| Fairness.NeverLater | proc/process.c:298-321 | exits and destructions of other threads in between never make it later |
| Fairness.OnTime | proc/process.c:298-321 | under ticks alone it becomes current at exactly that tick and not before |
| Fairness.Starvation | proc/process.c:307-316 | a queued thread that is outranked becomes current in no run of ticks, posts and creations |
| Fairness.EventuallyRunsIff | proc/process.c:307-316 | under ticks alone a queued thread runs eventually if and only if nothing dispatchable outranks it |
| Fairness.NeverDispatched | proc/process.c:307-316 | a queued thread of priority 10 becomes current in no run that does not destroy it |
| Fairness.StrictPriority | proc/process.c:307-316 | whenever a step changes the current thread, no dispatchable queued thread outranks the new one |
| Fairness.Fifo | proc/process.c:343-365 | in every run, of two threads in one queue the one behind never becomes current before the one ahead |
| Fairness.RoundRobin | proc/process.c:298-321 | n threads that share the top priority run in turn, one slice each, and after n slices the state is exactly the same again |
| StaleTails.StepOnKeepsOk | proc/process.c:219-397 | the invariant holds with stale tails as well: after every enabled step, unguarded destructions included |
| StaleTails.StaleIff | proc/process.c:237-250 | over every step: a tail is stale exactly if its queue still holds a thread, and it was stale before or its thread has been destroyed |
| StaleTails.RunAgrees | proc/process.c:219-397 | as long as no destruction takes the last of a queue of several, runs with tail pointers are the runs of the queues alone |
| StaleTails.RunOnConcat | proc/process.c:219-397 | two runs one after the other, with a creation in between or not, are one run with the same outcome |
| StaleTails.PostIff | proc/process.c:343-365 | a post puts a thread on its queue if and only if the tail is not stale; a post to an empty queue repairs it |
| StaleTails.LostWhileStale | proc/process.c:237-365 | in any run in which a tail stays stale, a thread of that priority that is not queued is never queued nor dispatched, however often it is posted |
| StaleTails.RunnerLost | proc/process.c:298-321 | the running thread itself is lost at the end of its slice if and only if the tail of its queue is stale |
| StaleTails.OneSliceEach | proc/process.c:298-321 | under ticks a queue with a stale tail is served in order, one slice each, and every thread but the last is lost after its slice |
| Process.Kernel.SchedulerPost | proc/process.c:343-365 | appends an unqueued thread and keeps the tails; a stale tail loses it, a queued thread cuts its queue short behind itself, and the last thread of a queue makes it endless |
| Process.KnottedIsEndless | proc/process.c:359-363 | a queue whose last thread was posted again is a finite list under no reading, whatever sequence is tried |
| Process.Kernel.SchedulerSwitch | proc/process.c:322-342 | switching to NULL or to oneself changes nothing; otherwise the thread becomes current and RUNNING |
| Process.Kernel.SchedulerTick | proc/process.c:298-321 | the pointer updates of a timer tick keep the linked-list invariant and are the abstract tick |
| Process.Kernel.ThreadExit | proc/process.c:374-397 | the current thread is TERMINATED: the abstract exit without requeueing, or a halt with the processor kept when and only when nothing is queued |
| Process.Kernel.ExitForGood | proc/process.c:343-397 | on the linked lists, a thread that exits stays TERMINATED, on no queue and undispatched in any run afterwards that does not destroy it |
| Process.Kernel.ThreadCreate | proc/process.c:164-218 | a READY thread of priority 5 with a full slice and a fresh id at the front of its parent's list; without a stack just the id is used up |
| Process.Kernel.ThreadDestroy | proc/process.c:219-270 | -1 exactly for NULL or a RUNNING thread; otherwise queue and parent list are the old ones without the thread, in order, and exactly the tails of queues that it ended and that hold another go stale |
| Process.Kernel.ProcessCreate | proc/process.c:21-46 | a fresh pid, and exactly the first free slot of the table if there is one: every earlier slot is taken, and no other changes |
| Process.Kernel.ReleasedSlots | proc/process.c:52-60 | releasing a process frees the slot it has and no other |
| Process.Kernel.CreatedIsFound | proc/process.c:21-151 | a process created while a slot is free is what its pid finds, after any run of ticks, exits, spawns and killings of others |
| Process.Kernel.ProcessDestroy | proc/process.c:47-76 | the walk frees every thread of the process: all queues are filtered in order, the table entry is released, and exactly the tails of queues that lose their last thread and keep another go stale |
| Process.Kernel.ProcessFindByPid | proc/process.c:142-151 | the unique process of the table with that pid, or none |
| Process.Kernel.SpawnFailed | proc/process.c:77-86 | creating and destroying a process whose image fails to load leaves queues, processes and table as they were, one pid further on |
| Process.Kernel.ProcessSpawn | proc/process.c:77-90 | -1 and no trace when the image fails; otherwise a new process whose first thread, if it has a stack, is posted: behind all of its priority, unless the tail is stale |
| Process.Kernel.ClaimedReleased | proc/process.c:38-60 | claiming a slot of the process table and releasing it gives the old table back |
| Process.Kernel.Perform | proc/process.c:219-397 | every tick, post, exit and destruction keeps the whole invariant of queues, lists, tails, table and ids, and is the abstract step |
| Process.Kernel.PerformCreate | proc/process.c:164-218 | a creation, for any parent, keeps the whole invariant and is the abstract step |
| Process.Kernel.PerformRun | proc/process.c:219-397 | any run of ticks, posts, exits and destructions on the linked lists is the abstract run, and it makes a thread current exactly if the abstract run does |
| Process.Kernel.ExactWait | proc/process.c:298-365 | on the linked lists, in any run of ticks and posts, a queued thread that nothing outranks becomes current if and only if enough of the steps are ticks |
| Process.Kernel.LostWakeup | proc/process.c:237-250 | after the last of two or more queued threads is destroyed, the next thread posted there is READY and on no queue |
| Process.Kernel.LostWakeupRun | proc/process.c:77-397 | a kernel that has just started comes to lose a wake-up, with two spawned processes |
| Process.Kernel.StaysLost | proc/process.c:237-365 | on the linked lists, a lost thread is neither queued nor dispatched in any run in which the tail stays stale |
| Process.Kernel.DrainStale | proc/process.c:298-321 | on the linked lists, the exact tick at which thread k of a queue with a stale tail runs, with those before it lost and those behind it queued |
| Process.Kernel.DestroyCurrent | proc/process.c:219-231 | destroying the current thread is refused if and only if it is RUNNING; a READY one is freed |
| Process.Kernel.SelfDispatchRun | proc/process.c:77-397 | a kernel that has just started comes to free the thread it is running, after one spawn, one exit and one slice |
| Process.Kernel.TickUntil | proc/process.c:298-321 | that many calls of the timer tick on the linked lists make the queued thread current |
| Process.Kernel.constructor | proc/process.c:271-297 | the boot state satisfies the invariant |
| Numerals.EvalDigits | libc/vsprintf.c:90-94 | the digits of a number, most significant first, evaluate to it in every base |
| Vsprintf.PutDigits | libc/vsprintf.c:67-94 | the digit loop leaves the reversed numeral in a buffer of 64 and never needs more than 32 places |
| Vsprintf.FmtInt | libc/vsprintf.c:64-130 | puts sign, prefix, padding and digits in the order that the flags ask for, into the buffer as far as it goes |
| Vsprintf.Vsnprintf | libc/vsprintf.c:199-319 | for every format, argument area and size: terminates, never reads behind the terminator or writes at an index of `size` or more, and prints and returns what the reference says |
| FormatLaws.LengthIff | libc/vsprintf.c:309-318 | the count put less one is the length of the text if and only if every directive is complete and no `%c` finds a word whose low byte is 0, and one too small otherwise |
| FormatLaws.BufferIff | libc/vsprintf.c:309-318 | the buffer holds the first min(length, size - 1) characters of the text and a NUL right behind them, whatever its size and content, if and only if every directive is complete and no `%c` finds a NUL |
| FormatLaws.LastCharacterLost | libc/vsprintf.c:309-318 | the buffer after the other formats: the NUL in place of the last character where the text would have fitted, at the end of the buffer for an empty text |
| FormatLaws.BufferHolds | libc/vsprintf.c:312-318 | with every directive complete and no NUL for a `%c`, a nonempty buffer holds the first min(length, size - 1) characters of the text and a NUL right behind them |
| FormatLaws.EndIff | libc/vsprintf.c:210-311 | how the output ends, from the format and the argument words alone: at the first NUL of a `%c`, else cut short exactly by an incomplete directive, else at the end, with as many slots taken as the format says |
| FormatLaws.NulNeedsChar | libc/vsprintf.c:298-311 | a NUL is printed only by a format with a `%c` and from a word whose low byte is 0; with all words such, by exactly the formats with a `%c` |
| FormatLaws.ShortModifiers | libc/vsprintf.c:257-287 | in any directive with n `h` before an integer conversion, an odd n prints 64 bits and takes two slots, an even n prints a word and takes one |
| FormatLaws.ShortSlots | libc/vsprintf.c:257-287 | `%h...hd` and its like take one slot if and only if the number of `h` is even |
| FormatLaws.StarPrecision | libc/vsprintf.c:245-308 | a precision is consumed as ISO C asks if and only if it is not a star; for a star the output is `%*` and the rest of the format, one slot on |
| FormatLaws.Concatenation | libc/vsprintf.c:210-311 | behind a part with complete directives that prints no NUL, printing a concatenation is printing the parts one after the other, the second from the slot that the first part's format determines |
| Directives.DirectiveLaw | libc/vsprintf.c:210-311 | what any directive prints, wherever it stands, from its characters: flags, widths and stars, ignored precision, length and conversion give the numeral of the argument in its base, with sign, prefix, letter case, padding and side, or the string or character; and the slot that the rest goes on from |
| Directives.NumeralUnique | libc/vsprintf.c:90-94 | a number has one numeral over an alphabet, so that the law determines every digit |
| Directives.DigitsAreNumeral | libc/vsprintf.c:90-94 | the digits of a number are its numeral over `0123456789abcdef` or `0123456789ABCDEF` |
| FormatLaws.EscapeRoundTrip | libc/vsprintf.c:212-218 | doubling the percent signs of any string makes a format that prints it |
| PrintParse.IntTextLength | libc/vsprintf.c:107-129 | an integer fills its field exactly or overflows it by as little as its sign, prefix and digits need |
| PrintParse.BodyValue | libc/vsprintf.c:90-94 | the printed digits are digits of the base and evaluate to the magnitude |
| PrintParse.RoundTrip | libc/string.c:122-184 | for every number, base 2..16, width and flags, `strtol` in that base returns the number wrapped to 32 bits and stops right behind its last digit |
| PrintParse.ConversionRoundTrip | libc/vsprintf.c:265-287 | what an integer directive prints for an argument word reads back as that word, in base 10 for `d`, `i` and `u`, 16 for `x` and `X`, 8 for `o` and 2 for `b` |
| BaseZero.RoundTripAuto | libc/string.c:141-157 | what `%o`, `%d` and `%x` print is read back with base 0 if and only if the text shows its base (a zero or `#` for octal, no zero in front of a decimal, `#` for hexadecimal) or the number is small, 7 or 9 at most; then the reading also ends where it does in the right base |
| BaseZero.PlainRead | libc/string.c:141-184 | for any field without a hexadecimal prefix, what base 0 reads is the longest string of digits of base 8 or 10, according to the first one |
| BaseZero.SmallerBase | libc/string.c:158-177 | read in a smaller base, a numeral has a smaller value, unless it is a single digit of that base |
| BaseZero.OctalReadInTen | libc/string.c:158-177 | read in base 10, an octal numeral is read to its end, and exceeds its number by ten times the excess of its front plus twice that front |
| BaseZero.ExcessNoMultiple | libc/string.c:158-177 | the wrapping accumulator never makes up for it: below 2^32 the excess is a multiple of 2^32 only for a single digit |
| BaseZero.ZeroPaddedDecimalIsOctal | libc/string.c:141-153 | `%03d` of a digit d reads back with base 0 up to 7, to its end; 8 and 9 are read as 0 after two characters |
| Strtol.Strtol | libc/string.c:122-184 | value and end pointer are those of the reference: spaces, sign, detected base, the longest digit string and its value modulo 2^32 |
| StrtolLaw.Reads | libc/string.c:122-184 | for any base 2..36 or 0: six kinds of blanks, a sign, a hexadecimal prefix where it belongs, and digits in either case are read as the number of those digits, negated and wrapped to 32 bits, up to the last digit |
| Tokens.Strchr | libc/string.c:84-90 | a pointer to the first place of the character, or NULL if and only if it is not there; the terminator is never found |
| Tokens.StrtokR | libc/string.c:186-260 | one call cuts off the first run of other characters, overwriting just the delimiter behind it, or finds none |
| Tokens.AllTokensR | libc/string.c:186-260 | the calling loop returns the runs in order, changes exactly the characters behind them, and ends exhausted |
| Tokens.AllTokens | libc/string.c:92-120 | the same for `strtok` and the fields between delimiters |
| Tokens.SpansRAreRuns | libc/string.c:202-258 | the tokens of `strtok_r` are exactly the maximal delimiter-free runs, once and in order |
| Tokens.SpansAreFields | libc/string.c:92-120 | the tokens of `strtok` are exactly the fields between delimiters, empty ones included but for one at the end |
| Tokens.NonEmptyTokens | libc/string.c:186-260 | the tokens of `strtok_r` are the nonempty tokens of `strtok` |
| Tokens.TokenizersAgree | libc/string.c:92-120 | the two agree if and only if the string has no delimiter at its start and no two in a row |
| Tokens.TokensStand | libc/string.c:247-257 | after all calls every token is still a C string with its own text |
| Tokens.StaysExhausted | libc/string.c:99-105 | once exhausted, any number of further calls with any delimiters return NULL and change nothing |
| FatTable.DecodePacked | fs/fat12.c:60-82 | decoding returns entry c of any packed 12-bit entries, for even and odd c |
| FatTable.LayoutIff | fs/fat12.c:279-285 | the layout is that of the FAT specification if and only if fewer than 256 sectors are hidden and the root directory fills its sectors |
| FatTable.LoadFat | fs/fat12.c:300-306 | every byte of the table is the byte of the FAT block it belongs to, as far as the device and its blocks go |
| FatTable.Mount | fs/fat12.c:247-364 | a volume with the FAT of the device in memory, or NULL if and only if there is no such device |
| FatTable.MountedEntries | fs/fat12.c:289-306 | on a mounted volume the driver reads back the entries that were packed into the FAT sectors of the disk |
| DiskFormat.BootDecoded | include/fs/fat12.h:58-102 | with all fields of the BIOS parameter block laid out in order, packed and low byte first, the driver finds each that it uses |
| DiskFormat.MountWritten | fs/fat12.c:247-306 | mounting a device whose first block holds given fields gives these fields and the layout that they say |
| DiskFormat.SlotDecoded | include/fs/fat12.h:138-154 | with all fields of a directory entry laid out in order, the driver finds name, attributes, first cluster and size |
| DiskFormat.AttributeBits | include/fs/fat12.h:30-35 | of an attribute byte written bit by bit it sees volume label and directory exactly by their bits |
| FatNames.FieldOfName | fs/fat12.c:107-129 | the field of any base of at most eight and any extension: base and the first three bytes behind the dot, padded with spaces |
| FatNames.RunsOver | fs/fat12.c:107-129 | the field of a name whose base is longer: its ninth to eleventh bytes are taken for the extension |
| FatNames.NormalTo83 | fs/fat12.c:107-129 | the loops fill the eleven bytes with padded base and extension |
| FatNames.NormalFrom83 | fs/fat12.c:84-105 | the loops write base, dot and extension, terminated |
| FatNames.NameRoundTrip | fs/fat12.c:84-129 | a name survives the way to a field and back if and only if it is valid: no space, a base of at most eight without a dot, and a dot only before one to three others |
| FatNames.FieldRoundTrip | fs/fat12.c:84-129 | a field survives the way to a name and back if and only if it is padded properly and has neither NUL nor a dot in its base |
| FatLookup.Lookup | fs/fat12.c:148-241 | finds the first live entry with the eleven bytes before the end mark of the flattened directory, with its sector and index, or NULL if and only if there is none |
| FatLookup.FoundOnce | fs/fat12.c:148-241 | the disk and the name determine what a lookup returns |
| FatLookup.MatchIsNamed | fs/fat12.c:161-241 | in a directory of proper fields a valid name finds the first file that is shown under it |
| FatRead.Read | fs/fat12.c:425-523 | -1, 0 or the clipped size, and exactly which bytes reach the caller's buffer and where, for every request that keeps to its buffers |
| FatRead.CopyClusters | fs/fat12.c:480-519 | the loop copies what `Output` says, and nothing else changes |
| FatRead.StopsAt | fs/fat12.c:509-517 | the loop follows the FAT and stops early behind a cluster of 0xFF8 or more |
| FatRead.ClipIff | fs/fat12.c:450-452 | a request is clipped to what the file has left if and only if offset plus size stays below 2^32 |
| FatFiles.ChunksTile | fs/fat12.c:457-506 | no chunk is empty or longer than a cluster, and together they are exactly the request, if and only if it takes at most the 65535 clusters that a `uint16_t` counts |
| FatFiles.ChainLength | fs/fat12.c:486-517 | a chain that ends never repeats a cluster, so it has fewer than 4088 |
| FatFiles.Fetches | fs/fat12.c:484-519 | along a chain the loop fetches the first block of every cluster, and the stale rest of its buffer behind it |
| FatContent.LbaIs | fs/fat12.c:131-146 | clusters lie one behind the other from cluster 2 at the start of the data area |
| FatContent.ReadIsRight | fs/fat12.c:425-523 | whatever the disk holds, a read that starts at the right cluster and needs only first blocks copies exactly the requested bytes of the file |
| FatContent.WrongOnSome | fs/fat12.c:461-490 | any other read is wrong for some content of the disk |
| FatContent.ReadIsRightIff | fs/fat12.c:425-523 | right for all contents if and only if the end of the request does not wrap around, the cluster at that place of the chain is the first plus offs / bytes_per_cluster, and no byte of it lies behind the first block of a cluster |
| FatContent.StartsRightEverywhere | fs/fat12.c:461-464 | every offset starts right if and only if the file is contiguous; offsets in the first cluster always do |
| FatContent.FragmentedFile | fs/fat12.c:461-490 | a file in clusters 2 and 4: the first half is read right on every disk, and the second half wrongly on some |
| Vfs.VfsRead | fs/vfs.c:171-190 | -1 and nothing touched for a missing file, node or buffer or an empty request; otherwise the driver's answer, and only a positive count moves the cursor |
| Vfs.ContiguousFile | fs/fat12.c:461-464 | a file in clusters 2 and 3 is one that can be read as a stream |
| Vfs.StreamRead | fs/fat12.c:444-523 | on a contiguous file with one block to a cluster a request is served with exactly the content asked for |
| Vfs.ReadStream | fs/vfs.c:171-190 | any sequence of requests puts content[start..cursor] into the buffer, the cursor ends at start plus the sum or at the end of the file, whichever comes first, and at the end requests return 0 and leave it alone |
| FatDisk.MountedChain | fs/fat12.c:60-82 | on a mounted volume the driver follows every chain that the entries written to the disk link |
| FatDisk.FindWritten | fs/fat12.c:148-364 | on a disk written field by field, a name of base and extension finds the first slot that shows it, deleted slots and volume labels passed over, before the end mark, with its cluster, size, kind and place; NULL if and only if there is none |
| FatDisk.ContentIsRaw | fs/fat12.c:131-146 | the content of a file in one piece is its sectors of the disk, byte by byte |
| FatDisk.ReadNamed | fs/fat12.c:148-523 | from end to end: mounting a disk with that boot sector, those FAT entries and that root directory, looking a name up and reading in requests of any sizes fills the buffer with the bytes of the file's sectors |
| FatDisk.ReadSmall | fs/fat12.c:148-523 | a disk of nine blocks with a file `A` meets all that asks for, and its data are read, in one request or in many |
| Elf.LeastCover | include/utils.h:182-186 | the two macros give the least range of whole pages that covers a segment |
| Elf.LoadSeg | proc/elf.c:18-36 | in exactly the pages asked for, every byte of memory: the file bytes that are read, zeros up to p_memsz, and else what the new pages held; no other memory changes |
| Elf.WholeIff | proc/elf.c:18-36 | a segment's memory is its file bytes followed by zeros, whatever the new pages held, if and only if it is not at address 0 and the file has all its bytes (or it takes none from it) |
| Elf.NothingAtZero | proc/elf.c:18-36 | the instance at address 0, which follows from the contract of `LoadSeg`: of such a segment no byte is read: its file bytes stay as the new pages held them |
| Elf.WholeImage | proc/elf.c:29-34 | a segment in memory whose bytes are all in the file is its file bytes followed by zeros |
| Elf.StaysInMemory | proc/elf.c:52-67 | a loaded segment survives the loading of one apart from it |
| ElfFormat.HeaderDecoded | include/proc/elf.h:91-103 | with all fields of the ELF header laid out in order, low byte first, the loader finds each that it uses |
| ElfFormat.ProgramDecoded | include/proc/elf.h:105-114 | the same for a program header |
| ElfFormat.CheckIff | proc/elf.c:5-17 | exactly 32-bit little-endian files of the executable type with the magic number are accepted |
| ElfFormat.LoadWritten | proc/elf.c:37-71 | loading a file written with these headers: refused untouched unless executable, entry point and all pages as the headers say, every segment that no later one overlaps in place with its file bytes and zeros, other memory unchanged |
| ElfFormat.SmallElf | proc/elf.c:37-71 | a file with one segment on a small volume meets all that asks for |
| Elf.Load | proc/elf.c:37-71 | fails without touching memory for a missing, short or foreign file; otherwise succeeds if and only if every region is granted, with the entry point and every segment in memory that no later one shares memory with |

## Left out

- Fork, `process_exit` and process names.
- Trap frames, segment registers, page directories and kernel stacks of threads: a context switch changes the current thread.
- Port input and output, DMA, the interrupt controller, the block layer's registry and the boot code: a block read returns the block, and past the end of the device nothing.
- The memory manager, system calls, keyboard and terminal: their C sources are not part of this model.
- The mount table and path splitting of `vfs_mount` and `vfs_open`, and `fat12_open`: a file starts out opened, or without a node.
- The stubs `fat12_close`, `fat12_write` and `fat12_readdir`, and `fat12_unmount`, which frees.
- Thread states that are set from outside proc/process.c.
- `int` overflow of pids, thread ids, field widths and precision, which are unbounded here.
- Process.Kernel.PerformRun: threads created in the run cannot be named before it; a run with creations is runs with `PerformCreate` in between, which `StaleTails.RunOnConcat` joins.
- Process.Kernel.ProcessDestroy: not for the process that exists from the start, whose list of threads ends in a `next` pointer that is never set, nor for the current one, whose thread would not be freed with it.
- Process.Kernel.SchedulerPost: requires a tail pointer that is right or points off its queue, as every operation leaves it; the freed thread it may point at is written to, and that its storage may be in use again by then is not modelled.
- Process.Kernel.ProcessFindByPid: for an absent pid the C function returns nothing in particular; the model returns NULL.
- Directives.DirectiveLaw: `.*` is not among its precisions; `FormatLaws.StarPrecision` says what becomes of it.
- Process.Kernel.CreatedIsFound: its runs leave out posts and destructions of single threads, which touch neither the table nor the processes, and a killing of the process that is current at the time.
- Vsprintf.Vsnprintf: output of 2^32 characters or more, where the position counter wraps around.
- BaseZero.RoundTripAuto: not for `%b`, which `strtol` has no notation for; there the wrapping accumulator hits the number by accident for a few, such as 2^28.
- Strtol.Strtol: signed overflow of the accumulator, undefined in C, wraps around to 32 bits.
- FatTable.Mount: requires blocks of 512 bytes, the size of the boot-sector buffer, and sectors that are no smaller; with smaller ones the loader writes behind its table.
- FatTable.LoadFat: requires blocks that are no larger than a sector, for the same reason.
- FatLookup.Lookup: requires a root directory inside the device, in sectors of 512 bytes, as the buffer of sixteen entries does.
- FatRead.Read: requires that the loop keeps to the FAT, to its read buffer and to the caller's buffer; beyond these C has no meaning.
- FatRead.CopyClusters: the volume is a value, as nothing writes to the disk or to the FAT in memory.
- Elf.Load: requires program headers inside the file and segments that do not wrap around the address space; elsewhere the C code loads from an uninitialised structure or over memory it has not asked for.
- ElfFormat.LoadWritten: the same, for the segments to load.
- Elf.AddressSpace.AllocRegion: an assumed contract, since `vmm_alloc_region` has no C source here: it maps the range, whatever the new pages hold, and leaves other memory alone.
