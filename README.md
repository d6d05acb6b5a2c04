# Nachos kernel core: address spaces, frames, process tree, TLB, alarm

A Dafny model of the memory and process bookkeeping of a Nachos kernel
(the `userprog` and `vm` packages), of the alarm's sleep queue, and of the
`fibonacci_cmd` user program that exercises `exec` and `join`.

- **Machine** (`machine.dfy`): page size 1024, Java's signed `byte`, 32-bit
  `int` wrap-around, translation entries, address packing
  `page * pageSize + offset`, and the little-endian 4-byte word encoding
  `Lib.bytesFromInt` / `Lib.bytesToInt`. Module **Util** holds `Option`,
  sequence reversal and splicing.
- **VirtualMemory** (`virtual_memory.dfy`): the functions that specify
  `readVirtualMemory` and `writeVirtualMemory`. They give the address
  guard (`Rejected`), the number of bytes moved (`TransferCount`), the
  translation of a virtual address (`PhysAddr`), the memory after a write
  (`WriteImage`), and the order in which `returnAllPages` gives frames back.
- **Kernel** (`user_kernel.dfy`): class `UserKernel`, the frame allocator.
  It has a LIFO free list, an inverted page table, swap slots keyed by
  `(pid, vpn)`, the swap file as a map from offset to page, and
  `currentPosition`.
- **Arguments** (`arguments.dfy`): the argument page `load` builds, a
  pointer table followed by NUL-terminated strings, as a function of the
  arguments.
- **Process** (`user_process.dfy`): class `UserProcess`. It holds the page
  table array, `numPages`, the open-file table and the start registers. It
  has the two copy routines, the string read, `allocate`, `returnAllPages`,
  `load` with its section, stack and argument-page steps, `loadSections`
  and `unloadSections`.
- **Syscalls** (`syscalls.dfy`): class `Registry` holds the process records
  (parent, children, child statuses, exited), `totalProcess` and
  `currentlyRunning`. It models `handleExec`, `handleJoin`, `handleExit`,
  `handleHalt`, `handleRead` and `handleWrite`. The tree invariant `Tree`
  is proved preserved by exec, join and exit.
- **VM** (`vm_process.dfy`): `VMProcess.restoreState` (TLB flush),
  `handleTLBMiss` (lookup and slot choice) and the `handleException` route.
  The TLB is an array.
- **Alarm** (`alarm.dfy`): class `Alarm` with its sleep queue, `waitUntil`
  and `timerInterrupt`. The threads an interrupt readies are its result.
- **Fibonacci** (`fibonacci.dfy`): `stringToInt`, `intToString` with its
  in-place reversal, and the recurrence `main` computes through its
  children.

Where the code has a randomness source (`Math.random`), a clock, the console
or a file, the model takes that value as a parameter:

- `random` is a real in `[0, 1)`.
- The current time is `now`.
- `input` is what the console delivered.
- `executable` is the parsed executable, or `None` when it does not open.

### Behaviour kept as the code has it

The model follows each of these as the code has it:

- `Alarm.timerInterrupt` readies a sleeper only when its wake time is
  strictly before the current time (threads/Alarm.java:41). The class's
  doc comment promises a wake-up once the time has been reached. A sleeper
  due exactly now stays asleep (`Alarm.EqualTimeStaysAsleep`).
- `handleWrite` returns 0 whatever the console took
  (userprog/UserProcess.java:642-656).
- `writeVirtualMemory` refuses every write once `numPages` equals the page
  table's length (userprog/UserProcess.java:257).
- The wake time `now + x` is a Java `long` sum, which wraps around: a wait
  ending past `Long.MAX_VALUE` is readied by the next interrupt
  (`Alarm.OverlongWaitIsDue`).
- `fibonacci_cmd` computes in C's 32-bit `int`. `stringToInt` wraps
  around, so a decimal string past `INT_MAX` parses to a negative number
  (`Fibonacci.LongDecimalParsesNegative`). The sum `A+B` wraps from
  `n == 45` on (`Fibonacci.FibFitsUpTo44`).
- A fragmented executable, oversized arguments, or a failed
  `loadSections` makes `load` return `false` without returning the pages
  already allocated (userprog/UserProcess.java:401-405, 425-429, 461-462).
- The victim `floor(random * pagetable.size())` in `allocatePage` is
  computed on an empty list, so it is always frame 0
  (userprog/UserKernel.java:138).
- The name test of `handleExec` is a substring test
  (`Syscalls.NameTestIsSubstring`).

## Model

| member | source | states |
|---|---|---|
| Machine.Wrap32 | userprog/UserProcess.java:158 | the Java `int` value of an expression: a 32-bit value congruent to the mathematical one modulo 2^32, and equal to it when it already fits |
| Machine.AddressRoundTrip | userprog/UserProcess.java:180-193 | unpacking a packed (page, in-page offset) address gives back the page and the offset |
| Machine.AddressSplit | userprog/UserProcess.java:168-169 | every address is the packing of its page number and its offset, and the offset lies in `[0, pageSize)` |
| Machine.PageOfAddress | userprog/UserProcess.java:180-181 | an address in `[p*pageSize, (p+1)*pageSize)` is in page `p`, at offset `addr - p*pageSize` |
| Machine.BytesRoundTrip | userprog/UserProcess.java:687 | decoding the 4-byte image of any 32-bit word gives the word back, so a pointer or status passed through user memory arrives unchanged |
| Machine.CopyBytes | userprog/UserKernel.java:163-166 | the copy loop puts the `count` source bytes, in order, into the target run and changes nothing else in the target |
| VirtualMemory.RejectedMeaning | userprog/UserProcess.java:158-166 | for 32-bit requests, the copy guard refuses exactly a negative start, an empty request, a request past the end of page `numPages-1`, and (read) a process without pages or (write) one whose `numPages` reached the table length |
| VirtualMemory.AcceptedEnd | userprog/UserProcess.java:158 | for an accepted 32-bit request, the `int` end address did not wrap and the request is not empty |
| VirtualMemory.AcceptedPages | userprog/UserProcess.java:168-169 | the first and last page of an accepted request lie inside the process's `numPages` pages |
| VirtualMemory.FirstBlocked | userprog/UserProcess.java:171-174 | the page the copy loop stops at: every page before it is accessible and it is not |
| VirtualMemory.FirstBlockedIs | userprog/UserProcess.java:264-267 | the loop stops at page `i` exactly when `i` is the first page from the start that stops it |
| VirtualMemory.LoopExitCount | userprog/UserProcess.java:171-211 | the byte count a copy loop has reached when it leaves at page `i` is the request's `TransferCount`: all of it, nothing, or up to the first blocked page |
| VirtualMemory.PageStep | userprog/UserProcess.java:180-200 | one round copies a non-empty run that stays inside page `i`, and the cursor moves to the next page's start or just past the end of the request |
| VirtualMemory.PageRunHolds | userprog/UserProcess.java:192-197 | a run inside one page is, byte for byte, the run at the same offset in that page's frame |
| VirtualMemory.HoldsAppend | userprog/UserProcess.java:199-200 | memory holding two adjacent virtual images holds their concatenation |
| VirtualMemory.StringImage | userprog/UserProcess.java:120-125 | the zero scan runs off the end exactly when no byte read is zero; otherwise the bytes before the first zero contain no zero and, followed by it, are held in memory |
| VirtualMemory.HeldStringUnique | userprog/UserProcess.java:120-125 | at most one zero-free string is held at an address with its terminating zero, so the string a read finds is determined by memory |
| VirtualMemory.OnePageInjective | userprog/UserProcess.java:285-290 | distinct addresses of one page translate to distinct physical addresses |
| VirtualMemory.DistinctFramesInjective | userprog/UserProcess.java:264-295 | when the pages of a range use pairwise distinct frames, its addresses translate to distinct physical addresses |
| VirtualMemory.WriteImageFrame | userprog/UserProcess.java:288-290 | a write changes only the physical bytes that some written virtual address translates to |
| VirtualMemory.WriteImageHolds | userprog/UserProcess.java:288-290 | when the written addresses translate injectively into memory, memory afterwards holds exactly the bytes written at those addresses |
| VirtualMemory.WriteImageLast | userprog/UserProcess.java:289 | the last byte of a write lands at its translated address on top of the shorter write |
| VirtualMemory.WriteImagePageRun | userprog/UserProcess.java:285-290 | a run written inside one page stores its bytes, in order, at the frame run, and every other physical byte keeps the value the earlier rounds left |
| VirtualMemory.WriteInPage | userprog/UserProcess.java:285-290 | a write that stays inside one page is the source bytes spliced into that page's frame at the in-page offset |
| VirtualMemory.InPageTransfer | userprog/UserProcess.java:257-296 | a write inside the writable last page moves all of its bytes, unless it is empty or `numPages` equals the table length, when it moves none |
| VirtualMemory.RunInMemory | userprog/UserProcess.java:286 | every address of a run whose pages name frames of the machine translates into physical memory |
| VirtualMemory.ValidFramesMembers | userprog/UserProcess.java:353-366 | a frame is handed back exactly when some valid entry of the table names it |
| VirtualMemory.ValidFramesLength | userprog/UserProcess.java:353-366 | the frames handed back are one per valid entry |
| VirtualMemory.ReclaimOrderReversed | userprog/UserProcess.java:355-361 | reclaiming the valid entries in table order pushes their frames so that the free list gains them last one first |
| VirtualMemory.ReclaimOrderInRange | userprog/UserProcess.java:358-360 | every frame given back names a frame of physical memory |
| VirtualMemory.NoValidNoFrames | userprog/UserProcess.java:353-366 | a table without valid entries gives back no frames, so a second `returnAllPages` changes nothing |
| Kernel.NewSlotKeepsLayout | userprog/UserKernel.java:172-183 | giving a page its first swap slot at `currentPosition` keeps every slot page-aligned, below `currentPosition`, pairwise distinct and holding one page |
| Kernel.RewriteKeepsLayout | userprog/UserKernel.java:156-171 | rewriting a page in the slot it already has keeps the swap layout |
| Kernel.SwapOutKeepsLayout | userprog/UserKernel.java:156-183 | every eviction, whether to an old or a new slot, keeps the swap layout well formed |
| Kernel.EvictTwiceSameSlot | userprog/UserKernel.java:156-183 | evicting the same page twice uses the same offset both times, the first new slot is the old `currentPosition`, the second eviction does not move `currentPosition`, and a dirty second eviction stores its page there |
| Kernel.UserKernel.constructor | userprog/UserKernel.java:29-48 | after `initialize`, frames `0 .. n-1` are free in increasing order, no swap slot is used and `currentPosition` is 0 |
| Kernel.UserKernel.AllocatePage | userprog/UserKernel.java:128-194 | with a free frame, the head is popped and returned and nothing else changes; with none, frame 0 is the victim: its owner's page is swapped out, its key leaves the inverted table and frame 0 is returned (-1 with nothing changed when no key owns it) |
| Kernel.UserKernel.Evict | userprog/UserKernel.java:139-186 | the eviction path for a victim frame: the owning key's page goes to swap as `SwapOut` describes, the key leaves the inverted table, the free list stays |
| Kernel.UserKernel.WritePageToSwap | userprog/UserKernel.java:156-183 | a key with a slot is rewritten there only when dirty; a key without one is written at `currentPosition`, which becomes its slot and advances by one page |
| Kernel.UserKernel.ReclaimPage | userprog/UserKernel.java:196-202 | the frame goes to the head of the free list, so the next allocation returns it; nothing else changes |
| Arguments.ArgsSizeIsImageSize | userprog/UserProcess.java:418-424 | `argsSize`, summing `4 + len + 1` per argument, is the size of the pointer table plus the NUL-terminated strings |
| Arguments.ArgPageSize | userprog/UserProcess.java:418-429 | the argument page image is exactly `argsSize` bytes long, the size checked against one page |
| Arguments.StringsBound | userprog/UserProcess.java:465-479 | the pointer table and each string with its NUL end within `argsSize` |
| Arguments.PointerStored | userprog/UserProcess.java:471-474 | slot `i` of the pointer table holds the 4-byte image of the address of string `i` |
| Arguments.PointerDecodes | userprog/UserProcess.java:465-477 | pointer `i` decodes to `base + 4*argc + Σ_{j<i}(len_j + 1)` |
| Arguments.StringStored | userprog/UserProcess.java:475-479 | string `i` sits at its offset in the page, followed by one NUL |
| Arguments.RoundStep | userprog/UserProcess.java:471-480 | one round of the argument loop adds pointer `i` and string `i` to the memory the earlier rounds left |
| Arguments.RoundsComplete | userprog/UserProcess.java:471-482 | after the last round the frame holds the whole argument page image |
| Arguments.NoRounds | userprog/UserProcess.java:465-470 | before the first round memory is unchanged |
| Process.UserProcess.constructor | userprog/UserProcess.java:28-49 | entry `i` of the new page table is the invalid entry for page `i`, `numPages` is 0, and only descriptors 0 and 1 are open |
| Process.UserProcess.ReadVirtualMemory | userprog/UserProcess.java:154-212 | returns the `TransferCount` of the request (at most `length`); the bytes placed in `data[offset ..]` are the physical bytes the addresses translate to; nothing else in `data` changes |
| Process.UserProcess.ReadPages | userprog/UserProcess.java:171-202 | the page loop stops at the first invalid page or past the last; the count is the distance covered, and what it copied is held at the request's addresses |
| Process.UserProcess.WriteVirtualMemory | userprog/UserProcess.java:241-297 | returns the `TransferCount` of the request (at most `length`); every address written translates into memory, and memory afterwards is the `WriteImage` of the bytes written |
| Process.UserProcess.WritePages | userprog/UserProcess.java:264-295 | the page loop stops at the first invalid or read-only page or past the last, and memory is the write image up to the cursor |
| Process.UserProcess.ReadVirtualMemoryString | userprog/UserProcess.java:113-126 | `None` exactly when no byte read is zero; otherwise a string of at most `maxLength` bytes with no zero, which, followed by a zero within the bytes read, is held at `vaddr`; any string so held is the result |
| Process.UserProcess.ZeroIndex | userprog/UserProcess.java:120-123 | the index of the first zero among the bytes read, or their count when there is none |
| Process.UserProcess.Allocate | userprog/UserProcess.java:320-351 | on success, pages `start .. start+n-1` are valid with the given protection and fresh frames, and `numPages` grows by `n`; running past the table fails and keeps the pages; a refused frame fails after resetting this call's pages to invalid, reclaiming their frames and restoring `numPages`; with enough free frames the frames are the head of the free list |
| Process.UserProcess.Rollback | userprog/UserProcess.java:332-342 | every page this call installed is reset to invalid, its frame goes back to the free list, and `numPages` drops by their number |
| Process.UserProcess.ReturnAllPages | userprog/UserProcess.java:353-366 | every valid entry becomes the invalid entry of its page, the others stay, and the free list gains each valid frame once, last one first |
| Process.UserProcess.ReleaseAllPages | userprog/UserProcess.java:439-440 | after `returnAllPages` and `numPages = 0` no entry is valid |
| Process.UserProcess.Load | userprog/UserProcess.java:379-483 | fails without a parsed executable; on success the sections lie end to end from page 0, the arguments fit in a page, `numPages` is sections + 8 stack pages + 1, the stack pointer and `argv` are set, and the last page's frame holds the argument page; enough free frames and table room guarantee success |
| Process.UserProcess.AllocateSections | userprog/UserProcess.java:398-415 | success means the sections are contiguous from page 0 and mapped valid with their protection; a fragmented executable fails; a failed allocation leaves no valid entry and `numPages` 0 |
| Process.UserProcess.LoadStackAndArguments | userprog/UserProcess.java:436-482 | after the sections: on success the stack and argument page are laid out and the argument page is stored; on failure memory is unchanged; enough free frames for the 9 pages and table room (one entry to spare when there are arguments) guarantee success |
| Process.UserProcess.AllocateStackAndArgumentPage | userprog/UserProcess.java:436-458 | 8 writable stack pages then one writable argument page follow the sections, with the stack pointer at their boundary; either failure returns every page |
| Process.UserProcess.ArgumentsSize | userprog/UserProcess.java:418-424 | the loop's sum is `ArgsSize` |
| Process.UserProcess.LoadSections | userprog/UserProcess.java:492-523 | succeeds exactly when the process fits in physical memory and every page of every section is valid |
| Process.UserProcess.UnloadSections | userprog/UserProcess.java:528-543 | every page is returned as `ReturnAllPages` states, `numPages` is 0 and every descriptor slot is closed |
| Process.UserProcess.StoreArguments | userprog/UserProcess.java:465-482 | `argc` and `argv` are set; it succeeds exactly when there are no arguments or the table has an entry to spare, one past the argument page, and then the last page's frame holds the argument page; on failure memory is unchanged |
| Process.UserProcess.WriteArgument | userprog/UserProcess.java:471-480 | one round writes the pointer, the string and its NUL in full, or, when the pages fill the table, nothing |
| Process.WriteLoopExit | userprog/UserProcess.java:264-296 | where the write loop stops, its count is the transfer count and every address it wrote translates into memory |
| VM.Flushed | vm/VMProcess.java:37-43 | the flushed TLB has the same length and each entry with only its valid bit cleared |
| VM.FlushedIsEmpty | vm/VMProcess.java:34-45 | after a flush no entry is valid, and flushing twice is flushing once |
| VM.FirstWithVpn | vm/VMProcess.java:109-116 | `None` exactly when no entry has the page number; otherwise the entry at the lowest such index, valid or not |
| VM.FirstInvalid | vm/VMProcess.java:128-135 | the lowest index of an invalid slot, with every slot before it valid, or the TLB size when all are valid |
| VM.SlotForChoice | vm/VMProcess.java:126-141 | the chosen slot lies in `[0, tlbSize)`; it is invalid exactly when some slot is, and then it is the lowest invalid slot |
| VM.FirstMissAfterFlush | vm/VMProcess.java:126-135 | the first miss after a context switch fills slot 0 |
| VM.TranslationOnIndexedTable | vm/VMProcess.java:104-117 | with no inverted-table hit, a page inside the table finds its own entry, valid or not, and a page outside finds nothing |
| VM.RestoreState | vm/VMProcess.java:34-45 | the TLB becomes its flushed image |
| VM.LookupEntry | vm/VMProcess.java:104-117 | the inverted-table entry for `(pid, vpn)` when there is one, otherwise the first page-table entry for `vpn` |
| VM.FindTLBSlot | vm/VMProcess.java:126-141 | the lowest invalid slot, otherwise `floor(random * size) % size` |
| VM.HandleTLBMiss | vm/VMProcess.java:92-147 | a found translation is written into the chosen slot and no other slot changes; without one the TLB stays and the outcome is `NotFound` with the slot |
| VM.HandleException | vm/VMProcess.java:72-88 | a TLB miss at the bad address goes to the miss handler; every other cause is delegated with the TLB untouched |
| Syscalls.RemoveAtDrops | userprog/UserProcess.java:751 | removing a child from a list without repeats removes it for good, keeps every other child and keeps the list free of repeats |
| Syscalls.SpawnKeepsTree | userprog/UserProcess.java:706-707 | starting a child keeps the tree invariant and adds exactly the child to the running processes |
| Syscalls.JoinKeepsTree | userprog/UserProcess.java:739-751 | joining a child keeps the tree invariant and the running set, and the child is off the list afterwards |
| Syscalls.ExitKeepsTree | userprog/UserProcess.java:784-801 | an exit keeps the tree invariant, stops exactly the exiting process, and leaves no child linked to it |
| Syscalls.NameTestIsSubstring | userprog/UserProcess.java:671 | every name with ".coff" anywhere in it passes the name test, whatever comes before and after (`a.coff.sh` passes) |
| Syscalls.FindChild | userprog/UserProcess.java:723-730 | -1 exactly when the pid is not a child; otherwise the first position holding it |
| Syscalls.HandleHalt | userprog/UserProcess.java:571-581 | the machine halts exactly when the caller is process 0; any other caller gets -1 |
| Syscalls.HandleRead | userprog/UserProcess.java:583-619 | a bad descriptor, size or address, or a failed console read, gives -1 with memory unchanged; otherwise the bytes read (none for other descriptors) are written to `vaddr` and the count written is the result |
| Syscalls.HandleWrite | userprog/UserProcess.java:623-657 | a bad descriptor, size or address gives -1 and no output; otherwise the result is 0, and for descriptor 1 the console gets the bytes held at `vaddr`, as many as the read lets through |
| Syscalls.ReadExecRequest | userprog/UserProcess.java:659-695 | a request is read exactly when the pointer checks pass, a name containing ".coff" is held at `fileVaddr` and every argument is readable; it then holds `argLength` arguments, and its name and arguments are the strings the caller's memory holds |
| Syscalls.ReadArguments | userprog/UserProcess.java:676-695 | the arguments are read exactly when each of the `argLength` arguments is readable, and then argument `i` is the string at the address stored in the word at `argVaddr + 4i` |
| Syscalls.ReadArgument | userprog/UserProcess.java:680-694 | an argument is read exactly when the 4-byte word at `argVaddr + 4i` reads in full and a string of at most 256 bytes ends in a zero at the address it encodes; that string is the result |
| Syscalls.Registry.constructor | userprog/UserProcess.java:939-941 | once the first process runs, it is pid 0, the next pid is 1 and one process runs |
| Syscalls.Registry.HandleExec | userprog/UserProcess.java:659-709 | the request is read exactly when `ExecReadable` holds of the caller's memory; otherwise -1 with nothing changed; once read a pid is used up whether or not the child starts; a started child gets the old `totalProcess` as pid, runs, and joins the caller's children; a readable request whose executable fits in memory always starts a child |
| Syscalls.Registry.StartChild | userprog/UserProcess.java:697-704 | the child takes the next pid, the running count grows exactly when it loads, and an executable that fits the free frames and a fresh page table always loads |
| Syscalls.Registry.Adopt | userprog/UserProcess.java:706-708 | the child joins the caller's child list with the caller as parent, keeping the tree invariant |
| Syscalls.Registry.HandleJoin | userprog/UserProcess.java:711-774 | a bad pid or address, or a pid not among the caller's children, gives -1 and changes nothing; otherwise the child leaves the list, so a second join of it gives -1; it gives 0 with no status recorded, else the status is written and the result is 1 exactly when all four bytes went in |
| Syscalls.Registry.Unlink | userprog/UserProcess.java:739-753 | the child's parent link is cleared, it leaves the list, and its recorded status, if any, is returned |
| Syscalls.Registry.WriteStatus | userprog/UserProcess.java:759-773 | memory gains the bytes of the status word that the page table lets through, and the result is 1 exactly when all four did, else 0 |
| Syscalls.Registry.HandleExit | userprog/UserProcess.java:776-815 | the exit status reaches the parent's map, the address space is returned, every child loses its parent link, the caller stops running, and the machine terminates exactly when nothing is left running |
| Syscalls.Registry.ExitRecords | userprog/UserProcess.java:784-812 | the record changes of an exit: the parent's status entry, the children's links, one process fewer running, and whether none is left |
| Syscalls.Registry.ReportStatus | userprog/UserProcess.java:784-790 | the status is stored for the caller in its parent's map when it has a parent |
| Syscalls.Registry.ClearParentLinks | userprog/UserProcess.java:794-798 | every listed child loses its parent link |
| Alarm.PartitionIsExact | threads/Alarm.java:36-49 | the readied and the kept sleepers together are the queue's sleepers with their multiplicities, and their counts add up to the queue's length |
| Alarm.PartitionMembership | threads/Alarm.java:41-48 | a sleeper is readied exactly when it is queued with a wake time before now, and kept exactly when its wake time is now or later |
| Alarm.EqualTimeStaysAsleep | threads/Alarm.java:41 | a sleeper whose wake time equals the interrupt time stays asleep |
| Alarm.NothingDueKeepsQueue | threads/Alarm.java:38-49 | an interrupt with nothing due readies nobody and leaves the queue as it was |
| Alarm.InterruptStep | threads/Alarm.java:40-48 | one round takes the head; readying it or putting it back at the tail both give the queue and the readied list of the next prefix |
| Alarm.Alarm.constructor | threads/Alarm.java:100 | the sleep queue starts empty |
| Alarm.OverlongWaitIsDue | threads/Alarm.java:41-70 | a wait whose end passes `Long.MAX_VALUE` gets a negative wake time, so the very next interrupt readies it |
| Alarm.Alarm.WaitUntil | threads/Alarm.java:68-86 | one sleeper is appended at the tail with wake time the `long` sum `now + x`, or nothing when there is no current thread |
| Alarm.Alarm.TimerInterrupt | threads/Alarm.java:33-52 | the readied threads are those with wake time before the current time, in queue order; the queue keeps the others in their original order |
| Fibonacci.StringToInt | out/production/nachos/test/fibonacci_cmd.c:8-15 | the value of the characters before the NUL, accumulated left to right, modulo 2^32 as a signed `int` |
| Fibonacci.ParseStep | out/production/nachos/test/fibonacci_cmd.c:9-11 | one step `ans*10 + (c - '0')` in a wrapping `int` keeps `ans` equal to the digits' value so far modulo 2^32, read as a signed `int` |
| Fibonacci.PutLowDigits | out/production/nachos/test/fibonacci_cmd.c:21-26 | the buffer starts with the decimal digits of `x`, least significant first (none when `x <= 0`); later characters stay |
| Fibonacci.ReversePrefix | out/production/nachos/test/fibonacci_cmd.c:30-34 | the swap loop reverses `s[0 .. sz)` in place and leaves the rest alone |
| Fibonacci.IntToString | out/production/nachos/test/fibonacci_cmd.c:19-35 | the buffer starts with the decimal string of `x` (empty when `x <= 0`) and a NUL; later characters stay |
| Fibonacci.DecimalIsReversed | out/production/nachos/test/fibonacci_cmd.c:21-34 | the decimal string is the low-first digit sequence reversed |
| Fibonacci.NoLeadingZero | out/production/nachos/test/fibonacci_cmd.c:19-35 | the decimal string of a positive number does not start with '0' |
| Fibonacci.DecimalRoundTrip | out/production/nachos/test/fibonacci_cmd.c:8-15 | accumulating the decimal string of `x` gives `x` |
| Fibonacci.IntStringRoundTrip | out/production/nachos/test/fibonacci_cmd.c:47-53 | for every C `int` `x`, `stringToInt` of the string `intToString(x)` leaves is `x` when positive and 0 otherwise: the children parse the `n-2` and `n-1` their parent passes |
| Fibonacci.DigitsParseExactly | out/production/nachos/test/fibonacci_cmd.c:8-15 | a digit string whose value fits in an `int` parses to that value, which is not negative |
| Fibonacci.LongDecimalParsesNegative | out/production/nachos/test/fibonacci_cmd.c:9-11 | the decimal string of a value between `INT_MAX` and 2^32 parses to that value minus 2^32, a negative number |
| Fibonacci.Sum32IsWrapped | out/production/nachos/test/fibonacci_cmd.c:51-70 | the `int` sums `n-2`, `n-1` and `A+B` are the mathematical sums wrapped to 32 bits, unchanged when they fit |
| Fibonacci.ChildValueIsParse | out/production/nachos/test/fibonacci_cmd.c:47-52 | the value a child computes with is the parse of the string `intToString` made of what its parent passed |
| Fibonacci.StatusIsFib | out/production/nachos/test/fibonacci_cmd.c:49-71 | once `stringToInt` gave `n`, the program exits with `f(n)` whenever that fits in an `int` |
| Fibonacci.ProgramComputesFib | out/production/nachos/test/fibonacci_cmd.c:44-71 | run on the decimal string of `n`, the program exits with `f(n)`, where `f(0)=1`, `f(1)=2`, `f(n)=f(n-2)+f(n-1)`, whenever `f(n)` fits in an `int` |
| Fibonacci.FibFitsUpTo44 | out/production/nachos/test/fibonacci_cmd.c:69-70 | `f(n)` fits in an `int` exactly when `n <= 44`; from 45 on `A+B` wraps around |

## Left out

- Console and file I/O, the swap file's real writes, `Coff` parsing and the loading of section contents (`loadPage`): the console read, the executable and the swap file become parameters and maps.
- The open-file table is modelled as "slot open or not"; closing files and the executable is not modelled.
- `Processor`, `Machine`, `TranslationEntry` and `Lib` are not part of this model. The page size 1024, the packing `page * pageSize + offset`, the little-endian word encoding and the TLB-miss cause number 2 are the Nachos conventions, assumed here.
- `initRegisters`, the `handleSyscall` dispatch and `UserProcess.handleException` are left out. They only move register values to and from the handlers.
- Threads, locks, interrupt masking, `KThread.sleep`/`ready`/`yield`, `UThread.fork`/`finish`, `Kernel.terminate` and `Machine.halt` are not modelled. Halting and termination become results (`halt`, `terminate`), and readied threads become a list.
- `Syscalls.Registry.HandleJoin`: the wait `myThread.join()` becomes a precondition that the child has exited, because blocking is not modelled.
- `Syscalls.Registry.HandleExec`: the executable the child loads is a parameter. The model does not relate it to the file name read, because the file system is not modelled.
- `Syscalls.HandleRead`: the buffer holds only the bytes the console delivered. The rest of the code's `size`-byte buffer is never passed on.
- `Syscalls.Registry.HandleExit`: the status report is done before `unloadSections`. The code does it the other way round; the two touch disjoint state.
- Strings are byte sequences. `String` decoding and `getBytes` are not modelled.
- `invertedPageTable` and `InvertedPageTableIndex` are used by the code but not declared in userprog/UserProcess.java. The model uses a kernel map from `(pid, vpn)` to an entry, and nothing shown inserts into it.
- `swapFilePosition` is never initialised (userprog/UserKernel.java:212). The model starts it as the empty map.
- `Kernel.UserKernel.AllocatePage`: when no key of the inverted table owns the victim frame, the code prints and goes on with a null key, which throws. The model returns -1 and changes nothing.
- `VM.HandleTLBMiss`: when no translation is found, the code writes a null entry into the slot. The model leaves the TLB as it was and reports `NotFound` with the slot.
- `VM.HandleTLBMiss`: a TLB of size 0 is excluded. The random slot `x % 0` would throw in Java.
- `VM.HandleTLBMiss`: Java entry objects are aliased between the page table and the TLB. The model copies entry values, so a later change through one is not seen through the other.
- `Arguments`: `argsSize` is summed without 32-bit wrap-around. It is bounded by the arguments' total length, which is assumed to fit.
- `Process.UserProcess.LoadStackAndArguments`: the `loadSections` failure branch is not reachable after `load`'s own allocations. The model proves that.
- Process.UserProcess.StoreArguments: where the code's `Lib.assertTrue` fails (arguments present and no page-table entry to spare, userprog/UserProcess.java:473-478), the model returns `false` instead of throwing, so `load` fails and `exec` gives -1.
- Fibonacci.StringToInt: signed overflow is undefined in C. The model wraps around in two's complement, as the MIPS target does. Characters are taken by their code; C's signed `char` for bytes above 127 is not modelled.
- Fibonacci.ProgramComputesFib: for `n >= 45` the exit status is the wrapped value `ProgramStatus` defines; no closed form is proved for it.
- Fibonacci.StatusOf: a child's value enters the recursion as `ChildValue(a)`. The decimal string is not rebuilt at every level; `Fibonacci.ChildValueIsParse` proves that the value equals the parse of that string.
- Fibonacci.ProgramStatus: both `exec` calls are taken to succeed. The `outOfMemory` exit after a failed `exec` is not modelled; the one after a join status of -1 is.
- The helper methods (`ReadAccepted`, `WriteAccepted`, `ReadPage`, `WritePage`, `InstallPage`, `UndoPages`, `DropPage`, `ReturnPage`, `ReturnPages`, `SectionLoop`, `AllocateSection`, `ArgumentRound`, `WriteInLastPage`, `CopyPageIn`, `CopyPageOut`, `CloseAllFiles`, `ToArray`) each cover one loop or one round of the code.
- threads/Communicator.java, nachos/threads/Communicator.java, threads/Condition2.java and `UserKernel.selfTest`/`run` are outside the modelled core.
