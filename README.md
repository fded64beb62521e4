# Verified model of the CS61 problem-set programs

This project models five programs in Dafny and proves properties of each model:

- **The WeensyOS kernel** (`pset3/kernel.cc`):
  - the physical-page allocator with per-frame reference counts;
  - the process table and the `current` process;
  - process setup and boot, the trap and system-call handlers, `fork` and `exit`;
  - the round-robin scheduler.
- **The `m61` debugging allocator** (`pset1/m61.cc`):
  - the statistics counters and the heap bracket;
  - the list of live blocks and the checks `m61_free` makes;
  - the heavy-hitter tables and their report.
- **The `io61` buffered file** (`pset4/io61.cc`): a single cache buffer whose window is `[beg, end)`, with the position `pos` inside it.
- **The `sh61` shell** (`pset5/sh61.cc`):
  - the command-list parser;
  - the rule that picks a chain's next command after each exit status;
  - the order in which chains run.
- **`wc61`** (`pset_0/wc61_part2.cc`): the line, word and byte counting loop.

## Files

| file | module | models |
|---|---|---|
| `common.dfy` | `Common` | `Option`, bytes, 2^64 |
| `wc61.dfy` | `WordCount` | the counting loop, proved against `Lines` and `Words` |
| `sh61.dfy` | `Shell` | `parse_line`, `chain::run_chain` and `run` |
| `io61.dfy` | `BufferedIo` | class `File`, holding the cache buffer as an array and the window tags as fields |
| `m61.dfy` | `DebugMalloc` | class `Heap`, holding the global counters, the live-block list and the two six-slot tables |
| `kframes.dfy` | `KernelMemory` | kernel constants, page tables, descriptors, reference-count bookkeeping, and pure specifications of fork, page allocation, scheduling and process setup |
| `kernel.dfy` | `WeensyOS` | class `Kernel`, holding the `pages`, memory and `ptable` arrays and `current` |

### Abstraction choices

I/O and foreign calls are modelled as follows.

- **wc61.** The input is a byte sequence. `fgetc` returns EOF once the sequence is used up.
- **sh61.**
  - A line arrives as its sequence of (type, text) tokens.
  - `waitpid` answers from a sequence of wait statuses, one sequence per chain.
  - `fork` and `execvp` are not modelled; a chain's run is the list of command indices it starts.
- **io61.**
  - The file is a byte sequence with the descriptor's offset beside it.
  - `read` may fail on every call, depending on a flag fixed at open.
  - `write` always writes everything it is given.
  - `lseek` fails only for a negative offset.
- **m61.**
  - `base_malloc` is a bump allocator: it returns a fresh 16-aligned address past everything handed out.
  - A header's tag is read from the live list and the set of freed addresses.
  - Whether a footer is intact is a parameter of `free`.
- **WeensyOS.**
  - **Addresses and page tables.**
    - Addresses are page numbers.
    - A page table is a root frame plus a map from virtual page to (frame, writable, user).
    - `vmiter::try_map` may fail at any call.
    - `allocatable_physical_address` is a fixed set of frames that excludes frame 0.
  - **Frame contents and programs.**
    - Frame contents are abstract values: 0xCC fill, zero fill, or other data.
    - A program is its segment list and entry point.
  - **Boot and scheduling.**
    - The boot loader's lookup of the command is an `Option<Program>`.
    - `schedule` is modelled as running the first runnable slot. The source spins forever in place of the modelled `Idle` outcome.

## Model

| member | source | states |
|---|---|---|
| WordCount.Count | pset_0/wc61_part2.cc:11-24 | `b` is the number of bytes read before EOF, `l` the number of newlines and `w` the number of maximal runs of non-space bytes |
| WordCount.WordsAtMostBytes | pset_0/wc61_part2.cc:18-23 | there are never more words than bytes |
| WordCount.LinesAtMostBytes | pset_0/wc61_part2.cc:16-17 | there are never more newlines than bytes |
| WordCount.AppendSpace | pset_0/wc61_part2.cc:16-23 | appending one white-space byte adds one byte and no word, and adds one line exactly when the byte is a newline |
| WordCount.Concatenation | pset_0/wc61_part2.cc:18-22 | the words of `s + t` are those of `s` plus those of `t`, less one when a word straddles the seam |
| Shell.ParseLine | pset5/sh61.cc:177-233 | the token loop gives none exactly for a line without tokens, and otherwise the command list the tokens denote (`Parse`) |
| Shell.ApplyToken | pset5/sh61.cc:204-230 | one token changes only the last chain, as `TokenStep` says: words go to the last command, `&&`/`\|\|` mark it and open a fresh command, `;`/`&` set the background flag and request a new chain, and `\|` is ignored |
| Shell.OpenFor | pset5/sh61.cc:190-203 | the first token opens the first chain with one fresh command; a token after `;` or `&` opens a new chain with one fresh command |
| Shell.ScanDenotes | pset5/sh61.cc:189-231 | after any number of tokens the loop's chain list is the denotation of those tokens |
| Shell.ParseScan | pset5/sh61.cc:185-232 | the parse is none for no tokens, else the loop's final chain list |
| Shell.StepDenotes | pset5/sh61.cc:196-230 | one token, processed as the `switch` does, extends the denotation of the tokens before it |
| Shell.OpenAfter | pset5/sh61.cc:196-215 | a final `;` or `&` leaves no open chain; any other final token does |
| Shell.ParseWords | pset5/sh61.cc:205-206 | every normal or unrecognised token becomes a word of some command, in line order, and nothing else does |
| Shell.ParseChainCount | pset5/sh61.cc:196-215 | there is one chain per `;` or `&`, plus one more exactly when tokens follow the last of them |
| Shell.CommandCount | pset5/sh61.cc:216-225 | a chain has one command per `&&` or `\|\|`, plus one |
| Shell.SplitWords | pset5/sh61.cc:204-230 | cutting the tokens at delimiters loses and reorders no word |
| Shell.SplitCount | pset5/sh61.cc:208-225 | cutting at a level's delimiters gives one closed stretch per delimiter |
| Shell.CommandsWords | pset5/sh61.cc:205-206 | a chain's commands hold exactly its words, in order |
| Shell.SkipFromSpec | pset5/sh61.cc:136-147 | the skip loop stops at the first command that has no `\|\|` (or `&&`) link, or at the end of the list |
| Shell.NextSpec | pset5/sh61.cc:134-152 | after exit status 0 the next command follows the run of `\|\|` links from the command just run; after a nonzero status it follows the run of `&&` links; after an abnormal end it is the next command; each case moves strictly forward |
| Shell.Advance | pset5/sh61.cc:134-152 | the loop body's cursor update computes `Next` |
| Shell.RunsOrdered | pset5/sh61.cc:128-153 | a chain runs its first command first when it has words, then commands in strictly increasing order, each at most once and each with words, and at most as many as the list holds |
| Shell.RunChain | pset5/sh61.cc:128-154 | the loop starts exactly the commands `Runs` lists, in order, and reports an abort exactly when the cursor reaches a command without words (the assertion in `make_child`) |
| Shell.WordsNeverAbort | pset5/sh61.cc:87-88 | a chain whose commands all have words never aborts, whatever the exit statuses |
| Shell.Run | pset5/sh61.cc:156-170 | the chains are run in list order, each one as `RunChain` runs it; a foreground chain that aborts stops the shell there, and no earlier chain stopped it |
| BufferedIo.Available | pset4/io61.cc:48 | a `read` returns at most the count, returns something exactly when the offset is inside the file and the count is nonzero, and never reads past the end |
| BufferedIo.OverlayAt | pset4/io61.cc:172 | a written file holds the written bytes where they were written, the old bytes elsewhere, and zeros in a gap |
| BufferedIo.OverlayLength | pset4/io61.cc:172 | a non-empty write makes the file as long as the larger of its old length and the end of the write; an empty write leaves the length alone |
| BufferedIo.OverlayAppend | pset4/io61.cc:144-159 | two writes one after the other equal one write of both |
| BufferedIo.RemainingAdvance | pset4/io61.cc:95-102 | taking `n` cached bytes takes the next `n` readable bytes, and leaves the rest readable |
| BufferedIo.File.constructor | pset4/io61.cc:28-34 | a new file has an empty window at offset 0 |
| BufferedIo.File.OsRead | pset4/io61.cc:48 | `read` fills the buffer with the bytes at the offset and advances the offset, or fails with -1 |
| BufferedIo.File.OsWrite | pset4/io61.cc:172 | `write` puts the buffered bytes at the offset and advances it |
| BufferedIo.File.OsSeek | pset4/io61.cc:199 | `lseek` moves the offset, or fails for a negative one |
| BufferedIo.File.Fill | pset4/io61.cc:46-52 | sets `beg = pos = old end`; sets `end` to `beg + nread` after a successful read and leaves it at `beg` after a failed one |
| BufferedIo.File.ReadC | pset4/io61.cc:58-68 | returns the next readable byte and advances `pos` by one, or returns EOF (-1) when nothing more can be read; the window is kept when `pos < end` |
| BufferedIo.File.Refill | pset4/io61.cc:87-93 | refilling keeps what is readable, and the window is empty exactly when nothing is readable |
| BufferedIo.File.CopyOut | pset4/io61.cc:95-102 | one `memcpy` copies the next `count` readable bytes into `buf` and changes nothing else in it |
| BufferedIo.File.ReadPass | pset4/io61.cc:85-103 | one loop pass copies as many of the remaining bytes as the window holds, and copies nothing exactly when everything has been read |
| BufferedIo.File.Read | pset4/io61.cc:80-110 | copies `min(sz, readable)` bytes in file order and advances `pos` by that many; returns that count, or -1 when it is zero (including `sz == 0`) |
| BufferedIo.File.Flush | pset4/io61.cc:168-179 | a read-only file is unchanged and the call returns 0; a write-only file hands `[beg, pos)` to `write`, then `beg = pos`, and the file's contents as seen by a reader do not change |
| BufferedIo.File.WriteC | pset4/io61.cc:122-131 | flushes a full buffer first, then writes the low eight bits of `ch` at `pos`; `pos` advances by one and the call returns 0 |
| BufferedIo.File.CopyIn | pset4/io61.cc:149-157 | one `memcpy` puts `count` bytes of `buf` into the window at `pos` |
| BufferedIo.File.WritePass | pset4/io61.cc:145-158 | one loop pass flushes a full buffer, then writes as many bytes as fit (at least one) |
| BufferedIo.File.Write | pset4/io61.cc:138-161 | the file reads as if all `sz` bytes had been written at `pos`; `pos` advances by `sz` and the call returns `sz` |
| BufferedIo.File.Seek | pset4/io61.cc:185-214 | corrected as described under Findings. A negative target returns -1 and moves nothing. A target inside the window moves only `pos`. A reader outside the window reloads from the target rounded down to a multiple of 8192 when that reaches the target, and otherwise gets an empty window at the target. A writer flushes and empties the window at the target. Afterwards `pos` is the target; while reads succeed, reading from there gives the file's bytes from the target on, and nothing past its end |
| BufferedIo.SeekAsWritten | pset4/io61.cc:185-214 | the source's seek in both modes: a reader inside the window moves only `pos`; a writer at the end of its window flushes, then sets all three tags to the target, and the descriptor offset becomes the target when that is non-negative and otherwise stays where the flush left it; the call returns 0 exactly for a target of at least -1; `pos` always ends at the target |
| BufferedIo.SeekAsWrittenKeepsWindow | pset4/io61.cc:195-206 | as written, a non-negative seek outside the window keeps `pos <= end` exactly when the refill reaches the target |
| BufferedIo.SeekPastEndOfFile | pset4/io61.cc:195-206 | a seek to 10000 in a 100-byte file leaves `pos` beyond `end` and returns 0 |
| BufferedIo.SeekNegative | pset4/io61.cc:195-210 | a seek to -1 succeeds and leaves `pos` before `beg` |
| BufferedIo.SeekNegativeWriter | pset4/io61.cc:186-213 | a writer that seeks to -2 gets -1 back with its tags at -2 and the offset left where the flush put it; one that seeks to -1 gets 0 back, with the tags at -1 |
| DebugMalloc.FirstMatch | pset1/m61.cc:105-113 | the first slot counting for the site, or -1 when none does |
| DebugMalloc.LastZero | pset1/m61.cc:105-107 | the last slot whose counter is zero, or -1 |
| DebugMalloc.MinBelow | pset1/m61.cc:103-117 | the smallest nonzero counter below `sz` (else `sz`) and the first slot holding it (else -1) |
| DebugMalloc.HeavyTotal | pset1/m61.cc:99-144 | an update adds at most `sz` to the counters' sum, and exactly `sz` when the site was tracked or a slot was empty |
| DebugMalloc.HeavyTracks | pset1/m61.cc:131-144 | after a nonzero allocation the site is tracked, unless every slot held at least `sz` bytes for another site; then every counter drops by `sz` and the sites stay |
| DebugMalloc.HeavyDistinct | pset1/m61.cc:105-144 | the update never makes two slots count for the same site |
| DebugMalloc.FreqIdle | pset1/m61.cc:120-130 | a frequency table whose counters are all zero never changes |
| DebugMalloc.Heap.HeavyUpdate | pset1/m61.cc:99-144 | the byte-table loops compute `HeavySpec` |
| DebugMalloc.Heap.DecreaseAll | pset1/m61.cc:136-142 | the replacement loop lowers every counter by the minimum, and gives the minimum slot to the site with `sz - min` |
| DebugMalloc.Heap.FreqUpdate | pset1/m61.cc:120-130 | the frequency loop changes only a slot already counting for the site |
| DebugMalloc.Heap.Place | pset1/m61.cc:60-97 | a fresh, 16-aligned, non-null payload is appended just before the sentinel; the malloc count, total size and active size grow accordingly, and the bracket widens to cover the block |
| DebugMalloc.Heap.Malloc | pset1/m61.cc:57-151 | below `UINT_MAX`, as `Place` and `HeavyUpdate` say, with the failure counters unchanged; otherwise null, and only `fail_counter` (+1) and `fail_size_acc` (+`sz`, mod 2^64) change |
| DebugMalloc.Heap.Diagnose | pset1/m61.cc:161-219 | null is ignored; the diagnoses follow the source's order: not in heap, not allocated, double free, wild write; exactly a live pointer with an intact footer is released |
| DebugMalloc.Heap.Free | pset1/m61.cc:158-222 | a diagnosis aborts and changes nothing; a release unlinks exactly that block, keeps the others' order, tags it freed, adds one to `free_counter` and removes its size from the active size |
| DebugMalloc.Heap.Release | pset1/m61.cc:212-218 | block `k` leaves the list and is tagged freed; the free count and the active size are updated |
| DebugMalloc.CallocRequestAsWritten | pset1/m61.cc:232-233 | the size `m61_calloc` asks for, as written: the 64-bit product |
| DebugMalloc.CallocWraps | pset1/m61.cc:233 | two elements of 2^63 bytes ask for a zero-byte block |
| DebugMalloc.CallocRequest | pset1/m61.cc:232-241 | a request is made exactly when `nmemb < UINT_MAX` and the product does not overflow, and it is for `nmemb * sz` bytes |
| DebugMalloc.Heap.Calloc | pset1/m61.cc:231-242 | a refused request changes nothing but `fail_counter` (+1); a product of at least `UINT_MAX` is refused as `m61_malloc` refuses it, adding the product to `fail_size_acc` mod 2^64; any other request places the block and updates the tables as `m61_malloc` of the product does |
| DebugMalloc.Heap.GetStatistics | pset1/m61.cc:247-258 | the active count is the number of live blocks and the active size their total; the total count is active plus freed; every live block lies within `[heap_min, heap_max]` |
| DebugMalloc.MaxSlot | pset1/m61.cc:294-299 | the scan computes `MaxIndex` of the first `n` slots |
| DebugMalloc.MaxIndex | pset1/m61.cc:294-299 | a slot below `n` whose counter is the largest, and the first such slot, since every slot before it is strictly smaller |
| DebugMalloc.Take | pset1/m61.cc:293-310 | takes out slot `MaxIndex` of the first `i` slots and moves slot `i - 1` into its place, changing no other slot; nothing printable is lost |
| DebugMalloc.ReportStep | pset1/m61.cc:300-308 | reporting the slot taken out keeps the report non-increasing and ahead of every remaining slot |
| DebugMalloc.SelectReport | pset1/m61.cc:293-311 | the report prints exactly the table's slots that have a site, largest counter first; it is `Selected` of the table, and the table is left as `Scrambled` says |
| DebugMalloc.Line | pset1/m61.cc:300-308 | one step prints the slot taken out exactly when it has a site |
| DebugMalloc.Selected | pset1/m61.cc:293-311 | the selection prints at most one line per pass |
| DebugMalloc.Scrambled | pset1/m61.cc:309-310 | the report's moves never touch the slots at or past the pass count, and keep the table's size |
| DebugMalloc.SelectedStep | pset1/m61.cc:300-310 | one pass takes the printed line off `Selected` and leaves `Selected` of the rearranged table for the remaining passes |
| DebugMalloc.ScrambledUnused | pset1/m61.cc:312-331 | the moves leave a table of unused slots as it was |
| DebugMalloc.Report | pset1/m61.cc:291-332 | the byte report is `Selected` of the byte table, non-increasing and holding exactly the tracked sites; the byte table ends as `Scrambled`; an unused frequency table prints nothing and is left unchanged |
| DebugMalloc.Heap.HeavyHitterReport | pset1/m61.cc:291-332 | the byte report is `Selected` of the byte table, non-increasing and prints exactly the tracked sites; the byte table ends as `Scrambled`, the frequency table is unchanged and its report empty; the heap invariant still holds |
| DebugMalloc.NothingPrinted | pset1/m61.cc:312-331 | a table with no sites has an empty report |
| KernelMemory.FirstFreeFits | pset3/kernel.cc:121-134 | first fit: the frame returned is allocatable and has count 0, and every allocatable frame below it is in use; null exactly when no such frame exists |
| WeensyOS.Kernel.Kalloc | pset3/kernel.cc:116-135 | null with nothing changed when `sz > PAGESIZE` or no frame is free; otherwise the first free allocatable frame, whose count becomes 1 and whose contents become 0xCC; every other frame is unchanged |
| WeensyOS.Kernel.Kfree | pset3/kernel.cc:142-148 | nothing for null; otherwise, for a frame in use, only that frame's count drops by one, and the frame is refilled with 0xCC exactly when the count reaches 0 |
| WeensyOS.Kernel.TryMap | pset3/kernel.cc:371 | `try_map` either installs the entry or fails and leaves the table as it was |
| WeensyOS.Kernel.BootPageTable | pset3/kernel.cc:67-79 | the kernel table maps every page below `MEMSIZE_PHYSICAL` to itself; the mapping is user-accessible from `PROC_START_ADDR` and at the console, kernel-only elsewhere, and page 0 is absent |
| WeensyOS.Kernel.constructor | pset3/kernel.cc:67-85 | after boot initialisation every slot `i` has pid `i` and is free, every count is 0, and the invariant holds |
| WeensyOS.Kernel.Boot | pset3/kernel.cc:86-96 | the command's program runs as process 1, or else the four allocator programs run as processes 1 to 4; the remaining slots stay free; then process 1 runs (or setup panicked) |
| WeensyOS.Kernel.ProcessSetup | pset3/kernel.cc:156-219 | the slot becomes runnable at the entry with `rsp = MEMSIZE_VIRTUAL`; its table holds the kernel's low mappings, a frame for every segment page (writable as the last segment covering the page), and a writable user stack page; the root and every one of those frames had count 0 before, now has count 1 and holds zeros; counts grow by at least the table's references |
| WeensyOS.Kernel.BuildTable | pset3/kernel.cc:162-212 | builds the root, the copy of the kernel part, the segment pages and the stack page, as `Loaded` says; the root and each page's frame went from count 0 to 1, and each page's frame holds zeros (`Fresh`) |
| WeensyOS.Kernel.LoadSegments | pset3/kernel.cc:181-194 | after every segment, each page is as the segments so far lay it out, and every mapped frame is fresh and zeroed |
| WeensyOS.Kernel.MapSegment | pset3/kernel.cc:182-193 | each page of the segment gets a frame with the segment's writability that had count 0, now has count 1 and holds zeros |
| WeensyOS.Kernel.MapFresh | pset3/kernel.cc:186-192 | on success the page maps a frame whose count went from 0 to 1 and which now holds zeros; no other frame's count or contents change, and the table stays `Fresh` |
| KernelMemory.FreshMap | pset3/kernel.cc:186-192 | mapping a page to a frame of count 0, set to count 1 and zero filled, keeps the table `Fresh` |
| KernelMemory.FreshExclusive | pset3/kernel.cc:182-212 | in a `Fresh` table no page shares its frame with the root, with any other process or with another page of the table |
| WeensyOS.Kernel.CopyKernelMappings | pset3/kernel.cc:428-435 | the new table maps nothing at or above `PROC_START_ADDR`; on success it equals the kernel table below it |
| WeensyOS.Kernel.ExitProc | pset3/kernel.cc:470-486 | the slot becomes free; when the table exists, every present page from `PROC_START_ADDR` through `MEMSIZE_VIRTUAL` (inclusive, as the `<=` bound has it) and the root lose one reference each; exactly the frames whose count reached 0 are refilled with 0xCC, and every other frame keeps its contents |
| WeensyOS.Kernel.Exit | pset3/kernel.cc:488-490 | the current slot becomes free and its table's references leave the counts; exactly the frames whose count reached 0 are refilled with 0xCC, so a frame another process still holds keeps its contents |
| WeensyOS.Kernel.FreeSlot | pset3/kernel.cc:407-410 | the lowest free slot from 1, or `NPROC` when none is free |
| WeensyOS.Kernel.Fork | pset3/kernel.cc:405-468 | as `Forking` says: -1 with nothing changed when no slot is free; on any other failure -1, the slot free and the counts as before; on success the lowest free slot is runnable with the parent's registers and `rax = 0`, its table is as `Forked` says, every writable user page maps a frame that had count 0 and now has count 1, and counts grew by exactly its references; a frame in use before keeps its contents in every case |
| WeensyOS.Kernel.ForkInto | pset3/kernel.cc:415-466 | the same for a given free slot; stores the child before checking the root for null, as the source does |
| WeensyOS.Kernel.Abandon | pset3/kernel.cc:444-451 | a failed walk frees the slot and returns every count to what it was before the fork; a frame in use before the fork keeps its contents |
| WeensyOS.Kernel.CopyUserPages | pset3/kernel.cc:437-459 | on success the child maps exactly the parent's pages in the process area, each duplicated, and every writable user page has a frame of its own that had count 0 and now has count 1; the counts are always exactly the starting counts plus the child's references (plus one unmapped copy); a frame in use at the start keeps its contents |
| WeensyOS.Kernel.CopyPrivate | pset3/kernel.cc:442-452 | a writable user page gets a frame that had count 0, with the same flags; exactly that frame's count becomes 1 and its contents become the parent frame's; every frame in use before keeps its contents |
| WeensyOS.Kernel.SharePage | pset3/kernel.cc:453-458 | any other present page maps the parent's frame with the same flags, no other page of the new table changes, and exactly that frame's count rises by one |
| KernelMemory.WalkCopy | pset3/kernel.cc:442-452 | a copied page keeps the walk invariant, and its fresh frame is not the parent's |
| KernelMemory.WalkShare | pset3/kernel.cc:453-458 | a shared page keeps the walk invariant |
| KernelMemory.WalkSkip | pset3/kernel.cc:438-440 | a page the parent does not map is skipped |
| KernelMemory.ForkedCopies | pset3/kernel.cc:442-452 | after a successful fork each writable user page of the child maps a frame holding the parent's frame's contents, referenced by no process before the fork, not the root and not mapped by any other page of the child |
| WeensyOS.Kernel.PageAlloc | pset3/kernel.cc:384-399 | as `PageAllocated` says: -1 with nothing changed for a bad address or a failed `kalloc`; otherwise a fresh zeroed frame is mapped P\|W\|U at `addr` and 0 is returned (or a panic when the map fails) |
| WeensyOS.Kernel.Run | pset3/kernel.cc:519-522 | a slot that is not runnable panics; otherwise it becomes current |
| WeensyOS.Kernel.Schedule | pset3/kernel.cc:495-512 | runs `Pick` of the table after `current` |
| KernelMemory.ScanFinds | pset3/kernel.cc:497-500 | the scan stops at the first runnable step of the circle, and is idle exactly when there is none |
| KernelMemory.PickNearest | pset3/kernel.cc:495-512 | round robin: the slot picked is runnable and no slot nearer after `current` in circular order is; idle exactly when no slot is runnable |
| KernelMemory.SlotNext | pset3/kernel.cc:498 | each step of the circle is `(pid + 1) % NPROC` |
| KernelMemory.DistanceReaches | pset3/kernel.cc:497-498 | every slot is reached within one circle |
| WeensyOS.Kernel.SaveRegs | pset3/kernel.cc:236 | the trap registers are stored into the current descriptor and nothing else changes |
| WeensyOS.Kernel.Exception | pset3/kernel.cc:234-295 | the registers are saved. A timer interrupt schedules. A user page fault marks the current process broken, then schedules. A kernel page fault or an unknown trap panics |
| WeensyOS.Saved | pset3/kernel.cc:319 | the table after the trap entry saved the registers into slot `c` |
| WeensyOS.Kernel.Syscall | pset3/kernel.cc:317-365 | the registers are saved, then `rax` selects the call. GETPID returns the pid. YIELD sets `rax = 0` and schedules. PAGE_ALLOC and FORK are as `PageAlloc` and `Fork` say. EXIT frees the slot and its references, refills exactly the frames whose count reached 0 with 0xCC, then schedules. PANIC and unknown numbers panic |

## Left out

- **Hardware and output (all programs).** Timer, lapic, keyboard, console, `memshow`, `log_printf` and every `printf`/`fprintf` message are hardware or output and are not part of this model. The same holds for the floating-point percentages of the heavy-hitter report.
- **WeensyOS: page-table pages.** Interior page-table pages, `ptiter` and the kernel's own table layout are abstracted away. `exit_proc`'s loop over interior pages has nothing to free in the model. The abstraction also drops the page-table pages that `try_map` needs; instead `try_map` may fail at any call.
- **WeensyOS: `check_pagetable` and `exception_return`.** These switch context. `run` ends the handler with a `Ran` outcome.
- **WeensyOS: program images.** The segment bytes `process_setup` copies with `memcpy` are left out: in the model a segment page holds the zeros its `memset` writes. The source's copy goes through the physical address of the segment's first page only, and the model does not capture that either.
- **WeensyOS: header constants.** `kernel.hh` and `lib.hh` are not part of this model. The constants take the usual WeensyOS values: `PAGESIZE` 4096, `MEMSIZE_PHYSICAL` 0x200000, `MEMSIZE_VIRTUAL` 0x300000, `PROC_START_ADDR` 0x100000, `CONSOLE_ADDR` 0xB8000, `NPROC` 16 and syscall numbers 1-6.
- **WeensyOS: registers.** A descriptor holds only `rax`, `rdi`, `rip` and `rsp`.
- WeensyOS.Kernel.Schedule: when nothing is runnable the source spins forever; the model returns `Idle` after one full circle, with nothing changed.
- WeensyOS.Kernel.Syscall: the return value is an integer, not its 64-bit `uintptr_t` image (so -1 is not shown as 2^64 - 1).
- WeensyOS.Kernel.ProcessSetup: counts are only bounded below by the new table's references, not stated exactly.
  - A page that two segments share is mapped twice, and the first frame stays counted.
  - A null `kalloc` result in `process_setup` (never checked by the source) is modelled as the panic its `memset` would cause. The slot is then left as it was.
- WeensyOS.Kernel.PageAlloc: mapping over a page that is already mapped does not release the old frame, as in the source. The contract states the new mapping but not that leak.
- DebugMalloc.Heap.Malloc: `total_size_acc`, `active_size_acc` and the counters are unbounded; only `fail_size_acc` wraps modulo 2^64.
- DebugMalloc.Heap.Calloc: the `memset` that zeroes the new block is not modelled, because block contents are not part of the heap model.
- DebugMalloc.Heap.Diagnose: the neighbour-link check always passes, because the list is a sequence. The "bytes inside a region" hint printed for an unallocated pointer is output only.
- **m61: `base_free`.** It is not modelled: freed memory is never reused by the bump allocator.
- **m61: `m61_print_leak_report`.** It only prints.
- **io61: open and close.** `io61_fdopen`'s allocation (its tags start at 0), `io61_close`, `io61_open_check` and `io61_filesize` are left out.
- BufferedIo.File.OsWrite: a `write` never fails or comes up short, so `io61_flush`'s error return is not modelled.
- **sh61: processes.** `fork`, `execvp`, `_exit`, pipes and process groups are left out. A background chain is run like any other; only its `fork` is left out. So an empty command in a background chain ends only that chain in the model, where the source would abort the child running it.
- **sh61: tokenizer and input.** `parse_shell_token` and `main`'s line loop are left out. The source's `first_pipeline`/`first_command` mismatch does not compile; the model follows the evident intent, a chain owning a list of commands.
- WordCount.Count: the `unsigned long` counters are unbounded.

## Findings

| source | as written | input that shows it | evidently intended | confidence | as-written member | corrected member |
|---|---|---|---|---|---|---|
| pset4/io61.cc:195-206 | a read-mode seek outside the window refills from the rounded-down target and then sets `pos` to the target, whatever the refill brought in | seek to 10000 in a 100-byte file: `beg = end = 8192`, `pos = 10000`, so `pos > end` and `io61_readc` reads a stale byte | an empty window at the target, so reading returns EOF | not executed | BufferedIo.SeekPastEndOfFile | BufferedIo.File.Seek |
| pset4/io61.cc:197-210 | a negative target is rounded toward zero to offset 0, and the seek reports success | seek to -1: returns 0 with `pos = -1 < beg = 0` | a negative target fails without moving anything | not executed | BufferedIo.SeekNegative | BufferedIo.File.Seek |
| pset4/io61.cc:198-213 | a write-mode seek to a negative target still sets `beg`, `pos` and `end` to it after `lseek` fails, and reports success when the target is -1, because the failed `lseek` returns -1, which equals the target | a write-mode file that flushed 5 bytes, seeking to -2: returns -1 with all tags at -2 while the offset stays 5; seeking to -1: returns 0 with all tags at -1 | a negative target fails without moving anything | not executed | BufferedIo.SeekNegativeWriter | BufferedIo.File.Seek |
| pset1/m61.cc:232-233 | `nmemb * sz` is computed in 64 bits and can wrap | `nmemb = 2`, `sz = 2^63` gives a request for 0 bytes | an overflowing product fails like an over-large request | not executed | DebugMalloc.CallocWraps | DebugMalloc.CallocRequest |
