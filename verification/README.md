# RondOS, modelled in Dafny

RondOS is a small x86 kernel in Rust with an assembly boot loader. This project models the parts of it
that carry invariants and proves what they keep, over every input, run or interleaving:

* **Memory** (`BitMap`, `PageAllocator`, `Heap`, `MemoryMap`, `PageTables`, `EndToEnd`): the packed page
  bitmap with its first-fit search, the page allocator that carves its bitmap out of the memory it manages,
  the global allocator as a machine over arbitrary runs of `alloc` and `dealloc`, the size loop over the
  firmware memory map, the page tables that the loader builds and the processor marks, and the theorem that
  joins them: every byte ever handed out, over all runs, is a mapped, writable byte of usable RAM of its own
  if and only if the firmware map meets two conditions (`EndToEnd.HandsOutSoundBytesIff`,
  `EndToEnd.LiveBytesShareNoFrame`).
* **Once-initialisation** (`Singleton`): `Singleton::init` as a step system over any number of concurrent
  calls, with its invariant, its refinement to "initialise once" and its termination under fair scheduling.
* **Console** (`Vga`, `ConsoleLaws`): the 25x80 screen as the end of an unbounded log, the layout of text,
  and the editing keys.
* **Bit fields, interrupt gates, timer** (`Bits`, `BitAccess`, `Interrupts`, `Pit`): the `BitAccess` shifts
  and masks at any width against div/mod arithmetic, the interrupt descriptor table against the processor's
  reading of it, and the timer divisor.

`Machine` holds what all of them share. Panics are values (`Outcome`), and where integer overflow decides
the outcome the build profile is a parameter: a debug build panics, a release build wraps. `Machine.Word` is
the 32-bit `usize` of the target. `hide` statements in some proofs only keep the solver from unfolding
definitions it does not need.

Code that updates things in place is imperative here too: `BitMap`, `PageAllocator`, `KernelHeap`,
`VgaBuffer` and `InterruptDescriptorTable` are classes, the size loop and the loader's loops are loops.
Each method is proved against a function on values, and the laws are proved about that function.

`dafny verify dfyconfig.toml` checks the whole project.

## What the code does not do

These are places where a promise of the code or its comments fails. Each is stated exactly.

* `find` does not return `None` when the free pages at the end of the map are too few: the bounds assertion
  in `test` fails instead (`BitMaps.FindExact`, at an input in `BitMaps.ShortTailFailsTheAssertion`). A full
  heap therefore panics in one of two ways.
* `available_mem_size` is right in a debug build exactly for maps whose usable entries end in order and never
  fill a gap left behind, and panics if the ends are out of order. A release build is right exactly if what
  the loop jumps over makes up for the unusable addresses (`MemoryMap.ScanExact`). Two wrong maps are in
  `MemoryMap.SizeCanBeWrong`, and a map that only a release build gets right in
  `MemoryMap.ReleaseCanBeRightOutOfOrder`.
* The allocator takes usable memory above 1 MiB to be one stretch. The memory it carves is usable RAM exactly
  if no more usable addresses lie above a hole than the carving to whole pages leaves over
  (`EndToEnd.CarvedMemoryUsableIff`). What it hands out is sound exactly if the pages behind the bitmap are
  usable and within the mapped 63 MiB (`EndToEnd.HandsOutSoundBytesIff`); otherwise one request is enough to be
  given a byte that is not (`EndToEnd.OneRequestIsUnsound`, at a map in `EndToEnd.HoleIsHandedOut`). The two
  differ where only the bitmap lies in the hole (`EndToEnd.HoleUnderTheBitmap`).
* The allocator takes all of it to be mapped, but the loader maps 64 MiB. The managed pages are all mapped
  exactly if there are at most 63 MiB to carve (`EndToEnd.ManagedPagesMappedIff`); with a page more, one
  request is given a page that is not present (`EndToEnd.UnmappedIsHandedOut`).
* The allocator takes the memory size modulo 4 GiB (`EndToEnd.MeasuredExactly`): a machine with exactly 4 GiB
  is taken to have none (`EndToEnd.FourGiBAreNone`), and every request panics (`EndToEnd.TooLargePanics`).
* The loader's comment says that 16 directory entries are written; the loop writes 64. The other 48 point
  into memory that is not a page table (`PageTables.MappedAbove64MiB`): in a booted machine the loader's own
  code and the ELF magic of the kernel are read as page entries (`PageTables.ImageReadAsPageEntries`).
* A range that starts with an excluded `usize::MAX` is read and written differently by the two build profiles
  (`BitAccess.ProfilesAgree`, `BitAccess.SetProfilesAgree`).
* The timer count 1, which a comment calls illegal in mode 2, is produced for the frequencies from 795454 Hz
  up to the clock (`Pit.CountOneExactly`).

## Model

| member | source | states |
|---|---|---|
| BitMaps.RawBitsInjective | kernel/src/mm/page.rs:46-64 | the bits of the storage, padding included, determine its bytes |
| BitMaps.ByteIsItsBits | kernel/src/mm/page.rs:60-64 | byte q as a number is made up of the bits of pages 8q to 8q+7, the first worth 1 |
| BitMaps.BitMap.constructor | kernel/src/mm/page.rs:52-58 | zeroes exactly the bytes that the bits need; all bits read as clear |
| BitMaps.BitMap.Test | kernel/src/mm/page.rs:60-64 | the mask test reads the bit, and fails the assertion exactly past the size |
| BitMaps.BitMap.Clear | kernel/src/mm/page.rs:66-74 | clears one bit of the storage and no other, neighbours in the byte included |
| BitMaps.BitMap.Mark | kernel/src/mm/page.rs:76-84 | sets one bit and no other |
| BitMaps.BitMap.Flip | kernel/src/mm/page.rs:86-94 | inverts one bit and no other |
| BitMaps.BitMap.Flips | kernel/src/mm/page.rs:96-100 | inverts exactly the window; panics exactly if it leaves the map, after flipping up to the end |
| BitMaps.BitMap.Set | kernel/src/mm/page.rs:102-109 | sets one bit to the value and no other |
| BitMaps.BitMap.Sets | kernel/src/mm/page.rs:111-115 | sets exactly the window; panics exactly if it leaves the map |
| BitMaps.BitMap.Contains | kernel/src/mm/page.rs:117-124 | the early-exit loop is the search on booleans, panic included |
| BitMaps.ContainsExact | kernel/src/mm/page.rs:117-124 | false exactly for an in-bounds window without the value, true exactly if some bit before the end of map and window has it |
| BitMaps.BitMap.Find | kernel/src/mm/page.rs:126-133 | the loop is the first-fit search on booleans |
| BitMaps.FindExact | kernel/src/mm/page.rs:126-133 | for every length: found: the least fitting start; none: no fit and the scan empty or the last bit not the value; assertion: no fit otherwise |
| BitMaps.ShortTailFailsTheAssertion | kernel/src/mm/page.rs:60-64 | a map on which the assertion fails, and its mirror image on which the search finds none |
| BitMaps.FindAtMost | kernel/src/mm/page.rs:126-133 | if a window fits, the search finds one no later than it |
| BitMaps.BitMap.All | kernel/src/mm/page.rs:135-137 | true exactly for an in-bounds window that is set throughout, false exactly if a clear bit is met |
| BitMaps.BitMap.Any | kernel/src/mm/page.rs:139-141 | false exactly for an in-bounds window that is clear, true exactly if a set bit is met |
| PageAllocators.CarvingTiles | kernel/src/mm/page.rs:17-26 | bitmap pages and managed pages tile the whole pages of memory; the bitmap has a bit for each managed page and, at 0x8000 pages per page, is no larger than needed |
| PageAllocators.PageAllocator.constructor | kernel/src/mm/page.rs:15-28 | starts with the carved base and size and every page free |
| PageAllocators.PageAllocator.GetPage | kernel/src/mm/page.rs:31-35 | marks the first fitting run and returns its 32-bit address, nothing on none, panics on the assertion or an overflowing address |
| PageAllocators.PageAllocator.FreePage | kernel/src/mm/page.rs:37-43 | succeeds exactly for an aligned pointer at a fully marked run, and clears that run; otherwise panics and changes nothing |
| Heaps.Pages | kernel/src/mm/mod.rs:81-87 | the fewest pages that hold the request |
| Heaps.FreshHeapInv | kernel/src/mm/page.rs:15-28 | the fresh heap satisfies the invariant |
| Heaps.AllocKeepsInv | kernel/src/mm/page.rs:31-35 | an allocation keeps blocks aligned, inside, disjoint and exactly marked |
| Heaps.DeallocSucceeds | kernel/src/mm/page.rs:37-43 | giving back a live block never fails an assertion |
| Heaps.DeallocKeepsInv | kernel/src/mm/page.rs:37-43 | a deallocation keeps the invariant |
| Heaps.RunKeepsInv | kernel/src/mm/mod.rs:76-89 | over every contract-respecting run: live blocks aligned, large enough, by less than a page too large, inside, pairwise disjoint, a bit set exactly if its page is live, padding bits never change |
| Heaps.PanicIsExhaustion | kernel/src/mm/mod.rs:77-83 | a call panics exactly if it is an allocation and no run of free pages is long enough |
| Heaps.DeallocChecks | kernel/src/mm/page.rs:37-43 | for any pointer and size, the assertions let through exactly an aligned pointer into the heap with every page in some live block |
| Heaps.DoubleFreePanics | kernel/src/mm/page.rs:39-41 | giving a block back a second time panics |
| Heaps.AllocThenDealloc | kernel/src/mm/page.rs:31-43 | allocating and giving back restores every stored bit and the live blocks; the pointer was not live |
| Heaps.DeallocThenAlloc | kernel/src/mm/page.rs:31-43 | after a block is given back, a request for no more pages succeeds, no higher up, whatever else is live |
| Heaps.DeallocAllInAnyOrder | kernel/src/mm/page.rs:37-43 | giving back all live blocks, in any order, never panics and frees every page |
| Heaps.RunBackToEmpty | kernel/src/mm/page.rs:31-43 | a run that starts and ends with nothing live leaves the whole heap as it was |
| Heaps.EveryByteRestored | kernel/src/mm/page.rs:86-100 | such a run leaves every byte of the bitmap's storage as it was |
| Heaps.CountAfterFlip | kernel/src/mm/page.rs:96-100 | flipping a uniform window changes the number of set bits by its length |
| Heaps.RunConserves | kernel/src/mm/page.rs:31-43 | over every run the number of marked pages is the number of pages of live blocks |
| Heaps.KernelHeap.constructor | kernel/src/mm/page.rs:15-28 | the heap that boots, with nothing live and nothing marked |
| Heaps.PointerRoundTrip | kernel/src/mm/page.rs:34-40 | the 32-bit pointer of a block, wrapped or not, stands for its address alone |
| Heaps.PointerOffset | kernel/src/mm/page.rs:38-40 | the offset computed from any pointer is that of the heap address it stands for, and overflows only for a wrapped pointer in a debug build |
| Heaps.LivePointer | kernel/src/mm/page.rs:38-40 | a live pointer is aligned, and its offset is that of its block |
| Heaps.KernelHeap.Alloc | kernel/src/mm/mod.rs:77-83 | takes the machine's step and returns the pointer of a block that was not live; panics exactly if no run fits, changing nothing, or if the address overflows in a debug build |
| Heaps.KernelHeap.Dealloc | kernel/src/mm/mod.rs:85-88 | for any pointer and size takes the machine's step, or panics for a wrapped pointer in a debug build; for a live block the step never fails |
| MemoryMap.AvailableMemSize | kernel/src/mm/mod.rs:53-67 | for ends in order: never more than the number of usable addresses, overlaps counted once, equal exactly without a late gap; a debug build panics exactly on the other maps; a release build never panics and is right exactly if it skips what is unusable |
| MemoryMap.UsableHighMeaning | kernel/src/mm/mod.rs:57 | an address counts as usable exactly if some entry of kind Usable that starts at 0x100000 or above holds it |
| MemoryMap.ScanExact | kernel/src/mm/mod.rs:53-67 | the same of the scan on values, in both profiles |
| MemoryMap.ReleaseIsEndMinusSkipped | kernel/src/mm/mod.rs:57-63 | on every map a release build yields the last end minus what was jumped over, modulo 2^64 |
| MemoryMap.ReleaseExact | kernel/src/mm/mod.rs:53-67 | on every map a release build is right exactly if the skipped addresses make up for the unusable ones |
| MemoryMap.ReleaseCanBeRightOutOfOrder | kernel/src/mm/mod.rs:58-63 | a map that makes a debug build panic and that a release build measures correctly |
| MemoryMap.SortedMapsHaveNoLateGap | kernel/src/mm/mod.rs:56-65 | maps sorted by start address meet that condition |
| MemoryMap.SizeCanBeWrong | kernel/src/mm/mod.rs:58-63 | a nested and an out-of-order map on which the size is wrong |
| MemoryMap.FillsFromOneMegIffNoHole | kernel/src/mm/page.rs:17-22 | usable memory fills the addresses from 1 MiB up exactly if it has no hole |
| MemoryMap.StretchUsableIff | kernel/src/mm/page.rs:17-22 | the first n addresses from 1 MiB are usable exactly if at most the rest of the usable ones lies above a hole |
| PageTables.ClearDirectory | loader.s:193-199 | zeroes the 1024 directory words and nothing else |
| PageTables.BuildDirectory | loader.s:201-212 | writes 64 entries twice, at their index and 768 further on, and nothing else |
| PageTables.BuildTables | loader.s:215-225 | writes 0x4000 page entries; the 16-bit offset wraps only after the last |
| PageTables.BuildPaging | loader.s:193-225 | memory afterwards is memory before with directory and tables written over it |
| PageTables.TablesInWords | loader.s:193-225 | what is at every physical address afterwards, as numbers: 0x10007 and up in the two stretches of the directory, 7 and up in the tables, zero in the rest of the directory |
| PageTables.WalkByAddress | loader.s:187-188 | through any tables, the two words a translation reads, the address they make up, and rights granted only by both |
| PageTables.WalkExact | loader.s:188-225 | the translation of every linear address through these tables, whatever their accessed and dirty bits |
| PageTables.WindowsMapLowMemory | loader.s:191-192 | the first 64 MiB of both halves reach the same physical 64 MiB, writable and open to user mode |
| PageTables.MarkingIsInvisible | kernel/src/mm/page.rs:168-174 | marking an entry sets its accessed and dirty bits, keeps the rest, and changes nothing a walk reads |
| PageTables.MarkedIsSetBit | kernel/src/mm/page.rs:168-174 | what the processor does to an entry is what setting bits 5 and 6 does |
| PageTables.TablesStayIntact | loader.s:173-179 | the build leaves the tables intact; stores outside them and changes of accessed and dirty bits keep them so |
| PageTables.StoreKeepsTables | loader.s:173-179 | a store to any mapped address outside the tables, marking its entries, keeps them intact |
| PageTables.StoreThroughEffect | kernel/src/mm/page.rs:168-174 | a translated store leaves its value, marks the directory entry accessed and the table entry accessed and dirty, and changes nothing else |
| PageTables.MappedAbove64MiB | loader.s:201-212 | above that, mapped exactly if the word in place of the page entry is odd, to where and with the rights that word says |
| PageTables.ImageReadAsPageEntries | loader.s:84-108 | in a booted machine the page at 64 MiB is not present and the page at 68 MiB is mapped beyond 1 GiB, by the loader's code and the ELF magic read as page entries |
| PageTables.EntryFlags | kernel/src/mm/page.rs:148-182 | the nine flags read bits 0 to 8, present, rw, accessed and dirty as the processor does |
| PageTables.EntryAvailable | kernel/src/mm/page.rs:184-186 | `available` reads the three spare bits |
| PageTables.EntryAddrIsFrame | kernel/src/mm/page.rs:188-190 | `addr` is the frame address that a walk uses |
| PageTables.PgRoundDownIsPage | kernel/src/mm/mod.rs:69-72 | the only multiple of 4096 at or below the address and less than 4096 away |
| EndToEnd.HandedOutBytesAreUsableRam | kernel/src/mm/page.rs:15-35 | after any run, if at most 63 MiB are carved and the pages behind the bitmap are usable, every byte of every live block is mapped, writable, to usable RAM above the bitmap's storage |
| EndToEnd.OneRequestIsUnsound | kernel/src/mm/page.rs:15-35 | if either condition fails, a first request of at most 63 MiB is given a byte that is unmapped or not RAM |
| EndToEnd.HandsOutSoundBytesIff | kernel/src/mm/page.rs:15-35 | in a booted machine all runs hand out only mapped usable RAM exactly if both conditions hold |
| EndToEnd.BitmapStorageIsMapped | kernel/src/mm/page.rs:20-24 | the bitmap's storage is mapped for every 32-bit memory size |
| EndToEnd.BitmapStorageIsUsableRam | kernel/src/mm/page.rs:22-24 | on a map without too large a hole the bitmap's own storage is mapped usable RAM |
| EndToEnd.BootMapIff | kernel/src/mm/page.rs:15-35 | in a booted machine, on every map measured without a panic, all that is handed out and the bitmap's storage are mapped usable RAM exactly if at most 63 MiB are carved and no more lies above a hole than is left over |
| EndToEnd.LiveBytesShareNoFrame | kernel/src/mm/page.rs:31-35 | with at most 63 MiB to carve, different live bytes are different bytes of RAM |
| EndToEnd.LiveStoresKeepTables | kernel/src/mm/page.rs:31-35 | with at most 63 MiB to carve, a store to a live block, with the marks it makes, keeps the page tables intact |
| EndToEnd.BitmapStoresKeepTables | kernel/src/mm/page.rs:86-94 | so does a store of the allocator to its own bitmap, for every memory size |
| EndToEnd.OneStretchBoots | kernel/src/mm/page.rs:17-26 | one stretch of RAM from 1 MiB, at most 63 MiB long, in a map in order, meets the two conditions |
| EndToEnd.MeasuredExactly | kernel/src/mm/page.rs:17-18 | a correctly summed memory is taken modulo 4 GiB, so rightly exactly below 4 GiB; the carving leaves over less than a page |
| EndToEnd.FourGiBAreNone | kernel/src/mm/page.rs:17-18 | exactly 4 GiB above 1 MiB are taken for none |
| EndToEnd.TooLargePanics | kernel/src/mm/mod.rs:77-83 | a first request for more than is managed panics: every one if no memory was measured |
| EndToEnd.CarvedMemoryUsableIff | kernel/src/mm/page.rs:17-26 | on every map measured without a panic, the carved memory is all usable exactly if no more lies above a hole than is left over |
| EndToEnd.ManagedPagesMappedIff | kernel/src/mm/page.rs:20-26 | in a booted machine the managed pages are all mapped to their own frames exactly if there are at most 0x3f00 pages to carve |
| EndToEnd.UnmappedIsHandedOut | kernel/src/mm/page.rs:31-35 | with a page more, the first request for the pages up to 64 MiB is given one that is not present |
| EndToEnd.HoleIsHandedOut | kernel/src/mm/page.rs:17-35 | a map with a hole, whose first large request is given a page of the hole |
| EndToEnd.HoleUnderTheBitmap | kernel/src/mm/page.rs:17-26 | a map on which only the bitmap lies in the hole: the bitmap is not in RAM, yet all that is handed out is |
| Singletons.StepKeepsInv | kernel/src/utils/singleton.rs:26-55 | every atomic step of every call keeps the invariant |
| Singletons.StepIsMonotone | kernel/src/utils/singleton.rs:9-11 | the flag moves up by single steps and no write is taken back |
| Singletons.ExecKeepsInv | kernel/src/utils/singleton.rs:26-55 | over every interleaving the invariant holds and flag and history only grow |
| Singletons.InitialisesOnce | kernel/src/utils/singleton.rs:26-65 | at most one call in the critical section, the default written at most once, every returned call holds it, the assertion holds, the two useless arms are never taken |
| Singletons.StepRefines | kernel/src/utils/singleton.rs:26-65 | every step is one step of "initialise once", or none |
| Singletons.ExecRefines | kernel/src/utils/singleton.rs:26-65 | every run shows a run of "initialise once" from its own start to its own end |
| Singletons.StepUsesWork | kernel/src/utils/singleton.rs:27-53 | every step that changes anything uses up work; only returned calls and calls waiting for an initialisation stand still |
| Singletons.StartWork | kernel/src/utils/singleton.rs:21-24 | at the start there are six steps of work per call |
| Singletons.EffectiveStepsBounded | kernel/src/utils/singleton.rs:27-53 | no livelock: under every schedule the steps other than waiting are bounded |
| Singletons.SomeCallCanMove | kernel/src/utils/singleton.rs:27-53 | no deadlock: while a call has not returned, some call can use up work |
| Singletons.AllCallsCanReturn | kernel/src/utils/singleton.rs:26-55 | from every state with the invariant, a schedule no longer than the work left returns all calls |
| Singletons.ReturnsExactlyThen | kernel/src/utils/singleton.rs:26-55 | left alone, a call returns after exactly its number of steps: six if it initialises, three after that |
| Singletons.OutsideTheInvariant | kernel/src/utils/singleton.rs:48-54 | a foreign flag value leads to the write, and the assertion fails exactly for a flag other than INITED |
| Singletons.FairSchedulesFinish | kernel/src/utils/singleton.rs:26-55 | under every fair scheduler all calls return |
| Vga.VgaBuffer.constructor | kernel/src/io/vga.rs:120-125 | starts at column 0, white on black, with the log that the screen shows |
| Vga.VgaBuffer.UpdateCursor | kernel/src/io/vga.rs:105-112 | the two port bytes make up the cursor position |
| Vga.VgaBuffer.ClearRow | kernel/src/io/vga.rs:127-136 | blanks exactly one row |
| Vga.VgaBuffer.Scroll | kernel/src/io/vga.rs:140-143 | the top-down row copies and the clearing are exactly a one-row scroll |
| Vga.VgaBuffer.DoNewLine | kernel/src/io/vga.rs:138-146 | appends a blank row to the log, and the screen still shows its end |
| Vga.VgaBuffer.CopyLeft | kernel/src/io/vga.rs:167-168 | moves the cells right of the column one to the left and no others |
| Vga.VgaBuffer.Putc | kernel/src/io/vga.rs:148-183 | does to the log what the byte means; screen, column below 80 and cursor stay in step with it |
| Vga.VgaBuffer.WriteBytes | kernel/src/io/vga.rs:185-189 | for every byte stream the screen is the last 25 rows of the log, and the cursor, set by the first byte other than a delete or backspace at the latest, stays at 24*80 plus the column |
| ConsoleLaws.PutCellByCell | kernel/src/io/vga.rs:148-183 | every byte on every row and column: each cell afterwards, the column, and when a row of blanks is added |
| ConsoleLaws.HistoryIsFrozen | kernel/src/io/vga.rs:148-189 | no row above the last is ever changed or removed |
| ConsoleLaws.PrintableAdvance | kernel/src/io/vga.rs:172-181 | n printable bytes from column c scroll (c+n) div 80 times and end at (c+n) mod 80 |
| ConsoleLaws.WrapIsExact | kernel/src/io/vga.rs:175-176 | the reference wrapping loses nothing and leaves only the last row short |
| ConsoleLaws.LinesAreExact | kernel/src/io/vga.rs:151 | the reference lines, joined by newlines, are the text |
| ConsoleLaws.TextIsLaidOut | kernel/src/io/vga.rs:138-189 | text from a blank row comes out as the reference layout |
| ConsoleLaws.Typing | kernel/src/io/vga.rs:172-181 | printable bytes within the row overwrite exactly their cells |
| ConsoleLaws.ReturnThenTyping | kernel/src/io/vga.rs:152-155 | after a carriage return they overwrite the row from the left |
| ConsoleLaws.Backspaces | kernel/src/io/vga.rs:157-164 | any number of backspaces blank the cells before the column as far as the start of the row and move it back; at the start they do nothing |
| ConsoleLaws.BackspacesUndoTyping | kernel/src/io/vga.rs:156-181 | typing k characters and k backspaces restores the column and blanks exactly those cells |
| ConsoleLaws.Deletes | kernel/src/io/vga.rs:166-171 | k deletes pull the rest of the row k cells to the left and fill with blanks |
| BitAccess.RangeMeaning | kernel/src/utils/mod.rs:80-93 | the range holds exactly the bits between the bounds; only adding one to `usize::MAX` panics, in a debug build |
| BitAccess.GetBitsMeaning | kernel/src/utils/mod.rs:28-40 | for any bounds, a field is read exactly if the bits between them lie in the width, and consists of those bits |
| BitAccess.SetBitsMeaning | kernel/src/utils/mod.rs:56-73 | for any bounds, a value that fits is written to the bits between them and no others, and everything else panics |
| BitAccess.ProfilesAgree | kernel/src/utils/mod.rs:80-93 | the two profiles read the same field except for one kind of start bound |
| BitAccess.SetProfilesAgree | kernel/src/utils/mod.rs:56-93 | the two profiles write the same except for that start bound and a value that fits below the end, which a release build writes there |
| BitAccess.KernelBounds | kernel/src/utils/mod.rs:80-93 | `a..b` and `a..=b` denote the same range in both profiles |
| BitAccess.GetBitMeaning | kernel/src/utils/mod.rs:21-25 | reads the bit; panics exactly past the width |
| BitAccess.SetBitMeaning | kernel/src/utils/mod.rs:43-53 | sets the bit, keeps all others, stays in the width |
| BitAccess.GetRangeIsDivMod | kernel/src/utils/mod.rs:28-40 | the field is (x mod 2^end) div 2^start; panics exactly on a range outside the width |
| BitAccess.SetRangeBits | kernel/src/utils/mod.rs:56-73 | replaces exactly the bits of the field; panics exactly on a bad range or a value that does not fit |
| BitAccess.SetRangeArithmetic | kernel/src/utils/mod.rs:66-70 | the parts above and below the field are kept and the field is the value |
| BitAccess.SetThenGet | kernel/src/utils/mod.rs:28-73 | reading after writing gives the value |
| BitAccess.GetThenSet | kernel/src/utils/mod.rs:28-73 | writing back what was read changes nothing |
| BitAccess.DisjointSetsCommute | kernel/src/utils/mod.rs:56-73 | writes to disjoint ranges commute |
| Interrupts.LevelNumbers | kernel/src/arch/x86/mod.rs:103-111 | the numbers 0 to 3 are the four levels, both ways, and all others panic |
| Interrupts.SelectorRoundTrip | kernel/src/arch/x86/mod.rs:130-144 | the level always comes back, the index exactly if it is below 8192 |
| Interrupts.SelectorParts | kernel/src/arch/x86/mod.rs:136-144 | index and level of every selector; reading the level never panics |
| Interrupts.SetRplOnlySetsRpl | kernel/src/arch/x86/mod.rs:148-150 | sets the level and keeps the index |
| Interrupts.OptionValue | kernel/src/arch/x86/intr.rs:556-561 | the option word as a number, for every argument |
| Interrupts.OptionRoundTrip | kernel/src/arch/x86/intr.rs:528-561 | the accessors return what the option was made from |
| Interrupts.HandlerEntryValue | kernel/src/arch/x86/intr.rs:480-486 | the four packed fields of an installed handler |
| Interrupts.HandlerBytes | kernel/src/arch/x86/intr.rs:480-486 | the eight bytes of an installed handler in memory order |
| Interrupts.PointerRoundTrip | kernel/src/arch/x86/intr.rs:471-486 | the address installed is the address read back |
| Interrupts.FieldsSitAtTheirVectors | kernel/src/arch/x86/intr.rs:21-354 | the declared layout puts every field at the vector its documentation names |
| Interrupts.TableHas256Entries | kernel/src/arch/x86/intr.rs:21-354 | the fields fill 256 entries |
| Interrupts.IndexIsVector | kernel/src/arch/x86/intr.rs:402-458 | indexing by a vector reaches that vector's entry, and panics exactly for the others |
| Interrupts.InstallableVectors | kernel/src/arch/x86/intr.rs:21-458 | the vectors that a public field or an index can reach |
| Interrupts.InterruptDescriptorTable.SetHandler | kernel/src/arch/x86/intr.rs:480-511 | installs at that entry only, for the public fields and the plain vectors; panics exactly for any other index, changing nothing |
| Interrupts.TableDecodes | kernel/src/arch/x86/intr.rs:402-562 | after any installations, the bytes for a vector decode as a present ring-0 32-bit interrupt gate to the last handler, or as not present |
| Pit.DivisorIsNearest | kernel/src/arch/x86/pic.rs:101-115 | the divisor that the two bytes give is nearest to the exact quotient, within half the frequency |
| Pit.DivisorOutOfRange | kernel/src/arch/x86/pic.rs:88-100 | the slowest and the fixed fast divisor outside the range |
| Pit.DivisorIsMonotone | kernel/src/arch/x86/pic.rs:101-103 | a higher frequency never gets a larger divisor |
| Pit.CountOneExactly | kernel/src/arch/x86/pic.rs:94-103 | the count is 1 exactly from 795454 Hz up to the clock |

## Left out

- Heaps.KernelHeap.Alloc: takes sizes from 1 byte to `isize::MAX`, as the `GlobalAlloc` and `Layout` contracts guarantee; alignments above 4096, which the source ignores, are not modelled.
- PageTables.MappedAbove64MiB: translations above 64 MiB are given in terms of whatever the memory there holds; of the loaded image only the first words of the loader and of the kernel file are modelled.
- Singletons.InitialisesOnce: steps are sequentially consistent, `T::default` terminates without entering the same singleton, and aliasing of the `&mut T` results is not modelled; neither is `Singleton::drop`.
- Vga.VgaBuffer.UpdateCursor: the two data bytes are fields; the index writes to the CRT controller port, `enable_cursor`, `disable_cursor` and `clear` are not modelled.
- BitAccess.SetRangeBits: `set_bit` and `set_bits` are functions from the old value to the new one; overwriting `*self` and returning it for chaining are not modelled.
- Interrupts.TableDecodes: the handler types that tell fields with an error code apart, `update` and `lidt` are not modelled; the code selector is an arbitrary value per installation.
- Pit.DivisorIsNearest: the control byte and the port numbers of `pit_configure_channel` are not modelled.
- MemoryMap.UsableHighMeaning: the five firmware type numbers are the constructors of `Kind`; an entry with any other number is not modelled.
- The firmware and mode-switch parts of `loader.s` (disk reads, E820, A20, GDT), the serial port, the interrupt controller, the keyboard table, the handlers and the `thread` types are not modelled.
- The singletons that hold the page allocator, the console and the interrupt table are not composed with those models; each is modelled as the one object it is.
