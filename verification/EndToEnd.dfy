/**
 From the firmware map to physical frames: the loader's page tables, the memory size, the carved
 bitmap and every run of the heap, put together.
 */
module EndToEnd {
  import opened Machine
  import opened MemoryMap
  import opened BitMaps
  import opened PageAllocators
  import opened Heaps
  import opened PageTables

  /** The pages that the loader's tables map from `HEAP_START` on: 63 MiB. */
  const WINDOW_PAGES: nat := 0x3f00

  /** `available_mem_size() as usize`. */
  function Measured(profile: Profile, regions: seq<MemLayout>): Outcome<nat> {
    var s :- ScanAll(profile, regions);
    Done(s.size % U32_LIMIT)
  }

  /** The end of the memory that the allocator carves up for itself and its callers. */
  function CarvedEnd(memSize: nat): nat {
    HEAP_START + 4096 * PageCount(memSize)
  }

  /** The pages that the allocator carves are no more than the loader maps. */
  predicate WithinWindow(memSize: nat) {
    PageCount(memSize) <= WINDOW_PAGES
  }

  /** The firmware reports the pages behind the bitmap as usable, up to the end of the carved memory. */
  predicate ManagedUsable(regions: seq<MemLayout>, memSize: nat) {
    Interval(HIGH_MEMORY + 4096 * BitmapPages(memSize), HIGH_MEMORY + 4096 * PageCount(memSize)) <= UsableHigh(regions)
  }

  /** A firmware map on which the kernel boots well, its bitmap included: the pages it carves are no more than the
      loader maps, and no more usable addresses lie above a hole than the carving leaves over. */
  predicate BootMap(profile: Profile, regions: seq<MemLayout>) {
    var memSize := Measured(profile, regions);
    && memSize.Done?
    && WithinWindow(memSize.value)
    && |AboveHole(UsableHigh(regions))| <= |UsableHigh(regions)| - 4096 * PageCount(memSize.value)
  }

  /** Memory of a machine that has booted: the tables are intact, and behind them, where the page entries above
      64 MiB would be, is the start of the image. */
  ghost predicate Booted(m: seq<Word>) {
    TablesIntact(m) && |m| > 0x8000 && m[0x8000] == FIRST_INSTRUCTIONS
  }

  /** Address `a` is a byte of the live block at `ptr`. */
  predicate LiveByte(h: Heap, ptr: nat, a: nat) {
    ptr in h.live && ptr <= a < BlockEnd(h, ptr)
  }

  /** Kernel address `a` stands, through the loader's offset, for a byte of usable RAM. */
  predicate UsableAt(regions: seq<MemLayout>, a: nat) {
    a >= KERNEL_BASE && a - KERNEL_BASE in UsableHigh(regions)
  }

  /** Kernel address `a` is mapped, writable, to the byte of physical memory it stands for. */
  predicate MappedHome(m: seq<Word>, a: nat) {
    KERNEL_BASE <= a < U32_LIMIT && Walk(m, PAGING_TABLE_ADDR, a) == Mapped(a - KERNEL_BASE, true, true)
  }

  /** What a caller may expect of a byte it is given. */
  predicate SoundByte(regions: seq<MemLayout>, m: seq<Word>, a: nat) {
    MappedHome(m, a) && UsableAt(regions, a)
  }

  /** Whatever calls are made, as long as they respect the contract, every byte of every live block is sound. */
  ghost predicate HandsOutSoundBytes(regions: seq<MemLayout>, m: seq<Word>, h: Heap)
    requires h.size <= |h.raw|
  {
    forall calls: seq<Call>, ptr: nat, a: nat ::
      Respects(h, calls) && Run(h, calls).Done? && LiveByte(Run(h, calls).value, ptr, a) ==> SoundByte(regions, m, a)
  }

  // ---------- the carved memory is usable ----------

  lemma ShiftedInterval(regions: seq<MemLayout>, x: nat, y: nat)
    ensures (forall a: nat :: KERNEL_BASE + x <= a < KERNEL_BASE + y ==> UsableAt(regions, a))
            <==> Interval(x, y) <= UsableHigh(regions)
  {
    if forall a: nat :: KERNEL_BASE + x <= a < KERNEL_BASE + y ==> UsableAt(regions, a) {
      forall b | b in Interval(x, y)
        ensures b in UsableHigh(regions)
      {
        assert UsableAt(regions, b + KERNEL_BASE);
      }
    }
  }

  /** The allocator takes the measured number of bytes from 1 MiB up to be RAM. On every map that is measured
      without a panic, the memory it carves is all usable if and only if no more usable addresses lie above a
      hole than the carving leaves over. */
  lemma CarvedMemoryUsableIff(profile: Profile, regions: seq<MemLayout>)
    requires Measured(profile, regions).Done?
    ensures var memSize := Measured(profile, regions).value;
            (forall a: nat :: HEAP_START <= a < CarvedEnd(memSize) ==> UsableAt(regions, a))
            <==> |AboveHole(UsableHigh(regions))| <= |UsableHigh(regions)| - 4096 * PageCount(memSize)
  {
    hide UsableHigh, Measured, AboveHole, Interval, UsableAt;
    var n := 4096 * PageCount(Measured(profile, regions).value);
    UsableIsHigh(regions);
    StretchUsableIff(UsableHigh(regions), n);
    ShiftedInterval(regions, HIGH_MEMORY, HIGH_MEMORY + n);
  }

  /** On a map that the loop measures correctly, the allocator takes the size modulo 4 GiB; of a size that fits 32
      bits the carving leaves over less than a page. */
  lemma MeasuredExactly(profile: Profile, regions: seq<MemLayout>)
    requires EndsInOrder(regions) && NoLateGap(regions)
    ensures Measured(profile, regions) == Done(|UsableHigh(regions)| % 0x1_0000_0000)
    ensures Measured(profile, regions) == Done(|UsableHigh(regions)|) <==> |UsableHigh(regions)| < 0x1_0000_0000
    ensures |UsableHigh(regions)| - 4096 * PageCount(|UsableHigh(regions)|) == |UsableHigh(regions)| % 4096
  {
    hide UsableHigh, ScanAll, EndsInOrder, NoLateGap;
    ScanExact(profile, regions);
  }

  /** The plain case: one stretch of RAM from 1 MiB, at most 63 MiB long, in a map in order. */
  lemma OneStretchBoots(profile: Profile, regions: seq<MemLayout>)
    requires EndsInOrder(regions) && NoLateGap(regions)
    requires NoHole(UsableHigh(regions)) && |UsableHigh(regions)| <= 0x3f0_0000
    ensures BootMap(profile, regions)
  {
    hide UsableHigh, AboveHole, NoHole, Measured;
    MeasuredExactly(profile, regions);
    NoHoleIsNothingAbove(UsableHigh(regions));
  }

  // ---------- the heap is inside the carved memory ----------

  lemma BootHeapInv(h: Heap, memSize: nat)
    requires BootHeap(h, memSize)
    ensures Inv(h)
  {
    CarvingTiles(memSize);
    FreshHeapInv(h);
  }

  /** Where a byte of a live block can be: above the bitmap's storage and inside the carved memory. */
  lemma LiveByteBounds(h: Heap, memSize: nat, calls: seq<Call>, ptr: nat, a: nat)
    requires BootHeap(h, memSize) && Respects(h, calls) && Run(h, calls).Done?
    requires LiveByte(Run(h, calls).value, ptr, a)
    ensures BaseAddr(memSize) <= a < CarvedEnd(memSize)
  {
    BootHeapInv(h, memSize);
    RunKeepsInv(h, calls);
    CarvingTiles(memSize);
    assert BlockInHeap(Run(h, calls).value, ptr);
  }

  lemma KernelWindow(m: seq<Word>, a: nat)
    requires TablesIntact(m) && KERNEL_BASE <= a < KERNEL_BASE + 0x400_0000
    ensures MappedHome(m, a)
  {
    hide Walk, TablesIntact;
    WindowsMapLowMemory(m, a - KERNEL_BASE);
  }

  // ---------- end to end ----------

  /** After any run of the heap on a map that meets both conditions, and as long as the loader's tables are
      intact, every byte of every live block is mapped, writable, to a byte of usable RAM that belongs neither to
      the bitmap's own storage nor to anything below 1 MiB, where the tables and the kernel image are. */
  lemma HandedOutBytesAreUsableRam(
    regions: seq<MemLayout>, memSize: nat, m: seq<Word>, h: Heap, calls: seq<Call>, ptr: nat, a: nat)
    requires WithinWindow(memSize) && ManagedUsable(regions, memSize) && TablesIntact(m)
    requires BootHeap(h, memSize) && Respects(h, calls) && Run(h, calls).Done?
    requires LiveByte(Run(h, calls).value, ptr, a)
    ensures SoundByte(regions, m, a)
    ensures a - KERNEL_BASE >= HIGH_MEMORY + 4096 * BitmapPages(memSize)
  {
    hide MappedHome, UsableAt, TablesIntact, UsableHigh, Run, Respects, BootHeap, LiveByte, Interval, BitmapPages;
    LiveByteBounds(h, memSize, calls, ptr, a);
    ShiftedInterval(regions, HIGH_MEMORY + 4096 * BitmapPages(memSize), HIGH_MEMORY + 4096 * PageCount(memSize));
    KernelWindow(m, a);
  }

  /** The first request on a fresh heap is given the pages from its base on. */
  lemma FirstRequest(h: Heap, n: nat)
    requires h.size <= |h.raw| && MapBits(h) == seq(h.size, _ => false) && 1 <= n <= h.size
    ensures Respects(h, [Alloc(4096 * n)]) && Run(h, [Alloc(4096 * n)]).Done?
    ensures var h' := Run(h, [Alloc(4096 * n)]).value;
            forall a :: h.base <= a < h.base + 4096 * n ==> LiveByte(h', h.base, a)
  {
    var c := Alloc(4096 * n);
    FindAtMost(MapBits(h), n, false, 0);
    assert Pages(4096 * n) == n;
    var h' := Step(h, c).value;
    assert [c][1..] == [];
    assert Run(h', []) == Done(h');
    assert Run(h, [c]) == Done(h');
  }

  lemma PastTheWindow(m: seq<Word>, a: Word)
    requires Booted(m) && a == KERNEL_BASE + 0x400_0000
    ensures Walk(m, PAGING_TABLE_ADDR, a) == NotPresent && !MappedHome(m, a)
  {
    hide Walk, Leaf, TablesIntact, DirEntry;
    assert Slot(a) == 16;
    StrayEntry(m, a);
    ImageLeaves(DirEntry(64, 16));
  }

  /** In a booted machine with more than 63 MiB to carve, one request is given the page at 64 MiB, which is not
      present: it is the request for the managed pages up to and including that one. */
  lemma UnmappedIsHandedOut(memSize: Word, m: seq<Word>, h: Heap, n: nat)
    requires Booted(m) && BootHeap(h, memSize)
    requires !WithinWindow(memSize) && n == WINDOW_PAGES + 1 - BitmapPages(memSize)
    ensures 1 <= n <= WINDOW_PAGES && Respects(h, [Alloc(4096 * n)]) && Run(h, [Alloc(4096 * n)]).Done?
    ensures LiveByte(Run(h, [Alloc(4096 * n)]).value, h.base, KERNEL_BASE + 0x400_0000)
    ensures Walk(m, PAGING_TABLE_ADDR, KERNEL_BASE + 0x400_0000) == NotPresent
  {
    hide Walk, Booted, Run, Respects;
    FirstRequest(h, n);
    PastTheWindow(m, KERNEL_BASE + 0x400_0000);
  }

  /** If one of the two conditions fails, a single request of at most 63 MiB is enough to be given a byte that is
      not sound. */
  lemma OneRequestIsUnsound(regions: seq<MemLayout>, memSize: Word, m: seq<Word>, h: Heap) returns (n: nat, a: nat)
    requires Booted(m) && BootHeap(h, memSize)
    requires !(WithinWindow(memSize) && ManagedUsable(regions, memSize))
    ensures 1 <= n <= WINDOW_PAGES && Respects(h, [Alloc(4096 * n)]) && Run(h, [Alloc(4096 * n)]).Done?
    ensures LiveByte(Run(h, [Alloc(4096 * n)]).value, h.base, a) && !SoundByte(regions, m, a)
  {
    hide Walk, Booted, Run, Respects, UsableAt, UsableHigh;
    if !WithinWindow(memSize) {
      n, a := WINDOW_PAGES + 1 - BitmapPages(memSize), KERNEL_BASE + 0x400_0000;
      UnmappedIsHandedOut(memSize, m, h, n);
      assert !MappedHome(m, a);
    } else {
      n := ManagedPages(memSize);
      assert CarvedEnd(memSize) == h.base + 4096 * n by { CarvingTiles(memSize); }
      ShiftedInterval(regions, HIGH_MEMORY + 4096 * BitmapPages(memSize), HIGH_MEMORY + 4096 * PageCount(memSize));
      a :| BaseAddr(memSize) <= a < CarvedEnd(memSize) && !UsableAt(regions, a);
      FirstRequest(h, n);
    }
  }

  /** What is handed out is sound, over all runs, if and only if both conditions hold; what lies under the bitmap
      does not matter. */
  lemma HandsOutSoundBytesIff(regions: seq<MemLayout>, memSize: Word, m: seq<Word>, h: Heap)
    requires Booted(m) && BootHeap(h, memSize)
    ensures HandsOutSoundBytes(regions, m, h) <==> WithinWindow(memSize) && ManagedUsable(regions, memSize)
  {
    hide Run, Respects, LiveByte, SoundByte, WithinWindow, ManagedUsable, TablesIntact;
    if WithinWindow(memSize) && ManagedUsable(regions, memSize) {
      forall calls: seq<Call>, ptr: nat, a: nat
        | Respects(h, calls) && Run(h, calls).Done? && LiveByte(Run(h, calls).value, ptr, a)
        ensures SoundByte(regions, m, a)
      {
        HandedOutBytesAreUsableRam(regions, memSize, m, h, calls, ptr, a);
      }
    } else {
      var n, a := OneRequestIsUnsound(regions, memSize, m, h);
    }
  }

  /** In a booted machine the managed pages are all mapped to their own frames if and only if they end within
      64 MiB. */
  lemma ManagedPagesMappedIff(memSize: Word, m: seq<Word>)
    requires Booted(m)
    ensures (forall a: nat :: BaseAddr(memSize) <= a < CarvedEnd(memSize) ==> MappedHome(m, a))
            <==> WithinWindow(memSize)
  {
    hide MappedHome, TablesIntact;
    CarvingTiles(memSize);
    if WithinWindow(memSize) {
      forall a: nat | BaseAddr(memSize) <= a < CarvedEnd(memSize)
        ensures MappedHome(m, a)
      {
        KernelWindow(m, a);
      }
    } else {
      PastTheWindow(m, KERNEL_BASE + 0x400_0000);
      assert BaseAddr(memSize) <= KERNEL_BASE + 0x400_0000 < CarvedEnd(memSize);
    }
  }

  /** The bitmap's storage is mapped whatever the size of the memory. */
  lemma BitmapStorageIsMapped(memSize: Word, m: seq<Word>, a: nat)
    requires TablesIntact(m) && HEAP_START <= a < BaseAddr(memSize)
    ensures MappedHome(m, a) && a < KERNEL_BASE + 0x400_0000
  {
    hide MappedHome, TablesIntact;
    KernelWindow(m, a);
  }

  /** On a map on which the kernel boots well it is usable RAM as well. */
  lemma BitmapStorageIsUsableRam(profile: Profile, regions: seq<MemLayout>, m: seq<Word>, a: nat)
    requires BootMap(profile, regions) && TablesIntact(m)
    requires HEAP_START <= a < BaseAddr(Measured(profile, regions).value)
    ensures SoundByte(regions, m, a)
  {
    hide MappedHome, UsableAt, TablesIntact, UsableHigh, AboveHole, BaseAddr, ScanAll;
    CarvingTiles(Measured(profile, regions).value);
    CarvedMemoryUsableIff(profile, regions);
    BitmapStorageIsMapped(Measured(profile, regions).value, m, a);
  }

  /** With the bitmap's own storage taken in, the exact condition is `BootMap`, on every map that is measured
      without a panic. */
  lemma BootMapIff(profile: Profile, regions: seq<MemLayout>, m: seq<Word>, h: Heap)
    requires Measured(profile, regions).Done? && Booted(m) && BootHeap(h, Measured(profile, regions).value)
    ensures var memSize := Measured(profile, regions).value;
            BootMap(profile, regions) <==>
              && HandsOutSoundBytes(regions, m, h)
              && (forall a: nat :: HEAP_START <= a < BaseAddr(memSize) ==> SoundByte(regions, m, a))
  {
    hide HandsOutSoundBytes, MappedHome, UsableAt, TablesIntact, UsableHigh, AboveHole, ScanAll, Interval;
    var memSize: Word := Measured(profile, regions).value;
    HandsOutSoundBytesIff(regions, memSize, m, h);
    CarvedMemoryUsableIff(profile, regions);
    CarvingTiles(memSize);
    ShiftedInterval(regions, HIGH_MEMORY + 4096 * BitmapPages(memSize), HIGH_MEMORY + 4096 * PageCount(memSize));
    forall a: nat | HEAP_START <= a < BaseAddr(memSize)
      ensures MappedHome(m, a)
    {
      BitmapStorageIsMapped(memSize, m, a);
    }
    if HandsOutSoundBytes(regions, m, h) && !BootMap(profile, regions) {
      var a: nat :| HEAP_START <= a < CarvedEnd(memSize) && !UsableAt(regions, a);
      assert a < BaseAddr(memSize) && !SoundByte(regions, m, a);
    }
  }

  /** Different bytes of live memory, in one block or in two, are different bytes of RAM. */
  lemma LiveBytesShareNoFrame(
    memSize: nat, m: seq<Word>, h: Heap, calls: seq<Call>, p: nat, a: nat, q: nat, b: nat)
    requires WithinWindow(memSize) && TablesIntact(m)
    requires BootHeap(h, memSize) && Respects(h, calls) && Run(h, calls).Done?
    requires LiveByte(Run(h, calls).value, p, a)
    requires LiveByte(Run(h, calls).value, q, b)
    requires p != q || a != b
    ensures MappedHome(m, a) && MappedHome(m, b)
    ensures Walk(m, PAGING_TABLE_ADDR, a) != Walk(m, PAGING_TABLE_ADDR, b)
  {
    hide Walk, TablesIntact, BootHeap;
    LiveByteBounds(h, memSize, calls, p, a);
    LiveByteBounds(h, memSize, calls, q, b);
    KernelWindow(m, a);
    KernelWindow(m, b);
    BootHeapInv(h, memSize);
    RunKeepsInv(h, calls);
    assert p != q ==> Disjoint(Run(h, calls).value, p, q);
  }

  // ---------- the tables outlive the stores ----------

  lemma CarvedStoreKeepsTables(m: seq<Word>, a: nat, v: Word)
    requires TablesIntact(m) && HEAP_START <= a < KERNEL_BASE + 0x400_0000
    ensures TablesIntact(StoreThrough(m, PAGING_TABLE_ADDR, a, v))
  {
    hide Walk, TablesIntact, StoreThrough;
    KernelWindow(m, a);
    StoreKeepsTables(m, a, v);
  }

  /** Using a live block leaves the tables intact, so all of the above goes on holding: the store marks the two
      entries it is translated by as accessed and dirty, and hits no entry. */
  lemma LiveStoresKeepTables(
    memSize: nat, m: seq<Word>, h: Heap, calls: seq<Call>, ptr: nat, a: nat, v: Word)
    requires WithinWindow(memSize) && TablesIntact(m)
    requires BootHeap(h, memSize) && Respects(h, calls) && Run(h, calls).Done?
    requires LiveByte(Run(h, calls).value, ptr, a)
    ensures a < U32_LIMIT && TablesIntact(StoreThrough(m, PAGING_TABLE_ADDR, a, v))
  {
    hide TablesIntact, StoreThrough, Run, Respects, BootHeap, LiveByte;
    LiveByteBounds(h, memSize, calls, ptr, a);
    CarvedStoreKeepsTables(m, a, v);
  }

  /** So do the allocator's own stores to its bitmap, on every map. */
  lemma BitmapStoresKeepTables(memSize: Word, m: seq<Word>, a: nat, v: Word)
    requires TablesIntact(m) && HEAP_START <= a < BaseAddr(memSize)
    ensures a < U32_LIMIT && TablesIntact(StoreThrough(m, PAGING_TABLE_ADDR, a, v))
  {
    hide TablesIntact, StoreThrough, BaseAddr;
    BitmapStorageIsMapped(memSize, m, a);
    CarvedStoreKeepsTables(m, a, v);
  }

  // ---------- the conditions at inputs ----------

  const HOLED: seq<MemLayout> := [MemLayout(0x100000, 0x100000, Usable), MemLayout(0x400000, 0x400000, Usable)]

  lemma HoledMap(profile: Profile)
    ensures Measured(profile, HOLED) == Done(0x500000)
    ensures UsableHigh(HOLED) == Interval(0x100000, 0x200000) + Interval(0x400000, 0x800000)
  {
    assert HOLED[..1] == [HOLED[0]] && HOLED[..1][..0] == [];
    assert ScanAll(profile, HOLED[..1]) == Done(Scan(0x200000, 0x100000));
    assert UsableHigh(HOLED[..1]) == Interval(0x100000, 0x200000);
  }

  /** With RAM at 1 to 2 MiB and at 4 to 8 MiB, the very first request for 1 MiB is given a page of the hole. */
  lemma HoleIsHandedOut(profile: Profile, h: Heap, bytes: nat)
    requires BootHeap(h, 0x500000) && bytes == 0x100000
    ensures Measured(profile, HOLED) == Done(0x500000)
    ensures Step(h, Alloc(bytes)).Done?
    ensures var h' := Step(h, Alloc(bytes)).value;
            exists ptr, a :: LiveByte(h', ptr, a) && !UsableAt(HOLED, a)
  {
    HoledMap(profile);
    FindAtMost(MapBits(h), Pages(bytes), false, 0);
    var h' := Step(h, Alloc(bytes)).value;
    var a := KERNEL_BASE + 0x200000;
    assert LiveByte(h', h.base, a) && !UsableAt(HOLED, a);
  }

  lemma FourGiBScan(profile: Profile, regions: seq<MemLayout>)
    requires regions == [MemLayout(0x100000, 0x1_0000_0000, Usable)]
    ensures ScanAll(profile, regions) == Done(Scan(0x1_0010_0000, 0x1_0000_0000))
  {
    assert regions[..0] == [];
    assert ScanAll(profile, regions[..0]) == Done(Scan(0, 0));
  }

  /** A machine with exactly 4 GiB above 1 MiB is taken to have no memory. */
  lemma FourGiBAreNone(profile: Profile, regions: seq<MemLayout>)
    requires regions == [MemLayout(0x100000, 0x1_0000_0000, Usable)]
    ensures Measured(profile, regions) == Done(0)
  {
    hide ScanAll;
    FourGiBScan(profile, regions);
  }

  /** A request for more pages than are managed panics; with no memory measured, that is every request. */
  lemma TooLargePanics(h: Heap, memSize: nat, bytes: nat)
    requires BootHeap(h, memSize) && bytes > 4096 * ManagedPages(memSize)
    ensures Step(h, Alloc(bytes)).Panics?
  {
    hide Step, FindIn, MapBits;
    if Step(h, Alloc(bytes)).Done? {
      var i := AllocFinds(h, bytes);
    }
  }

  const SHIFTED: seq<MemLayout> := [MemLayout(0x101000, 0x1000000, Usable)]

  /** With 16 MiB of RAM that start one page above 1 MiB, only the bitmap lies in the hole: the kernel does not
      boot well, yet all that it hands out is sound. */
  lemma HoleUnderTheBitmap(profile: Profile, m: seq<Word>, h: Heap)
    requires Booted(m) && BootHeap(h, 0x1000000)
    ensures Measured(profile, SHIFTED) == Done(0x1000000)
    ensures !BootMap(profile, SHIFTED) && !UsableAt(SHIFTED, HEAP_START)
    ensures HandsOutSoundBytes(SHIFTED, m, h)
  {
    hide HandsOutSoundBytes, Booted, BootHeap;
    assert SHIFTED[..0] == [];
    assert UsableHigh(SHIFTED) == Interval(0x101000, 0x1101000);
    CarvedMemoryUsableIff(profile, SHIFTED);
    assert HEAP_START < CarvedEnd(0x1000000) && !UsableAt(SHIFTED, HEAP_START);
    HandsOutSoundBytesIff(SHIFTED, 0x1000000, m, h);
  }
}
