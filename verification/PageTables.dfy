/**
 The boot page tables of `loader.s` and the two-level walk the processor makes through them
 (section 4.3, 32-Bit Paging, Intel SDM volume 3A). Physical memory is an array of 32-bit words.
 */
module PageTables {
  import opened Machine
  import opened Bits
  import opened BitAccess

  const PAGING_TABLE_ADDR: nat := 0xf000
  const PAGING_PAGE_ADDR: nat := 0x10000
  const KERNEL_BASE: nat := 0xc0000000
  const PG_FLAGS: nat := 7 // present, writable, user

  // ---------- the stores ----------

  /** The linear address of `[es:di + disp]` in real mode: the offset wraps at 16 bits. */
  function RealAddr(es: nat, di: nat, disp: nat): nat {
    es * 16 + (di + disp) % 0x1_0000
  }

  /** `mov [es:di + disp], eax` on memory that holds the aligned word stored to. */
  method Store(mem: array<Word>, es: nat, di: nat, disp: nat, eax: Word)
    requires RealAddr(es, di, disp) % 4 == 0 && RealAddr(es, di, disp) / 4 < mem.Length
    modifies mem
    ensures mem[..] == old(mem[..])[RealAddr(es, di, disp) / 4 := eax]
  {
    mem[RealAddr(es, di, disp) / 4] := eax;
  }

  /** Directory entry `k` after the first `n` rounds of `write_pde`. */
  function DirEntry(n: nat, k: int): Word
    requires n <= 64
  {
    if 0 <= k < n then PAGING_PAGE_ADDR + PG_FLAGS + 0x1000 * k
    else if 768 <= k < 768 + n then PAGING_PAGE_ADDR + PG_FLAGS + 0x1000 * (k - 768)
    else 0
  }

  /** Table entry `k`, counted through all sixteen tables. */
  function TableEntry(k: nat): Word
    requires k < 0x4000
  {
    PG_FLAGS + 0x1000 * k
  }

  const DIR: nat := 0x3c00 // word index of 0xf000
  const TABLES: nat := 0x4000 // word index of 0x10000

  function WordWithTables(m: seq<Word>, i: nat): Word
    requires i < |m|
  {
    if DIR <= i < TABLES then DirEntry(64, i - DIR)
    else if TABLES <= i < 0x8000 then TableEntry(i - TABLES)
    else m[i]
  }

  /** Memory `m` with the directory and the sixteen page tables written over it. */
  function WithTables(m: seq<Word>): (t: seq<Word>)
    ensures |t| == |m|
  {
    seq(|m|, i requires 0 <= i < |m| => WordWithTables(m, i))
  }

  /** The directory holds the entries of the first `n` rounds, and the rest of memory is as in `m`. */
  ghost predicate DirWritten(m: seq<Word>, n: nat, t: seq<Word>)
    requires n <= 64
  {
    |t| == |m| && forall i :: 0 <= i < |m| ==> t[i] == if DIR <= i < TABLES then DirEntry(n, i - DIR) else m[i]
  }

  lemma DirRound(m: seq<Word>, n: nat, t: seq<Word>, e: Word)
    requires n < 64 && |m| >= 0x8000 && DirWritten(m, n, t) && e == PAGING_PAGE_ADDR + PG_FLAGS + 0x1000 * n
    ensures DirWritten(m, n + 1, t[DIR + n := e][DIR + 768 + n := e])
  {
  }

  /** `pde_mem_clear`: `rep stosd` of 0x400 zero words. */
  method ClearDirectory(mem: array<Word>)
    requires mem.Length >= 0x8000
    modifies mem
    ensures forall i :: 0 <= i < mem.Length ==> mem[i] == if DIR <= i < TABLES then 0 else old(mem[i])
  {
    var es, di, cx := PAGING_TABLE_ADDR / 16, 0, 0x400;
    while cx != 0
      invariant 0 <= cx <= 0x400 && di == 4 * (0x400 - cx)
      invariant forall i :: 0 <= i < mem.Length ==> mem[i] == if DIR <= i < DIR + (0x400 - cx) then 0 else old(mem[i])
    {
      Store(mem, es, di, 0, 0);
      di := (di + 4) % 0x1_0000;
      cx := cx - 1;
    }
  }

  lemma DirAddresses(n: nat)
    requires n < 64
    ensures RealAddr(0xf00, 4 * n, 0) == 4 * (DIR + n)
    ensures RealAddr(0xf00, 4 * n, 0xc00) == 4 * (DIR + 768 + n)
  {
  }

  /** `build_pde` and `write_pde`: each round stores one entry twice, at its index and at index + 768. */
  method BuildDirectory(mem: array<Word>)
    requires mem.Length >= 0x8000
    requires forall i :: DIR <= i < TABLES ==> mem[i] == 0
    modifies mem
    ensures DirWritten(old(mem[..]), 64, mem[..])
  {
    var es, eax, cx, di := PAGING_TABLE_ADDR / 16, PAGING_PAGE_ADDR + PG_FLAGS, 0x40, 0;
    ghost var n := 0;
    while cx != 0
      invariant 0 <= cx <= 0x40 && n == 0x40 - cx && di == 4 * n && eax == PAGING_PAGE_ADDR + PG_FLAGS + 0x1000 * n
      invariant DirWritten(old(mem[..]), n, mem[..])
    {
      DirRound(old(mem[..]), n, mem[..], eax);
      DirAddresses(n);
      Store(mem, es, di, 0, eax);
      Store(mem, es, di, KERNEL_BASE / 0x10_0000, eax);
      di := (di + 4) % 0x1_0000;
      eax := eax + 0x1000;
      cx := cx - 1;
      n := n + 1;
    }
  }

  lemma TableAddresses(n: nat)
    requires n < 0x4000
    ensures RealAddr(0x1000, 4 * n, 0) == 4 * (TABLES + n)
    ensures (4 * n + 4) % 0x1_0000 == if n + 1 == 0x4000 then 0 else 4 * (n + 1)
  {
  }

  /** `build_pte` and `write_pte`: 0x4000 entries, so `di` wraps only after the last store. */
  method BuildTables(mem: array<Word>)
    requires mem.Length >= 0x8000
    modifies mem
    ensures forall i :: 0 <= i < mem.Length ==>
              mem[i] == if TABLES <= i < 0x8000 then TableEntry(i - TABLES) else old(mem[i])
  {
    hide RealAddr;
    var es, eax, cx, di := PAGING_PAGE_ADDR / 16, PG_FLAGS, 0x4000, 0;
    ghost var n := 0;
    while cx != 0
      invariant 0 <= cx <= 0x4000 && n == 0x4000 - cx && eax == PG_FLAGS + 0x1000 * n
      invariant di == if n == 0x4000 then 0 else 4 * n
      invariant forall i :: 0 <= i < mem.Length ==>
                  mem[i] == if TABLES <= i < TABLES + n then TableEntry(i - TABLES) else old(mem[i])
    {
      TableAddresses(n);
      Store(mem, es, di, 0, eax);
      di := (di + 4) % 0x1_0000;
      eax := eax + 0x1000;
      cx := cx - 1;
      n := n + 1;
    }
  }

  /** What is at every address: the directory at 0xf000 names the tables at 0x10000, 0x11000, and so on, in its first
      64 entries and in the 64 from 3 GiB on, the tables name the frames from 0 on, and every entry is present,
      writable and open to user mode. */
  lemma TablesInWords(m: seq<Word>, addr: nat)
    requires |m| >= 0x8000 && addr % 4 == 0 && addr / 4 < |m|
    ensures WithTables(m)[addr / 4] ==
            if 0xf000 <= addr < 0xf100 then 0x1_0007 + 0x400 * (addr - 0xf000)
            else if 0xfc00 <= addr < 0xfd00 then 0x1_0007 + 0x400 * (addr - 0xfc00)
            else if 0xf000 <= addr < 0x1_0000 then 0
            else if 0x1_0000 <= addr < 0x2_0000 then 0x400 * (addr - 0x1_0000) + 7
            else m[addr / 4]
  {
  }

  /** The three loops in order. */
  method BuildPaging(mem: array<Word>)
    requires mem.Length >= 0x8000
    modifies mem
    ensures mem[..] == WithTables(old(mem[..]))
  {
    ClearDirectory(mem);
    BuildDirectory(mem);
    BuildTables(mem);
  }

  // ---------- the walk ----------

  // How the processor reads a directory or table entry.

  predicate Present(e: Word) {
    e % 2 == 1
  }

  predicate Writable(e: Word) {
    e / 2 % 2 == 1
  }

  predicate User(e: Word) {
    e / 4 % 2 == 1
  }

  function FrameAddr(e: Word): nat {
    e - e % 0x1000
  }

  datatype Translation = Mapped(phys: nat, writable: bool, user: bool) | NotPresent | OutsideMemory

  /** The last step: the page that entry `pte` names. */
  function Leaf(pde: Word, pte: Word, offset: nat): Translation {
    if Present(pte) then Mapped(FrameAddr(pte) + offset, Writable(pde) && Writable(pte), User(pde) && User(pte))
    else NotPresent
  }

  // A linear address is ten bits of directory index, ten bits of table index and a 12-bit offset.

  function DirIndex(va: Word): nat {
    va / 0x40_0000
  }

  function TableIndex(va: Word): nat {
    va / 0x1000 % 1024
  }

  /** The word index of entry `i` of the directory or table that `e` names. */
  function EntryIndex(e: Word, i: nat): nat {
    FrameAddr(e) / 4 + i
  }

  /** The translation of linear address `va` with the directory at `cr3`. */
  function Walk(m: seq<Word>, cr3: Word, va: Word): Translation {
    if EntryIndex(cr3, DirIndex(va)) >= |m| then OutsideMemory
    else
      var pde := m[EntryIndex(cr3, DirIndex(va))];
      if !Present(pde) then NotPresent
      else if EntryIndex(pde, TableIndex(va)) >= |m| then OutsideMemory
      else Leaf(pde, m[EntryIndex(pde, TableIndex(va))], va % 0x1000)
  }

  /** The walk in the loader's own terms, for any tables: which two words it reads, what of them makes up the
      physical address, and that a right is granted only by both. */
  lemma WalkByAddress(m: seq<Word>, cr3: Word, va: Word, dir: nat, pde: Word, table: nat, pte: Word)
    requires dir == cr3 / 0x1000 * 0x400 + va / 0x40_0000 && dir < |m| && pde == m[dir]
    requires table == pde / 0x1000 * 0x400 + va / 0x1000 % 0x400 && table < |m| && pte == m[table]
    ensures Walk(m, cr3, va) ==
            if pde % 2 == 1 && pte % 2 == 1 then
              Mapped(pte - pte % 0x1000 + va % 0x1000, pde / 2 % 2 == 1 && pte / 2 % 2 == 1,
                     pde / 4 % 2 == 1 && pte / 4 % 2 == 1)
            else NotPresent
  {
    hide EntryIndex;
    EntryAddress(cr3, DirIndex(va));
    EntryAddress(pde, TableIndex(va));
  }

  lemma EntryAddress(e: Word, i: nat)
    ensures EntryIndex(e, i) == e / 0x1000 * 0x400 + i
  {
  }

  /** The directory slot of an address, folded onto the 64 entries that the loader writes twice. */
  function Slot(va: Word): nat {
    if 768 <= DirIndex(va) < 832 then DirIndex(va) - 768 else DirIndex(va)
  }

  lemma DirEntryFields(k: nat, i: nat)
    requires k < 64
    ensures Present(DirEntry(64, k)) && Writable(DirEntry(64, k)) && User(DirEntry(64, k))
    ensures EntryIndex(DirEntry(64, k), i) == TABLES + 1024 * k + i
  {
    hide Present, Writable, User, FrameAddr;
    FramePart(DirEntry(64, k), 16 + k, PG_FLAGS);
    FlagParts(DirEntry(64, k), 512 + 32 * k, 0, 0, PG_FLAGS);
  }

  lemma TableEntryFields(k: nat)
    requires k < 0x4000
    ensures Present(TableEntry(k)) && Writable(TableEntry(k)) && User(TableEntry(k))
    ensures FrameAddr(TableEntry(k)) == 0x1000 * k
  {
    hide Present, Writable, User, FrameAddr;
    FramePart(TableEntry(k), k, PG_FLAGS);
    FlagParts(TableEntry(k), 32 * k, 0, 0, PG_FLAGS);
  }

  // ---------- tables in use ----------

  // The processor sets bit 5 (accessed) of every entry it walks and bit 6 (dirty) of the entry of a page it writes.

  predicate Accessed(e: Word) {
    e / 32 % 2 == 1
  }

  predicate Dirty(e: Word) {
    e / 64 % 2 == 1
  }

  /** An entry without its accessed and dirty bits. */
  function Unmarked(e: Word): Word {
    e - 32 * (e / 32 % 4)
  }

  /** An entry after a walk through it. */
  function Marked(e: Word, write: bool): Word {
    Unmarked(e) + 32 + if write || Dirty(e) then 64 else 0
  }

  /** An entry taken apart: what is above bit 6, the dirty bit, the accessed bit, and what is below. */
  function Assembled(q: nat, d: nat, a: nat, l: nat): nat {
    128 * q + 64 * d + 32 * a + l
  }

  lemma MarkParts(e: Word, q: nat, d: nat, a: nat, l: nat)
    requires e == Assembled(q, d, a, l) && d < 2 && a < 2 && l < 32
    ensures Unmarked(e) == Assembled(q, 0, 0, l)
    ensures (Dirty(e) <==> d == 1) && (Accessed(e) <==> a == 1)
  {
    DivUnique(e, 32, 4 * q + 2 * d + a, l);
    DivUnique(4 * q + 2 * d + a, 4, q, 2 * d + a);
    DivUnique(4 * q + 2 * d + a, 2, 2 * q + d, a);
    DivUnique(e, 64, 2 * q + d, 32 * a + l);
    DivUnique(2 * q + d, 2, q, d);
  }

  lemma FlagParts(e: Word, q: nat, d: nat, a: nat, l: nat)
    requires e == Assembled(q, d, a, l) && d < 2 && a < 2 && l < 32
    ensures (Present(e) <==> l % 2 == 1) && (Writable(e) <==> l / 2 % 2 == 1)
    ensures User(e) <==> l / 4 % 2 == 1
  {
    var half := 64 * q + 32 * d + 16 * a + l / 2;
    DivUnique(e, 2, half, l % 2);
    DivUnique(half, 2, 32 * q + 16 * d + 8 * a + l / 2 / 2, l / 2 % 2);
    DivUnique(e, 4, 32 * q + 16 * d + 8 * a + l / 4, l % 4);
    DivUnique(32 * q + 16 * d + 8 * a + l / 4, 2, 16 * q + 8 * d + 4 * a + l / 4 / 2, l / 4 % 2);
  }

  lemma FramePart(e: Word, h: nat, low: nat)
    requires e == 0x1000 * h + low && low < 0x1000
    ensures FrameAddr(e) == 0x1000 * h
  {
  }

  lemma WalkParts(e: Word, q: nat, d: nat, a: nat, l: nat)
    requires e == Assembled(q, d, a, l) && d < 2 && a < 2 && l < 32
    ensures (Present(e) <==> l % 2 == 1) && (Writable(e) <==> l / 2 % 2 == 1)
    ensures User(e) <==> l / 4 % 2 == 1
    ensures FrameAddr(e) == 0x1000 * (q / 32)
  {
    hide Present, Writable, User, FrameAddr;
    FlagParts(e, q, d, a, l);
    FramePart(e, q / 32, 128 * (q % 32) + 64 * d + 32 * a + l);
  }

  lemma TakeApart(e: Word) returns (q: nat, d: nat, a: nat, l: nat)
    ensures e == Assembled(q, d, a, l) && d < 2 && a < 2 && l < 32
  {
    var x := e / 32;
    var y := x / 2;
    q, d, a, l := y / 2, y % 2, x % 2, e % 32;
  }

  /** Marking sets the two bits as it should, keeps the rest, and nothing that a walk reads depends on them. */
  lemma MarkingIsInvisible(e: Word, write: bool)
    ensures Accessed(Marked(e, write)) && (Dirty(Marked(e, write)) <==> write || Dirty(e))
    ensures Unmarked(Marked(e, write)) == Unmarked(e)
    ensures Present(Unmarked(e)) == Present(e) && Writable(Unmarked(e)) == Writable(e)
    ensures User(Unmarked(e)) == User(e) && FrameAddr(Unmarked(e)) == FrameAddr(e)
  {
    hide Unmarked, Dirty, Accessed, Present, Writable, User, FrameAddr;
    var q, d, a, l := TakeApart(e);
    MarkParts(e, q, d, a, l);
    MarkParts(Marked(e, write), q, if write || Dirty(e) then 1 else 0, 1, l);
    WalkParts(e, q, d, a, l);
    WalkParts(Unmarked(e), q, 0, 0, l);
  }

  /** Memory in which the directory and the page tables are as the loader left them, up to accessed and dirty bits. */
  ghost predicate TablesIntact(m: seq<Word>) {
    |m| >= 0x8000 && forall i :: DIR <= i < 0x8000 ==> Unmarked(m[i]) == WordWithTables(m, i)
  }

  lemma LoaderEntriesUnmarked(m: seq<Word>, i: nat)
    requires DIR <= i < 0x8000 <= |m|
    ensures Unmarked(WordWithTables(m, i)) == WordWithTables(m, i)
  {
    hide Unmarked;
    var e := WordWithTables(m, i);
    if e == 0 {
      MarkParts(e, 0, 0, 0, 0);
    } else {
      MarkParts(e, (e - PG_FLAGS) / 128, 0, 0, PG_FLAGS);
    }
  }

  /** The loader establishes this; it survives every store outside the tables and every change of accessed and
      dirty bits inside them. */
  lemma TablesStayIntact(m: seq<Word>, i: nat, v: Word)
    requires i < |m|
    ensures |m| >= 0x8000 ==> TablesIntact(WithTables(m))
    ensures TablesIntact(m) && (i < DIR || 0x8000 <= i) ==> TablesIntact(m[i := v])
    ensures TablesIntact(m) && Unmarked(v) == Unmarked(m[i]) ==> TablesIntact(m[i := v])
  {
    if |m| >= 0x8000 {
      forall k | DIR <= k < 0x8000
        ensures Unmarked(WithTables(m)[k]) == WordWithTables(m, k) == WordWithTables(WithTables(m), k)
      {
        LoaderEntriesUnmarked(m, k);
      }
    }
    if TablesIntact(m) {
      forall k | DIR <= k < 0x8000
        ensures WordWithTables(m[i := v], k) == WordWithTables(m, k)
      {
      }
    }
  }

  // ---------- every translation ----------

  lemma DirectoryStep(m: seq<Word>, va: Word, pde: Word)
    requires TablesIntact(m) && EntryIndex(PAGING_TABLE_ADDR, DirIndex(va)) == DIR + DirIndex(va) < TABLES
    requires pde == m[DIR + DirIndex(va)]
    ensures Slot(va) >= 64 ==> !Present(pde)
    ensures Slot(va) < 64 ==>
              && Present(pde) && Writable(pde) && User(pde)
              && EntryIndex(pde, TableIndex(va)) == TABLES + 1024 * Slot(va) + TableIndex(va)
  {
    assert !Present(0);
    hide Present, Writable, User, FrameAddr, Unmarked;
    MarkingIsInvisible(pde, false);
    assert Unmarked(pde) == WordWithTables(m, DIR + DirIndex(va)) == DirEntry(64, DirIndex(va));
    if Slot(va) < 64 {
      assert DirEntry(64, DirIndex(va)) == DirEntry(64, Slot(va));
      DirEntryFields(Slot(va), TableIndex(va));
    }
  }

  lemma SplitAddress(va: Word)
    ensures va % 0x40_0000 == 0x1000 * TableIndex(va) + va % 0x1000
    ensures TableIndex(va) < 1024
    ensures EntryIndex(PAGING_TABLE_ADDR, DirIndex(va)) == DIR + DirIndex(va) < TABLES
  {
  }

  /** Every linear address, through the tables the loader leaves behind: the first 64 MiB of each half
      reach the same physical 64 MiB, writable and open to user mode; the directory entries beyond the sixteen
      filled tables read their page entries from whatever memory holds there; everything else is not present. */
  lemma WalkExact(m: seq<Word>, va: Word)
    requires TablesIntact(m)
    ensures Walk(m, PAGING_TABLE_ADDR, va) ==
            if Slot(va) < 16 then Mapped(0x40_0000 * Slot(va) + va % 0x40_0000, true, true)
            else if Slot(va) >= 64 then NotPresent
            else
              var pteIndex := TABLES + 1024 * Slot(va) + TableIndex(va);
              if pteIndex >= |m| then OutsideMemory
              else Leaf(DirEntry(64, Slot(va)), m[pteIndex], va % 0x1000)
  {
    SplitAddress(va);
    DirectoryStep(m, va, m[DIR + DirIndex(va)]);
    if Slot(va) < 64 {
      DirEntryFields(Slot(va), TableIndex(va));
      if Slot(va) < 16 {
        var k := 1024 * Slot(va) + TableIndex(va);
        MarkingIsInvisible(m[TABLES + k], false);
        assert Unmarked(m[TABLES + k]) == WordWithTables(m, TABLES + k) == TableEntry(k);
        TableEntryFields(k);
      }
    }
  }

  /** The part the kernel relies on: both 64 MiB windows are a plain offset from physical memory. */
  lemma WindowsMapLowMemory(m: seq<Word>, pa: nat)
    requires TablesIntact(m) && pa < 0x400_0000
    ensures Walk(m, PAGING_TABLE_ADDR, pa) == Mapped(pa, true, true)
    ensures Walk(m, PAGING_TABLE_ADDR, KERNEL_BASE + pa) == Mapped(pa, true, true)
  {
    hide Walk, TablesIntact, Leaf;
    WalkExact(m, pa);
    WalkExact(m, KERNEL_BASE + pa);
  }

  // ---------- accesses ----------

  /** Memory after the processor has translated `va` for a read or a write: it marks both entries. */
  function Access(m: seq<Word>, cr3: Word, va: Word, write: bool): (m': seq<Word>)
    ensures |m'| == |m|
  {
    if !Walk(m, cr3, va).Mapped? then m
    else
      var i := EntryIndex(cr3, DirIndex(va));
      var j := EntryIndex(m[i], TableIndex(va));
      var m1 := m[i := Marked(m[i], false)];
      m1[j := Marked(m1[j], write)]
  }

  /** Memory after a store to linear address `va` that leaves `v` in the word it hits. */
  function StoreThrough(m: seq<Word>, cr3: Word, va: Word, v: Word): (m': seq<Word>)
    ensures |m'| == |m|
  {
    match Walk(m, cr3, va)
    case Mapped(phys, _, _) =>
      var m1 := Access(m, cr3, va, true);
      if phys / 4 < |m| then m1[phys / 4 := v] else m1
    case _ => m
  }

  /** Entry `e'` is entry `e` after an access. */
  predicate MarkedBy(e: Word, e': Word, write: bool) {
    Unmarked(e') == Unmarked(e) && Accessed(e') && (Dirty(e') <==> write || Dirty(e))
  }

  /** What a translated store leaves behind: the value, a directory entry marked as accessed, a table entry marked
      as accessed and dirty, and nothing else. */
  lemma StoreThroughEffect(m: seq<Word>, cr3: Word, va: Word, v: Word, i: nat, j: nat, w: nat)
    returns (pde: Word, pte: Word)
    requires Walk(m, cr3, va).Mapped? && w == Walk(m, cr3, va).phys / 4 < |m|
    requires i == EntryIndex(cr3, DirIndex(va)) < |m| && j == EntryIndex(m[i], TableIndex(va)) < |m|
    ensures MarkedBy(m[i], pde, false)
    ensures MarkedBy(m[i := pde][j], pte, true)
    ensures StoreThrough(m, cr3, va, v) == m[i := pde][j := pte][w := v]
  {
    hide Unmarked, Accessed, Dirty;
    pde := Marked(m[i], false);
    MarkingIsInvisible(m[i], false);
    pte := Marked(m[i := pde][j], true);
    MarkingIsInvisible(m[i := pde][j], true);
  }

  /** A store to any mapped address outside the tables keeps them intact, although it marks entries in them. */
  lemma StoreKeepsTables(m: seq<Word>, va: Word, v: Word)
    requires TablesIntact(m) && Walk(m, PAGING_TABLE_ADDR, va).Mapped?
    requires var phys := Walk(m, PAGING_TABLE_ADDR, va).phys; phys < 0xf000 || 0x2_0000 <= phys
    ensures TablesIntact(Access(m, PAGING_TABLE_ADDR, va, true))
    ensures TablesIntact(StoreThrough(m, PAGING_TABLE_ADDR, va, v))
  {
    var i := EntryIndex(PAGING_TABLE_ADDR, DirIndex(va));
    var j := EntryIndex(m[i], TableIndex(va));
    var m1 := m[i := Marked(m[i], false)];
    MarkingIsInvisible(m[i], false);
    TablesStayIntact(m, i, m1[i]);
    MarkingIsInvisible(m1[j], true);
    TablesStayIntact(m1, j, Marked(m1[j], true));
    var m2 := m1[j := Marked(m1[j], true)];
    var w := Walk(m, PAGING_TABLE_ADDR, va).phys / 4;
    if w < |m| {
      TablesStayIntact(m2, w, v);
    }
  }

  // ---------- above 64 MiB ----------

  /** The comment in the loader promises that only 64 MiB are mapped, but the directory loop runs 64 times.
      Above the first 64 MiB of a window, an address is mapped exactly when the word that stands where its
      page entry would be, in memory the loader does not write, happens to be odd, and that word decides where to
      and with which rights. */
  lemma MappedAbove64MiB(m: seq<Word>, va: Word)
    requires TablesIntact(m)
    requires 16 <= Slot(va) < 64 && TABLES + 1024 * Slot(va) + TableIndex(va) < |m|
    ensures Walk(m, PAGING_TABLE_ADDR, va).Mapped? <==>
            m[TABLES + 1024 * Slot(va) + TableIndex(va)] % 2 == 1
    ensures Walk(m, PAGING_TABLE_ADDR, va).Mapped? ==>
              var stray := m[TABLES + 1024 * Slot(va) + TableIndex(va)];
              Walk(m, PAGING_TABLE_ADDR, va) == Mapped(FrameAddr(stray) + va % 0x1000, Writable(stray), User(stray))
  {
    hide Walk, Writable, User, FrameAddr, TablesIntact;
    DirEntryFields(Slot(va), 0);
    WalkExact(m, va);
  }

  const FIRST_INSTRUCTIONS: Word := 0x8e07c0b8 // `mov ax, 0x07c0` and `mov ds, ax`, at physical 0x20000
  const ELF_MAGIC: Word := 0x464c457f // the start of the kernel file, at physical 0x21000

  /** What stands there in a booted machine. The loader is read to 0x20000 and the kernel file to 0x21000, where
      the loader itself looks for the ELF magic. Read as page entries, the loader's first instructions leave the
      first page above 64 MiB unmapped, and the magic maps a page 4 MiB further on, writable, to a frame beyond
      1 GiB. */
  lemma ImageReadAsPageEntries(m: seq<Word>, first: Word, further: Word)
    requires TablesIntact(m) && |m| > 0x8400
    requires m[0x8000] == FIRST_INSTRUCTIONS && m[0x8400] == ELF_MAGIC
    requires DirIndex(first) in {16, 784} && DirIndex(further) in {17, 785}
    requires first % 0x40_0000 == 0 && further % 0x40_0000 == 0
    ensures Walk(m, PAGING_TABLE_ADDR, first) == NotPresent
    ensures Walk(m, PAGING_TABLE_ADDR, further) == Mapped(0x464c_4000, true, true)
  {
    hide Walk, Leaf, Writable, User, DirEntry;
    StrayEntry(m, first);
    StrayEntry(m, further);
    ImageLeaves(DirEntry(64, 16));
    ImageLeaves(DirEntry(64, 17));
  }

  lemma ImageLeaves(pde: Word)
    ensures Leaf(pde, FIRST_INSTRUCTIONS, 0) == NotPresent
    ensures Writable(pde) && User(pde) ==> Leaf(pde, ELF_MAGIC, 0) == Mapped(0x464c_4000, true, true)
  {
  }

  /** The first page of a stretch whose directory entry names no page table. */
  lemma StrayEntry(m: seq<Word>, va: Word)
    requires TablesIntact(m) && 16 <= Slot(va) < 64 && va % 0x40_0000 == 0
    requires TABLES + 1024 * Slot(va) < |m|
    ensures Walk(m, PAGING_TABLE_ADDR, va) == Leaf(DirEntry(64, Slot(va)), m[TABLES + 1024 * Slot(va)], 0)
    ensures Writable(DirEntry(64, Slot(va))) && User(DirEntry(64, Slot(va)))
  {
    hide Walk;
    SplitAddress(va);
    WalkExact(m, va);
    DirEntryFields(Slot(va), 0);
  }

  // ---------- the kernel's own view of an entry ----------

  /** `PageTableEntry::addr`: bits 12 to 31, shifted back up. */
  function EntryAddr(e: Word): Outcome<nat> {
    var bits :- GetRange(32, e, Range(12, 32));
    Done(Shl(32, bits, 12))
  }

  lemma WidthsOfTables()
    ensures Pow2(12) == 0x1000 && Pow2(32) == 0x1_0000_0000
  {
    assert Pow2(12) == 0x1000 && Pow2(8) == 0x100;
    Pow2Add(12, 12);
    Pow2Add(24, 8);
  }

  lemma WidthsOfFlags()
    ensures Pow2(0) == 1 && Pow2(1) == 2 && Pow2(2) == 4 && Pow2(3) == 8 && Pow2(4) == 16 && Pow2(5) == 32
    ensures Pow2(6) == 64 && Pow2(7) == 128 && Pow2(8) == 256 && Pow2(9) == 512
  {
  }

  /** The nine flags of `PageTableEntry`, from `present` to `global`, read bits 0 to 8. */
  lemma EntryFlags(e: Word)
    ensures GetBit(32, e, 0) == Done(Present(e))
    ensures GetBit(32, e, 1) == Done(Writable(e))
    ensures GetBit(32, e, 2) == Done(User(e))
    ensures GetBit(32, e, 3) == Done(e / 8 % 2 == 1)
    ensures GetBit(32, e, 4) == Done(e / 16 % 2 == 1)
    ensures GetBit(32, e, 5) == Done(Accessed(e))
    ensures GetBit(32, e, 6) == Done(Dirty(e))
    ensures GetBit(32, e, 7) == Done(e / 128 % 2 == 1)
    ensures GetBit(32, e, 8) == Done(e / 256 % 2 == 1)
  {
    hide GetBit;
    WidthsOfFlags();
    GetBitValue(32, e, 0, 1);
    GetBitValue(32, e, 1, 2);
    GetBitValue(32, e, 2, 4);
    GetBitValue(32, e, 3, 8);
    GetBitValue(32, e, 4, 16);
    GetBitValue(32, e, 5, 32);
    GetBitValue(32, e, 6, 64);
    GetBitValue(32, e, 7, 128);
    GetBitValue(32, e, 8, 256);
  }

  lemma SpareBits(e: nat)
    ensures e % 0x1000 / 512 == e / 512 % 8
  {
    var q, r := e / 0x1000, e % 0x1000;
    assert e / 512 == 8 * q + r / 512;
  }

  /** `available`: the three spare bits. */
  lemma EntryAvailable(e: Word)
    ensures GetRange(32, e, Range(9, 12)) == Done(e / 512 % 8)
  {
    hide GetRange;
    WidthsOfTables();
    WidthsOfFlags();
    GetRangeValue(32, e, Range(9, 12), 512, 0x1000);
    SpareBits(e);
  }

  /** `addr`: the frame address that a walk uses. */
  lemma EntryAddrIsFrame(e: Word)
    ensures EntryAddr(e) == Done(FrameAddr(e))
  {
    hide GetRange, Shl;
    WidthsOfTables();
    TopFieldInPlace(32, e, 12);
    HighLowAreDivMod(e, 12);
  }

  /** What the processor does to an entry is what setting those two bits would do. */
  lemma MarkedIsSetBit(e: Word)
    ensures SetBit(32, e, 5, true) == Done(Marked(e, false))
    ensures SetBit(32, Marked(e, false), 6, true) == Done(Marked(e, true))
  {
    hide SetBit, SetRange;
    WidthsOfTables();
    WidthsOfFlags();
    MarkingIsInvisible(e, false);
    MarkingIsInvisible(e, true);
    SetBitIsSetRange(32, e, 5, true);
    SetFieldValue(32, e, Range(5, 6), 1, 32, 64);
    var a := Marked(e, false);
    SetBitIsSetRange(32, a, 6, true);
    SetFieldValue(32, a, Range(6, 7), 1, 64, 128);
    MarkedValues(e);
  }

  lemma LowParts(q: nat, d: nat, a: nat, l: nat)
    requires d < 2 && a < 2 && l < 32
    ensures Assembled(q, d, a, l) % 64 / 32 == a && Assembled(q, d, a, l) % 128 / 64 == d
  {
    DivUnique(Assembled(q, d, a, l), 64, 2 * q + d, 32 * a + l);
    DivUnique(32 * a + l, 32, a, l);
    DivUnique(Assembled(q, d, a, l), 128, q, 64 * d + 32 * a + l);
    DivUnique(64 * d + 32 * a + l, 64, d, 32 * a + l);
  }

  lemma MarkedValues(e: Word)
    ensures Marked(e, false) == e - e % 64 / 32 * 32 + 32
    ensures Marked(e, true) == Marked(e, false) - Marked(e, false) % 128 / 64 * 64 + 64
  {
    hide Unmarked, Dirty;
    var q, d, a, l := TakeApart(e);
    MarkParts(e, q, d, a, l);
    assert Marked(e, false) == Assembled(q, d, 1, l) && Marked(e, true) == Assembled(q, 1, 1, l);
    LowParts(q, d, a, l);
    LowParts(q, d, 1, l);
  }

  // ---------- rounding to a page ----------

  /** `pg_round_down`: the address masked with the complement of twelve ones. */
  function PgRoundDown(addr: Word): nat {
    Pow2Monotone(12, 32);
    And(addr, Not(32, Pow2(12) - 1))
  }

  /** The page that an address is in: the only multiple of 4096 at or below it and less than 4096 away. */
  lemma PgRoundDownIsPage(addr: Word)
    ensures PgRoundDown(addr) % 0x1000 == 0
    ensures PgRoundDown(addr) <= addr < PgRoundDown(addr) + 0x1000
  {
    hide And, Low;
    WidthsOfTables();
    ClearLowBits(32, addr, 12);
    HighLowAreDivMod(addr, 12);
  }
}
