/**
 The kernel heap: the global allocator of `kernel/src/mm/mod.rs` on top of the page allocator,
 as a machine whose runs are arbitrary sequences of `alloc` and `dealloc` calls that respect
 the `GlobalAlloc` contract.
 */
module Heaps {
  import opened Machine
  import opened BitMaps
  import opened PageAllocators

  /** `raw` is every bit of the bitmap's storage, `live` maps each live pointer to the size requested. */
  datatype Heap = Heap(base: nat, size: nat, raw: seq<bool>, live: map<nat, nat>)

  datatype Call = Alloc(bytes: nat) | Dealloc(ptr: nat, bytes: nat)

  /** The fewest pages that hold a request. */
  function Pages(bytes: nat): (n: nat)
    ensures bytes <= 4096 * n < bytes + 4096
  {
    (bytes + 4095) / 4096
  }

  function MapBits(h: Heap): seq<bool>
    requires h.size <= |h.raw|
  {
    h.raw[..h.size]
  }

  function PageAddr(h: Heap, i: int): int {
    h.base + 4096 * i
  }

  function PageIndex(h: Heap, ptr: nat): int {
    (ptr - h.base) / 4096
  }

  // ---------- calls and runs ----------

  /** What one call does; running out of pages is an `unwrap` of nothing. */
  function Step(h: Heap, c: Call): Outcome<Heap>
    requires h.size <= |h.raw|
  {
    match c
    case Alloc(bytes) =>
      (match FindIn(MapBits(h), 0, Pages(bytes), false)
       case Found(i) =>
         Done(h.(raw := FlipWindow(h.raw, i, i + Pages(bytes)), live := h.live[PageAddr(h, i) := bytes]))
       case NotFound => Panics
       case AssertFails => Panics)
    case Dealloc(ptr, bytes) =>
      if && ptr % 4096 == 0 && h.base <= ptr
         && (Pages(bytes) == 0 || Window(MapBits(h), PageIndex(h, ptr), Pages(bytes), true))
      then
        var i := PageIndex(h, ptr);
        Done(h.(raw := FlipWindow(h.raw, i, i + Pages(bytes)), live := h.live - {ptr}))
      else Panics
  }

  /** The caller's side of `GlobalAlloc`: no empty requests, and a block is given back once, with its size. */
  predicate Allowed(h: Heap, c: Call) {
    match c
    case Alloc(bytes) => bytes >= 1
    case Dealloc(ptr, bytes) => ptr in h.live && h.live[ptr] == bytes
  }

  function Run(h: Heap, calls: seq<Call>): Outcome<Heap>
    requires h.size <= |h.raw|
    decreases |calls|
  {
    if calls == [] then Done(h)
    else
      var h' :- Step(h, calls[0]);
      Run(h', calls[1..])
  }

  predicate Respects(h: Heap, calls: seq<Call>)
    requires h.size <= |h.raw|
    decreases |calls|
  {
    calls != [] ==>
      && Allowed(h, calls[0])
      && (Step(h, calls[0]).Done? ==> Respects(Step(h, calls[0]).value, calls[1..]))
  }

  // ---------- the invariant ----------

  function BlockEnd(h: Heap, ptr: nat): nat
    requires ptr in h.live
  {
    ptr + 4096 * Pages(h.live[ptr])
  }

  /** Page `i` belongs to the live block at `ptr`. */
  predicate Covers(h: Heap, ptr: nat, i: int) {
    ptr in h.live && ptr <= PageAddr(h, i) < BlockEnd(h, ptr)
  }

  /** A live block is page-aligned, not empty and inside the managed pages. */
  predicate BlockInHeap(h: Heap, ptr: nat)
    requires ptr in h.live
  {
    && h.live[ptr] >= 1
    && ptr % 4096 == 0
    && h.base <= ptr
    && BlockEnd(h, ptr) <= PageAddr(h, h.size)
  }

  predicate Disjoint(h: Heap, p: nat, q: nat)
    requires p in h.live && q in h.live
  {
    BlockEnd(h, p) <= q || BlockEnd(h, q) <= p
  }

  ghost predicate Inv(h: Heap) {
    && h.size <= |h.raw| && h.base % 4096 == 0
    && (forall p :: p in h.live ==> BlockInHeap(h, p))
    && (forall p, q :: p in h.live && q in h.live && p != q ==> Disjoint(h, p, q))
    && (forall i :: 0 <= i < h.size ==> (h.raw[i] <==> exists p :: Covers(h, p, i)))
  }

  lemma FreshHeapInv(h: Heap)
    requires h.size <= |h.raw| && h.base % 4096 == 0 && h.live == map[]
    requires MapBits(h) == seq(h.size, _ => false)
    ensures Inv(h)
  {
  }

  lemma AllocFinds(h: Heap, bytes: nat) returns (i: nat)
    requires h.size <= |h.raw| && bytes >= 1 && Step(h, Alloc(bytes)).Done?
    ensures FindIn(MapBits(h), 0, Pages(bytes), false) == Found(i)
    ensures i + Pages(bytes) <= h.size && Pages(bytes) >= 1
    ensures forall j :: i <= j < i + Pages(bytes) ==> !h.raw[j]
    ensures Step(h, Alloc(bytes)).value ==
            h.(raw := FlipWindow(h.raw, i, i + Pages(bytes)), live := h.live[PageAddr(h, i) := bytes])
  {
    i := FindIn(MapBits(h), 0, Pages(bytes), false).start;
    FoundInBounds(MapBits(h), 0, Pages(bytes), false);
    forall j | i <= j < i + Pages(bytes)
      ensures !h.raw[j]
    {
      assert MapBits(h)[j] == h.raw[j];
    }
  }

  /** Free pages meet no live block. */
  lemma FreeRunMeetsNoBlock(h: Heap, i: nat, n: nat, q: nat)
    requires Inv(h) && i + n <= h.size && n >= 1 && q in h.live
    requires forall j :: i <= j < i + n ==> !h.raw[j]
    ensures q != PageAddr(h, i)
    ensures PageAddr(h, i + n) <= q || BlockEnd(h, q) <= PageAddr(h, i)
  {
    assert BlockInHeap(h, q);
    if q < PageAddr(h, i + n) && PageAddr(h, i) < BlockEnd(h, q) {
      var j := if PageAddr(h, i) <= q then PageIndex(h, q) else i;
      CoveredIsSet(h, q, j);
    }
  }

  lemma CoveredIsSet(h: Heap, p: nat, i: nat)
    requires Inv(h) && Covers(h, p, i) && i < h.size
    ensures h.raw[i]
  {
  }

  /** The pointer an allocation hands out is not one that is already live. */
  lemma AllocIsFresh(h: Heap, bytes: nat) returns (i: nat, ptr: nat)
    requires Inv(h) && bytes >= 1 && Step(h, Alloc(bytes)).Done?
    ensures FindIn(MapBits(h), 0, Pages(bytes), false) == Found(i) && ptr == PageAddr(h, i)
    ensures ptr !in h.live
    ensures Step(h, Alloc(bytes)).value ==
            h.(raw := FlipWindow(h.raw, i, i + Pages(bytes)), live := h.live[ptr := bytes])
  {
    i := AllocFinds(h, bytes);
    ptr := PageAddr(h, i);
    if ptr in h.live {
      FreeRunMeetsNoBlock(h, i, Pages(bytes), ptr);
    }
  }

  lemma AllocKeepsInv(h: Heap, bytes: nat)
    requires Inv(h) && bytes >= 1 && Step(h, Alloc(bytes)).Done?
    ensures Inv(Step(h, Alloc(bytes)).value)
  {
    var i := AllocFinds(h, bytes);
    var h' := Step(h, Alloc(bytes)).value;
    var ptr := PageAddr(h, i);
    forall q | q in h.live
      ensures q != ptr && BlockEnd(h', q) == BlockEnd(h, q) && BlockInHeap(h', q)
      ensures Disjoint(h', ptr, q) && Disjoint(h', q, ptr)
    {
      FreeRunMeetsNoBlock(h, i, Pages(bytes), q);
      assert BlockInHeap(h, q);
    }
    forall p, q | p in h'.live && q in h'.live && p != q
      ensures Disjoint(h', p, q)
    {
      if p != ptr && q != ptr {
        assert Disjoint(h, p, q);
      }
    }
    forall j | 0 <= j < h.size
      ensures h'.raw[j] <==> exists p :: Covers(h', p, j)
    {
      AllocMarks(h, h', i, bytes, j);
    }
  }

  /** After an allocation, too, a bit is set exactly when its page is in a live block. */
  lemma AllocMarks(h: Heap, h': Heap, i: nat, bytes: nat, j: nat)
    requires h.size <= |h.raw| && i + Pages(bytes) <= h.size && j < h.size && PageAddr(h, i) !in h.live
    requires h.raw[j] <==> exists p :: Covers(h, p, j)
    requires i <= j < i + Pages(bytes) ==> !h.raw[j]
    requires h' == h.(raw := FlipWindow(h.raw, i, i + Pages(bytes)), live := h.live[PageAddr(h, i) := bytes])
    ensures h'.raw[j] <==> exists p :: Covers(h', p, j)
  {
    var ptr := PageAddr(h, i);
    if i <= j < i + Pages(bytes) {
      assert Covers(h', ptr, j);
    } else {
      if h.raw[j] {
        var p :| Covers(h, p, j);
        assert Covers(h', p, j);
      }
      if p :| Covers(h', p, j) {
        assert p != ptr;
        assert Covers(h, p, j);
      }
    }
  }

  /** The pages of a block, as page indices. */
  lemma CoversIsWindow(h: Heap, ptr: nat, j: int)
    requires ptr in h.live && h.base % 4096 == 0 && BlockInHeap(h, ptr)
    ensures Covers(h, ptr, j) <==> PageIndex(h, ptr) <= j < PageIndex(h, ptr) + Pages(h.live[ptr])
  {
  }

  /** A live block's pages are exactly marked, so giving it back never panics. */
  lemma DeallocSucceeds(h: Heap, ptr: nat)
    requires Inv(h) && ptr in h.live
    ensures Window(MapBits(h), PageIndex(h, ptr), Pages(h.live[ptr]), true)
    ensures Step(h, Dealloc(ptr, h.live[ptr])).Done?
  {
    assert BlockInHeap(h, ptr);
    var i := PageIndex(h, ptr);
    forall j | i <= j < i + Pages(h.live[ptr])
      ensures MapBits(h)[j]
    {
      CoversIsWindow(h, ptr, j);
      CoveredIsSet(h, ptr, j);
    }
  }

  lemma DeallocKeepsInv(h: Heap, ptr: nat)
    requires Inv(h) && ptr in h.live
    ensures Step(h, Dealloc(ptr, h.live[ptr])).Done?
    ensures Inv(Step(h, Dealloc(ptr, h.live[ptr])).value)
  {
    DeallocSucceeds(h, ptr);
    assert BlockInHeap(h, ptr);
    var h' := Step(h, Dealloc(ptr, h.live[ptr])).value;
    var i := PageIndex(h, ptr);
    forall q | q in h'.live
      ensures BlockEnd(h', q) == BlockEnd(h, q) && BlockInHeap(h', q)
    {
      assert BlockInHeap(h, q);
    }
    forall p, q | p in h'.live && q in h'.live && p != q
      ensures Disjoint(h', p, q)
    {
      assert Disjoint(h, p, q);
    }
    forall j | 0 <= j < h.size
      ensures h'.raw[j] <==> exists p :: Covers(h', p, j)
    {
      DeallocBit(h, ptr, h', j);
    }
  }

  lemma DeallocBit(h: Heap, ptr: nat, h': Heap, j: nat)
    requires Inv(h) && ptr in h.live && j < h.size
    requires Step(h, Dealloc(ptr, h.live[ptr])) == Done(h')
    ensures h'.raw[j] <==> exists p :: Covers(h', p, j)
  {
    DeallocCovers(h, ptr, h', j);
    if Covers(h, ptr, j) {
      CoveredIsSet(h, ptr, j);
    } else {
      assert h.raw[j] <==> exists p :: Covers(h, p, j);
    }
  }

  lemma OneOwner(h: Heap, p: nat, q: nat, j: int)
    requires Inv(h) && p != q && Covers(h, p, j)
    ensures !Covers(h, q, j)
  {
  }

  lemma DeallocCovers(h: Heap, ptr: nat, h': Heap, j: nat)
    requires Inv(h) && ptr in h.live && j < h.size
    requires Step(h, Dealloc(ptr, h.live[ptr])) == Done(h')
    ensures h'.raw[j] == if Covers(h, ptr, j) then !h.raw[j] else h.raw[j]
    ensures forall p :: Covers(h', p, j) <==> Covers(h, p, j) && !Covers(h, ptr, j)
  {
    CoversIsWindow(h, ptr, j);
    forall p
      ensures Covers(h', p, j) <==> Covers(h, p, j) && !Covers(h, ptr, j)
    {
      assert Covers(h', p, j) <==> p != ptr && Covers(h, p, j);
      if Covers(h, ptr, j) && p != ptr {
        OneOwner(h, ptr, p, j);
      }
    }
  }

  lemma StepKeepsInv(h: Heap, c: Call)
    requires Inv(h) && Allowed(h, c) && Step(h, c).Done?
    ensures Inv(Step(h, c).value)
    ensures Step(h, c).value.base == h.base && Step(h, c).value.size == h.size
    ensures Step(h, c).value.raw[h.size..] == h.raw[h.size..]
  {
    match c
    case Alloc(bytes) =>
      AllocKeepsInv(h, bytes);
      var i := AllocFinds(h, bytes);
    case Dealloc(ptr, bytes) =>
      DeallocKeepsInv(h, ptr);
  }

  /** Whole runs. However `alloc` and `dealloc` are interleaved, live blocks stay page-aligned, inside the
      heap, large enough for what was requested, by less than a page too large, and pairwise disjoint, a bit is
      set exactly when its page is in a live block, and neither the heap's place nor any padding bit changes. */
  lemma {:induction false} RunKeepsInv(h: Heap, calls: seq<Call>)
    requires Inv(h) && Respects(h, calls) && Run(h, calls).Done?
    ensures Inv(Run(h, calls).value)
    ensures Run(h, calls).value.base == h.base && Run(h, calls).value.size == h.size
    ensures Run(h, calls).value.raw[h.size..] == h.raw[h.size..]
    ensures forall p :: p in Run(h, calls).value.live ==>
              var end := p + Run(h, calls).value.live[p];
              end <= BlockEnd(Run(h, calls).value, p) < end + 4096
    decreases |calls|
  {
    if calls != [] {
      StepKeepsInv(h, calls[0]);
      RunKeepsInv(Step(h, calls[0]).value, calls[1..]);
    }
  }

  /** The only way a call can panic: an allocation for which no run of free pages is long enough. */
  lemma PanicIsExhaustion(h: Heap, c: Call)
    requires Inv(h) && Allowed(h, c)
    ensures Step(h, c).Panics? <==>
            c.Alloc? && forall i :: !Window(MapBits(h), i, Pages(c.bytes), false)
  {
    match c
    case Alloc(bytes) =>
      FindExact(MapBits(h), 0, Pages(bytes), false);
      if Step(h, c).Done? {
        FoundInBounds(MapBits(h), 0, Pages(bytes), false);
      }
    case Dealloc(ptr, bytes) =>
      DeallocSucceeds(h, ptr);
  }

  /** Page `i` is a page of the heap that belongs to some live block. */
  ghost predicate InUse(h: Heap, i: int) {
    i < h.size && exists p :: Covers(h, p, i)
  }

  /** Of the calls that break the contract, `dealloc` lets through exactly those whose pages are all in use: an
      aligned pointer into the heap, every page from there on in some live block. */
  lemma DeallocChecks(h: Heap, ptr: nat, bytes: nat)
    requires Inv(h)
    ensures Step(h, Dealloc(ptr, bytes)).Done? <==>
            && ptr % 4096 == 0 && h.base <= ptr
            && forall i :: PageIndex(h, ptr) <= i < PageIndex(h, ptr) + Pages(bytes) ==> InUse(h, i)
  {
    if h.base <= ptr && Pages(bytes) > 0 {
      var i, n := PageIndex(h, ptr), Pages(bytes);
      assert forall j :: 0 <= j < h.size ==> (MapBits(h)[j] <==> InUse(h, j));
      if forall j :: i <= j < i + n ==> InUse(h, j) {
        assert InUse(h, i + n - 1);
      }
    }
  }

  /** Giving a block back a second time panics. */
  lemma DoubleFreePanics(h: Heap, ptr: nat)
    requires Inv(h) && ptr in h.live
    ensures var bytes := h.live[ptr];
            && Step(h, Dealloc(ptr, bytes)).Done?
            && Step(Step(h, Dealloc(ptr, bytes)).value, Dealloc(ptr, bytes)).Panics?
  {
    var i := PageIndex(h, ptr);
    DeallocSucceeds(h, ptr);
    assert BlockInHeap(h, ptr);
    var h' := Step(h, Dealloc(ptr, h.live[ptr])).value;
    assert MapBits(h)[i] && !h'.raw[i] && MapBits(h')[i] == h'.raw[i];
  }

  // ---------- undo ----------

  /** `alloc` then `dealloc` of the same block restores the heap: every stored bit and every live block. */
  lemma AllocThenDealloc(h: Heap, bytes: nat)
    requires Inv(h) && bytes >= 1 && Step(h, Alloc(bytes)).Done?
    ensures var h' := Step(h, Alloc(bytes)).value;
            exists ptr :: && ptr !in h.live && h'.live == h.live[ptr := bytes]
                          && Step(h', Dealloc(ptr, bytes)) == Done(h)
  {
    var i, ptr := AllocIsFresh(h, bytes);
    var h' := Step(h, Alloc(bytes)).value;
    AllocKeepsInv(h, bytes);
    assert h.base % 4096 == 0 && h'.size <= |h'.raw|;
    hide Inv, FindIn, FlipWindow, Window;
    DeallocSucceeds(h', ptr);
    FlipTwice(h.raw, i, i + Pages(bytes));
    assert PageIndex(h', ptr) == i;
    assert h'.live - {ptr} == h.live;
    assert Step(h', Dealloc(ptr, bytes)) == Done(h);
  }

  /** After a block is given back, a request that needs no more pages succeeds at once, no higher up. */
  lemma DeallocThenAlloc(h: Heap, ptr: nat, bytes: nat)
    requires Inv(h) && ptr in h.live && 1 <= bytes && Pages(bytes) <= Pages(h.live[ptr])
    ensures Step(h, Dealloc(ptr, h.live[ptr])).Done?
    ensures var h' := Step(h, Dealloc(ptr, h.live[ptr])).value;
            && Step(h', Alloc(bytes)).Done?
            && exists ptr': nat :: && ptr' <= ptr && ptr' !in h'.live
                                && Step(h', Alloc(bytes)).value.live == h'.live[ptr' := bytes]
  {
    DeallocKeepsInv(h, ptr);
    DeallocSucceeds(h, ptr);
    assert BlockInHeap(h, ptr);
    var h' := Step(h, Dealloc(ptr, h.live[ptr])).value;
    var i := PageIndex(h, ptr);
    forall j | i <= j < i + Pages(bytes)
      ensures MapBits(h')[j] == false
    {
      assert MapBits(h)[j];
    }
    FindAtMost(MapBits(h'), Pages(bytes), false, i);
    var k, ptr' := AllocIsFresh(h', bytes);
  }

  function Deallocs(h: Heap, order: seq<nat>): seq<Call>
    requires forall p :: p in order ==> p in h.live
  {
    seq(|order|, k requires 0 <= k < |order| => Dealloc(order[k], h.live[order[k]]))
  }

  lemma DropFirst(order: seq<nat>, live: map<nat, nat>)
    requires order != [] && forall p :: p in order <==> p in live
    requires forall k, l :: 0 <= k < l < |order| ==> order[k] != order[l]
    ensures forall p :: p in order[1..] <==> p in live - {order[0]}
  {
  }

  lemma DeallocsTail(h: Heap, order: seq<nat>, h': Heap)
    requires order != [] && forall p :: p in order ==> p in h.live
    requires h'.live == h.live - {order[0]} && forall p :: p in order[1..] ==> p in h'.live
    ensures Deallocs(h, order)[0] == Dealloc(order[0], h.live[order[0]])
    ensures Deallocs(h, order)[1..] == Deallocs(h', order[1..])
  {
  }

  lemma NoBlocksNoBits(h: Heap)
    requires Inv(h) && forall p :: p !in h.live
    ensures h.live == map[] && MapBits(h) == seq(h.size, _ => false)
  {
  }

  /** Giving back all live blocks, in whatever order, never panics and leaves every page free. */
  lemma {:induction false} DeallocAllInAnyOrder(h: Heap, order: seq<nat>)
    requires Inv(h)
    requires forall p :: p in order <==> p in h.live
    requires forall k, l :: 0 <= k < l < |order| ==> order[k] != order[l]
    ensures Respects(h, Deallocs(h, order)) && Run(h, Deallocs(h, order)).Done?
    ensures Run(h, Deallocs(h, order)).value.live == map[]
    ensures Run(h, Deallocs(h, order)).value.size == h.size <= |Run(h, Deallocs(h, order)).value.raw|
    ensures MapBits(Run(h, Deallocs(h, order)).value) == seq(h.size, _ => false)
    decreases |order|
  {
    if order == [] {
      NoBlocksNoBits(h);
    } else {
      var ptr, rest := order[0], order[1..];
      DeallocKeepsInv(h, ptr);
      var h' := Step(h, Dealloc(ptr, h.live[ptr])).value;
      DropFirst(order, h.live);
      DeallocAllInAnyOrder(h', rest);
      DeallocsTail(h, order, h');
    }
  }

  /** A run that begins and ends with nothing live leaves every stored bit, padding included, as it was. */
  lemma RunBackToEmpty(h: Heap, calls: seq<Call>)
    requires Inv(h) && h.live == map[] && Respects(h, calls) && Run(h, calls).Done?
    requires Run(h, calls).value.live == map[]
    ensures Run(h, calls).value == h
  {
    var h' := Run(h, calls).value;
    RunKeepsInv(h, calls);
    RunKeepsLength(h, calls);
    NoBlocksNoBits(h);
    NoBlocksNoBits(h');
    assert h.raw == h.raw[..h.size] + h.raw[h.size..];
    assert h'.raw == h'.raw[..h.size] + h'.raw[h.size..];
  }

  /** The same for the bytes in memory: `d` and `d'` are the bitmap's storage before and after. */
  lemma EveryByteRestored(h: Heap, calls: seq<Call>, d: seq<Byte>, d': seq<Byte>)
    requires Inv(h) && h.live == map[] && Respects(h, calls) && Run(h, calls).Done?
    requires Run(h, calls).value.live == map[]
    requires RawBits(d) == h.raw && RawBits(d') == Run(h, calls).value.raw
    ensures d' == d
  {
    hide Inv, Respects, Run;
    RunBackToEmpty(h, calls);
    assert 8 * |d| == |h.raw| == 8 * |d'|;
    RawBitsInjective(d', d);
  }

  lemma {:induction false} RunKeepsLength(h: Heap, calls: seq<Call>)
    requires h.size <= |h.raw| && Run(h, calls).Done?
    ensures |Run(h, calls).value.raw| == |h.raw|
    decreases |calls|
  {
    if calls != [] {
      RunKeepsLength(Step(h, calls[0]).value, calls[1..]);
    }
  }

  // ---------- conservation ----------

  function CountSet(s: seq<bool>): nat {
    if s == [] then 0 else CountSet(s[..|s| - 1]) + if s[|s| - 1] then 1 else 0
  }

  lemma {:induction false} CountAfterFlip(s: seq<bool>, lo: nat, n: nat, val: bool)
    requires Window(s, lo, n, val)
    ensures CountSet(FlipWindow(s, lo, lo + n)) + (if val then n else 0) == CountSet(s) + (if val then 0 else n)
    decreases |s|
  {
    var t := FlipWindow(s, lo, lo + n);
    if n == 0 {
      assert t == s;
    } else {
      var s', last := s[..|s| - 1], |s| - 1;
      if lo + n == |s| {
        CountAfterFlip(s', lo, n - 1, val);
        assert t[..last] == FlipWindow(s', lo, lo + (n - 1));
      } else {
        CountAfterFlip(s', lo, n, val);
        assert t[..last] == FlipWindow(s', lo, lo + n);
      }
    }
  }

  /** The pages of all live blocks together. */
  ghost function LivePages(live: map<nat, nat>): nat {
    if live == map[] then 0
    else
      var p :| p in live;
      Pages(live[p]) + LivePages(live - {p})
  }

  lemma {:induction false} LivePagesRemove(live: map<nat, nat>, p: nat)
    requires p in live
    ensures LivePages(live) == Pages(live[p]) + LivePages(live - {p})
  {
    var q :| q in live && LivePages(live) == Pages(live[q]) + LivePages(live - {q});
    if q != p {
      LivePagesRemove(live - {q}, p);
      LivePagesRemove(live - {p}, q);
      assert live - {q} - {p} == live - {p} - {q};
    }
  }

  lemma FlipOfPrefix(s: seq<bool>, n: nat, lo: int, hi: int)
    requires n <= |s|
    ensures FlipWindow(s, lo, hi)[..n] == FlipWindow(s[..n], lo, hi)
  {
  }

  lemma AllocCounts(h: Heap, bytes: nat)
    requires h.size <= |h.raw| && bytes >= 1 && Step(h, Alloc(bytes)).Done?
    ensures CountSet(MapBits(Step(h, Alloc(bytes)).value)) == CountSet(MapBits(h)) + Pages(bytes)
  {
    FoundInBounds(MapBits(h), 0, Pages(bytes), false);
    var i := FindIn(MapBits(h), 0, Pages(bytes), false).start;
    FlipOfPrefix(h.raw, h.size, i, i + Pages(bytes));
    CountAfterFlip(MapBits(h), i, Pages(bytes), false);
  }

  lemma AllocAddsPages(h: Heap, bytes: nat)
    requires Inv(h) && bytes >= 1 && Step(h, Alloc(bytes)).Done?
    ensures LivePages(Step(h, Alloc(bytes)).value.live) == LivePages(h.live) + Pages(bytes)
  {
    var i, ptr := AllocIsFresh(h, bytes);
    LivePagesRemove(h.live[ptr := bytes], ptr);
    assert h.live[ptr := bytes] - {ptr} == h.live;
  }

  lemma DeallocConserves(h: Heap, ptr: nat)
    requires h.size <= |h.raw| && ptr in h.live && Step(h, Dealloc(ptr, h.live[ptr])).Done?
    ensures var h' := Step(h, Dealloc(ptr, h.live[ptr])).value;
            && CountSet(MapBits(h')) + Pages(h.live[ptr]) == CountSet(MapBits(h))
            && LivePages(h'.live) + Pages(h.live[ptr]) == LivePages(h.live)
  {
    var h' := Step(h, Dealloc(ptr, h.live[ptr])).value;
    var i := PageIndex(h, ptr);
    FlipOfPrefix(h.raw, h.size, i, i + Pages(h.live[ptr]));
    if Pages(h.live[ptr]) > 0 {
      CountAfterFlip(MapBits(h), i, Pages(h.live[ptr]), true);
    } else {
      assert MapBits(h') == MapBits(h);
    }
    LivePagesRemove(h.live, ptr);
  }

  /** Over every run the number of marked pages is the number of pages of live blocks. */
  lemma {:induction false} RunConserves(h: Heap, calls: seq<Call>)
    requires Inv(h) && Respects(h, calls) && Run(h, calls).Done?
    requires CountSet(MapBits(h)) == LivePages(h.live)
    ensures Run(h, calls).value.size <= |Run(h, calls).value.raw|
    ensures CountSet(MapBits(Run(h, calls).value)) == LivePages(Run(h, calls).value.live)
    decreases |calls|
  {
    if calls != [] {
      StepKeepsInv(h, calls[0]);
      match calls[0] {
        case Alloc(bytes) =>
          AllocCounts(h, bytes);
          AllocAddsPages(h, bytes);
        case Dealloc(ptr, bytes) =>
          DeallocConserves(h, ptr);
      }
      RunConserves(Step(h, calls[0]).value, calls[1..]);
    }
  }

  lemma {:induction false} NothingSet(s: seq<bool>)
    requires forall i :: 0 <= i < |s| ==> !s[i]
    ensures CountSet(s) == 0
  {
    if s != [] {
      NothingSet(s[..|s| - 1]);
    }
  }

  // ---------- the allocator object ----------

  /** The heap as `PageAllocator::default` leaves it for a memory of `memSize` bytes. */
  predicate BootHeap(h: Heap, memSize: nat) {
    && h.base == BaseAddr(memSize) && h.size == ManagedPages(memSize) <= |h.raw|
    && h.live == map[] && MapBits(h) == seq(h.size, _ => false)
  }

  /** The 32-bit pointer for a heap address: adding the offset of the block to the base may overflow. */
  function PointerTo(profile: Profile, addr: nat): Outcome<nat>
    requires addr < 2 * U32_LIMIT
  {
    if addr < U32_LIMIT then Done(addr) else if profile.Debug? then Panics else Done(addr - U32_LIMIT)
  }

  /** The heap address that a pointer stands for; a pointer below the base has wrapped. */
  function AddressOf(base: nat, ptr: Word): nat {
    if base <= ptr then ptr else ptr + U32_LIMIT
  }

  /** Pointers and heap addresses are in step over the whole 4 GiB from the base. */
  lemma PointerRoundTrip(profile: Profile, base: nat, addr: nat)
    requires base < U32_LIMIT && base <= addr < base + U32_LIMIT
    ensures PointerTo(profile, addr).Done? ==>
              PointerTo(profile, addr).value < U32_LIMIT && AddressOf(base, PointerTo(profile, addr).value) == addr
  {
  }

  /** The offset that `free_page` computes from a pointer is that of the heap address it stands for. */
  lemma PointerOffset(profile: Profile, base: nat, ptr: Word)
    requires base < U32_LIMIT && base % 4096 == 0
    ensures base <= AddressOf(base, ptr) && AddressOf(base, ptr) % 4096 == ptr % 4096
    ensures Sub(profile, U32_LIMIT, ptr, base) ==
            if profile.Release? || base <= ptr then Done(AddressOf(base, ptr) - base) else Panics
  {
  }

  /** A live pointer is aligned and, as an offset, that of its block. */
  lemma LivePointer(profile: Profile, h: Heap, ptr: Word)
    requires Inv(h) && h.base < U32_LIMIT && AddressOf(h.base, ptr) in h.live
    ensures ptr % 4096 == 0 && h.base <= AddressOf(h.base, ptr)
    ensures Sub(profile, U32_LIMIT, ptr, h.base) ==
            if profile.Release? || h.base <= ptr then Done(AddressOf(h.base, ptr) - h.base) else Panics
  {
    assert BlockInHeap(h, AddressOf(h.base, ptr));
  }

  class KernelHeap {
    const pages: PageAllocator
    ghost var live: map<nat, nat>

    ghost function View(): Heap
      reads this, pages.bitmap.data
    {
      Heap(pages.base, pages.bitmap.size, pages.bitmap.Raw(), live)
    }

    ghost predicate Valid()
      reads this, pages.bitmap.data
    {
      pages.Valid() && Inv(View())
    }

    constructor (memSize: Word, storage: array<Byte>)
      requires storage.Length == BitmapPages(memSize) * 4096
      modifies storage
      ensures Valid() && BootHeap(View(), memSize)
      ensures CountSet(MapBits(View())) == LivePages(live)
    {
      pages := new PageAllocator(memSize, storage);
      live := map[];
      new;
      FreshHeapInv(View());
      NothingSet(MapBits(View()));
    }

    /** `Allocator::alloc`; a `Layout` has at most `isize::MAX` bytes, so rounding up cannot overflow. It panics
        when no run of pages fits, leaving the heap alone, and in a debug build when the block starts beyond the
        32-bit address space, with the pages already taken. */
    method Alloc(profile: Profile, bytes: nat) returns (r: Outcome<Word>)
      requires Valid()
      requires 1 <= bytes < 0x8000_0000
      modifies this, pages.bitmap.data
      ensures match Step(old(View()), Call.Alloc(bytes))
              case Panics => r.Panics? && View() == old(View())
              case Done(h') =>
                exists addr :: && pages.base <= addr < pages.base + U32_LIMIT && addr !in old(live)
                               && h'.live == old(live)[addr := bytes]
                               && r == PointerTo(profile, addr)
      ensures r.Done? ==> Valid() && Done(View()) == Step(old(View()), Call.Alloc(bytes))
    {
      hide Inv, FlipWindow, FindIn, Pages, RawBits;
      ghost var h := View();
      assert pages.bitmap.Bits() == MapBits(h);
      ghost var step := Step(h, Call.Alloc(bytes));
      ghost var addr := 0;
      if step.Done? {
        FoundInBounds(MapBits(h), 0, Pages(bytes), false);
        ghost var i, start := AllocIsFresh(h, bytes);
        addr := start;
        assert step.value == h.(raw := FlipWindow(h.raw, i, i + Pages(bytes)), live := h.live[addr := bytes]);
      }
      var got := pages.GetPage(profile, Pages(bytes));
      assert step.Panics? ==> pages.bitmap.Raw() == h.raw;
      if got.Panics? || got.value.None? {
        return Panics;
      }
      live := live[addr := bytes];
      assert View() == step.value;
      AllocKeepsInv(h, bytes);
      r := Done(got.value.value);
    }

    /** `Allocator::dealloc` of any pointer: it takes the machine's step, except for a wrapped pointer in a debug
        build, which such a build never hands out. For a live block the step always succeeds. */
    method Dealloc(profile: Profile, ptr: Word, bytes: nat) returns (r: Outcome<()>)
      requires Valid()
      modifies this, pages.bitmap.data
      ensures var addr, h := AddressOf(pages.base, ptr), old(View());
              && (r.Done? <==> (profile.Release? || pages.base <= ptr) && Step(h, Call.Dealloc(addr, bytes)).Done?)
              && (r.Done? ==> Done(View()) == Step(h, Call.Dealloc(addr, bytes)))
              && (Allowed(h, Call.Dealloc(addr, bytes)) ==>
                    Valid() && (r.Done? <==> profile.Release? || pages.base <= ptr))
      ensures r.Panics? ==> View() == old(View())
    {
      hide Inv, FlipWindow, Window, Pages, RawBits, BlockEnd;
      ghost var h := View();
      ghost var addr := AddressOf(pages.base, ptr);
      PointerOffset(profile, h.base, ptr);
      if addr in h.live && h.live[addr] == bytes {
        DeallocKeepsInv(h, addr);
        DeallocSucceeds(h, addr);
        LivePointer(profile, h, ptr);
      }
      assert pages.bitmap.Bits() == MapBits(h);
      r := pages.FreePage(profile, ptr, Pages(bytes));
      if r.Panics? {
        assert pages.bitmap.Raw() == h.raw;
        return;
      }
      live := live - {addr};
      assert View() == Step(h, Call.Dealloc(addr, bytes)).value;
    }
  }
}
