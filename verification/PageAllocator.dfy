/**
 `PageAllocator` of `kernel/src/mm/page.rs`: it carves its bitmap out of the memory it manages,
 hands out runs of pages first-fit and takes them back.
 */
module PageAllocators {
  import opened Machine
  import opened BitMaps

  /** Where the managed memory, bitmap included, starts in the kernel's address space. */
  const HEAP_START: nat := 0xc0100000

  function PageCount(memSize: nat): nat {
    memSize / 4096
  }

  function BitmapPages(memSize: nat): nat {
    ((PageCount(memSize) + 7) / 8 + 4095) / 4096
  }

  /** The pages left for allocation; the subtraction never underflows. */
  function ManagedPages(memSize: nat): nat {
    PageCount(memSize) - BitmapPages(memSize)
  }

  function BaseAddr(memSize: nat): nat {
    HEAP_START + BitmapPages(memSize) * 4096
  }

  /** The carving: the bitmap's own pages come first and hold a bit for every managed page, the managed
      pages follow without a gap, and together they are all the whole pages of the memory. A page of the bitmap
      stands for 0x8000 pages, and there are no more of them than needed. */
  lemma CarvingTiles(memSize: nat)
    ensures 4096 * PageCount(memSize) <= memSize < 4096 * PageCount(memSize) + 4096
    ensures 0x8000 * (BitmapPages(memSize) - 1) < PageCount(memSize) <= 0x8000 * BitmapPages(memSize)
    ensures BaseAddr(memSize) == 0xc0100000 + 4096 * BitmapPages(memSize)
    ensures (ManagedPages(memSize) + 7) / 8 <= BitmapPages(memSize) * 4096
    ensures BaseAddr(memSize) + ManagedPages(memSize) * 4096 == HEAP_START + PageCount(memSize) * 4096
    ensures BaseAddr(memSize) <= BaseAddr(memSize) + ManagedPages(memSize) * 4096 <= HEAP_START + memSize
    ensures BaseAddr(memSize) % 4096 == 0
    ensures PageCount(memSize) > 0 ==> BitmapPages(memSize) > 0
  {
  }

  lemma FoundInBounds(s: seq<bool>, start: nat, len: nat, val: bool)
    requires FindIn(s, start, len, val).Found?
    ensures FindIn(s, start, len, val).start < |s|
    ensures len == 0 || Window(s, FindIn(s, start, len, val).start, len, val)
    decreases |s| - start
  {
    if len >= 1 {
      FindExact(s, start, len, val);
      assert FindIn(s, start, len, val) == Found(FindIn(s, start, len, val).start);
    } else {
      assert start < |s|;
    }
  }

  class PageAllocator {
    const bitmap: BitMap
    const base: nat

    /** Page numbers fit a 32-bit byte offset; whether `base` plus such an offset is still an address is
        another matter, and a checked addition below. */
    ghost predicate Valid() {
      && bitmap.Valid()
      && base < U32_LIMIT && base % 4096 == 0
      && 4096 * bitmap.size <= U32_LIMIT
    }

    /** `PageAllocator::default`, given the memory size it measured and the memory at `HEAP_START`. */
    constructor (memSize: Word, storage: array<Byte>)
      requires storage.Length == BitmapPages(memSize) * 4096
      modifies storage
      ensures Valid() && bitmap.data == storage
      ensures bitmap.size == ManagedPages(memSize) && base == BaseAddr(memSize)
      ensures bitmap.Bits() == seq(ManagedPages(memSize), _ => false)
    {
      CarvingTiles(memSize);
      bitmap := new BitMap(storage, ManagedPages(memSize));
      base := BaseAddr(memSize);
    }

    /** The first fitting run is marked before its address is computed, so an address that does not fit 32
        bits panics in a debug build, or wraps in a release build, with the run already taken. */
    method GetPage(profile: Profile, cnt: nat) returns (r: Outcome<Option<Word>>)
      requires Valid()
      modifies bitmap.data
      ensures match FindIn(old(bitmap.Bits()), 0, cnt, false)
              case Found(i) =>
                && bitmap.Raw() == FlipWindow(old(bitmap.Raw()), i, i + cnt)
                && 4096 * i < U32_LIMIT
                && (match Add(profile, U32_LIMIT, base, 4096 * i)
                    case Done(addr) => r == Done(Some(addr))
                    case Panics => r == Panics)
              case NotFound => r == Done(None) && bitmap.data[..] == old(bitmap.data[..])
              case AssertFails => r == Panics && bitmap.data[..] == old(bitmap.data[..])
    {
      var found := bitmap.Find(0, cnt, false);
      if found.AssertFails? {
        return Panics;
      }
      if found.NotFound? {
        return Done(None);
      }
      FoundInBounds(bitmap.Bits(), 0, cnt, false);
      var flipped := bitmap.Flips(found.start, cnt);
      var addr := Add(profile, U32_LIMIT, base, 4096 * found.start);
      if addr.Panics? {
        return Panics;
      }
      r := Done(Some(addr.value));
    }

    /** Frees a run of pages. It succeeds, and clears exactly that run, precisely when the pointer is
        page-aligned, its offset from the base can be computed and the whole run is marked; every other call
        panics and changes nothing. */
    method FreePage(profile: Profile, page: Word, cnt: nat) returns (r: Outcome<()>)
      requires Valid()
      modifies bitmap.data
      ensures var offset := Sub(profile, U32_LIMIT, page, base);
              && (r.Done? <==> && page % 4096 == 0 && offset.Done?
                               && (cnt == 0 || Window(old(bitmap.Bits()), offset.value / 4096, cnt, true)))
              && (r.Done? ==> var i := offset.value / 4096;
                              bitmap.Raw() == FlipWindow(old(bitmap.Raw()), i, i + cnt))
      ensures r.Panics? ==> bitmap.data[..] == old(bitmap.data[..])
    {
      if page % 4096 != 0 {
        return Panics;
      }
      var offset := Sub(profile, U32_LIMIT, page, base);
      if offset.Panics? {
        return Panics;
      }
      var pidx := offset.value / 4096;
      var marked := bitmap.All(pidx, cnt);
      if marked != Done(true) {
        return Panics;
      }
      r := bitmap.Flips(pidx, cnt);
    }
  }
}
