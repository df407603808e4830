/**
 The firmware memory map and `available_mem_size` (`kernel/src/mm/mod.rs`), measured against
 the set of addresses that the map actually describes as usable.
 */
module MemoryMap {
  import opened Machine

  datatype Kind = Usable | Reserved | AcpiReclaimable | AcpiNvs | BadMemory

  type U64 = x: nat | x < 0x1_0000_0000_0000_0000

  datatype MemLayout = MemLayout(addr: U64, len: U64, kind: Kind)

  const HIGH_MEMORY: nat := 0x100000

  /** The entries that the size loop looks at. */
  predicate Counted(e: MemLayout) {
    e.kind.Usable? && e.addr >= HIGH_MEMORY
  }

  predicate InInterval(x: nat, a: nat, b: nat) {
    a <= x < b
  }

  /** The addresses from `a` up to but not including `b`. */
  function Interval(a: nat, b: nat): (s: set<nat>)
    ensures forall x: nat :: x in s <==> a <= x < b
  {
    set x: nat | 0 <= x < b && InInterval(x, a, b)
  }

  /** The reference notion: every address that some usable entry at or above 1 MiB describes. */
  function UsableHigh(regions: seq<MemLayout>): set<nat> {
    if regions == [] then {}
    else
      var e := regions[|regions| - 1];
      UsableHigh(regions[..|regions| - 1]) + (if Counted(e) then Interval(e.addr, e.addr + e.len) else {})
  }

  /** What the map says, entry by entry: usable RAM is type 1 memory that starts at 1 MiB or above. */
  lemma {:induction false} UsableHighMeaning(regions: seq<MemLayout>, a: nat)
    ensures a in UsableHigh(regions) <==>
            exists i :: && 0 <= i < |regions| && regions[i].kind == Usable
                        && 0x100000 <= regions[i].addr <= a < regions[i].addr + regions[i].len
  {
    if regions != [] {
      var before := regions[..|regions| - 1];
      UsableHighMeaning(before, a);
      assert forall i :: 0 <= i < |before| ==> before[i] == regions[i];
    }
  }

  // ---------- the loop ----------

  datatype Scan = Scan(lastEnd: U64, size: U64)

  /** One iteration of the loop, in 64-bit arithmetic. */
  function Visit(profile: Profile, s: Scan, e: MemLayout): Outcome<Scan> {
    if !Counted(e) then Done(s)
    else
      var lastEnd := if e.addr > s.lastEnd then e.addr else s.lastEnd;
      var thisEnd :- Add(profile, U64_LIMIT, e.addr, e.len);
      var added :- Sub(profile, U64_LIMIT, thisEnd, lastEnd);
      var size :- Add(profile, U64_LIMIT, s.size, added);
      Done(Scan(thisEnd, size))
  }

  function ScanAll(profile: Profile, regions: seq<MemLayout>): Outcome<Scan> {
    if regions == [] then Done(Scan(0, 0))
    else
      var s :- ScanAll(profile, regions[..|regions| - 1]);
      Visit(profile, s, regions[|regions| - 1])
  }

  lemma {:induction false} PanicIsFinal(profile: Profile, regions: seq<MemLayout>, i: nat)
    requires i <= |regions| && ScanAll(profile, regions[..i]).Panics?
    ensures ScanAll(profile, regions).Panics?
    decreases |regions| - i
  {
    if i == |regions| {
      assert regions[..i] == regions;
    } else {
      assert regions[..i + 1][..i] == regions[..i];
      PanicIsFinal(profile, regions, i + 1);
    }
  }

  method AvailableMemSize(profile: Profile, regions: seq<MemLayout>) returns (r: Outcome<U64>)
    ensures r.Done? <==> ScanAll(profile, regions).Done?
    ensures r.Done? ==> r.value == ScanAll(profile, regions).value.size
    ensures EndsInOrder(regions) ==>
              && r.Done? && r.value <= |UsableHigh(regions)|
              && (r.value == |UsableHigh(regions)| <==> NoLateGap(regions))
    ensures profile.Debug? ==> (r.Done? <==> EndsInOrder(regions))
    ensures profile.Release? ==>
              && r.Done?
              && (r.value == |UsableHigh(regions)| <==>
                  |UsableHigh(regions)| < U64_LIMIT && SkipsTheUnusable(regions))
  {
    hide UsableHigh, EndsInOrder, NoLateGap, SkipsTheUnusable;
    ScanExact(profile, regions);
    var lastEnd: U64, size: U64 := 0, 0;
    for i := 0 to |regions|
      invariant ScanAll(profile, regions[..i]) == Done(Scan(lastEnd, size))
    {
      assert regions[..i + 1][..i] == regions[..i];
      var e := regions[i];
      if Counted(e) {
        if e.addr > lastEnd {
          lastEnd := e.addr;
        }
        var thisEnd := Add(profile, U64_LIMIT, e.addr, e.len);
        if thisEnd.Panics? {
          PanicIsFinal(profile, regions, i + 1);
          return Panics;
        }
        var added := Sub(profile, U64_LIMIT, thisEnd.value, lastEnd);
        if added.Panics? {
          PanicIsFinal(profile, regions, i + 1);
          return Panics;
        }
        var sum := Add(profile, U64_LIMIT, size, added.value);
        if sum.Panics? {
          PanicIsFinal(profile, regions, i + 1);
          return Panics;
        }
        size := sum.value;
        lastEnd := thisEnd.value;
      }
    }
    assert regions[..|regions|] == regions;
    r := Done(size);
  }

  // ---------- when the loop is right ----------

  /** Where the last counted entry ended. */
  function LastEnd(regions: seq<MemLayout>): nat {
    if regions == [] then 0
    else
      var e := regions[|regions| - 1];
      if Counted(e) then e.addr + e.len else LastEnd(regions[..|regions| - 1])
  }

  /** No counted entry wraps the address space or ends before the one counted before it. */
  predicate EndsInOrder(regions: seq<MemLayout>) {
    regions != [] ==>
      var before, e := regions[..|regions| - 1], regions[|regions| - 1];
      && EndsInOrder(before)
      && (Counted(e) ==> LastEnd(before) <= e.addr + e.len < U64_LIMIT)
  }

  /** A counted entry reaches below the end of its predecessor only over addresses already described. */
  predicate NoLateGap(regions: seq<MemLayout>) {
    regions != [] ==>
      var before, e := regions[..|regions| - 1], regions[|regions| - 1];
      && NoLateGap(before)
      && (Counted(e) ==> Interval(e.addr, LastEnd(before)) <= UsableHigh(before))
  }

  function Max(a: nat, b: nat): nat {
    if a > b then a else b
  }

  /** The addresses that the loop adds up. */
  function Summed(regions: seq<MemLayout>): set<nat> {
    if regions == [] then {}
    else
      var before, e := regions[..|regions| - 1], regions[|regions| - 1];
      Summed(before) + if Counted(e) then Interval(Max(e.addr, LastEnd(before)), e.addr + e.len) else {}
  }

  lemma {:induction false} IntervalSize(a: nat, b: nat)
    requires a <= b
    ensures |Interval(a, b)| == b - a
  {
    if a < b {
      IntervalSize(a, b - 1);
      assert Interval(a, b) == Interval(a, b - 1) + {b - 1};
    } else {
      assert Interval(a, b) == {};
    }
  }

  lemma {:induction false} SubsetSize<T>(a: set<T>, b: set<T>)
    requires a <= b
    ensures |a| <= |b|
    ensures |a| == |b| <==> a == b
  {
    assert b == a + (b - a);
    assert |b| == |a| + |b - a|;
  }

  lemma {:induction false} SummedBounds(regions: seq<MemLayout>)
    requires EndsInOrder(regions)
    ensures Summed(regions) <= UsableHigh(regions)
    ensures forall a :: a in UsableHigh(regions) ==> HIGH_MEMORY <= a < LastEnd(regions)
  {
    if regions != [] {
      SummedBounds(regions[..|regions| - 1]);
    }
  }

  lemma {:induction false} UsableIsHigh(regions: seq<MemLayout>)
    ensures forall a :: a in UsableHigh(regions) ==> HIGH_MEMORY <= a
  {
    if regions != [] {
      UsableIsHigh(regions[..|regions| - 1]);
    }
  }

  lemma {:induction false} SummedIsAllIffNoLateGap(regions: seq<MemLayout>)
    requires EndsInOrder(regions)
    ensures Summed(regions) == UsableHigh(regions) <==> NoLateGap(regions)
  {
    if regions != [] {
      var before, e := regions[..|regions| - 1], regions[|regions| - 1];
      SummedIsAllIffNoLateGap(before);
      SummedBounds(before);
      if Counted(e) {
        var added := Interval(Max(e.addr, LastEnd(before)), e.addr + e.len);
        var late := Interval(e.addr, LastEnd(before));
        assert forall a :: a in Summed(before) ==> a < LastEnd(before);
        assert UsableHigh(regions) == UsableHigh(before) + late + added;
        assert added !! UsableHigh(before) + late;
        assert Summed(regions) == UsableHigh(regions) <==> Summed(before) == UsableHigh(before) + late;
      }
    }
  }

  lemma VisitInOrder(profile: Profile, s: Scan, e: MemLayout)
    requires Counted(e) && s.size <= s.lastEnd <= e.addr + e.len < U64_LIMIT
    ensures Visit(profile, s, e) ==
            Done(Scan(e.addr + e.len, s.size + (e.addr + e.len - Max(e.addr, s.lastEnd))))
  {
  }

  /** The sum that the loop computes, without overflow. */
  function Total(regions: seq<MemLayout>): int {
    if regions == [] then 0
    else
      var before, e := regions[..|regions| - 1], regions[|regions| - 1];
      Total(before) + if Counted(e) then e.addr + e.len - Max(e.addr, LastEnd(before)) else 0
  }

  lemma {:induction false} ScanIsTotal(profile: Profile, regions: seq<MemLayout>)
    requires EndsInOrder(regions)
    ensures 0 <= Total(regions) <= LastEnd(regions) < U64_LIMIT
    ensures ScanAll(profile, regions) == Done(Scan(LastEnd(regions), Total(regions)))
  {
    if regions != [] {
      var before, e := regions[..|regions| - 1], regions[|regions| - 1];
      ScanIsTotal(profile, before);
      if Counted(e) {
        VisitInOrder(profile, Scan(LastEnd(before), Total(before)), e);
      }
    }
  }

  lemma AddInterval(s: set<nat>, a: nat, b: nat)
    requires a <= b && forall x :: x in s ==> x < a
    ensures |s + Interval(a, b)| == |s| + (b - a)
  {
    IntervalSize(a, b);
    assert s !! Interval(a, b);
  }

  lemma {:induction false} SummedBelow(regions: seq<MemLayout>)
    requires EndsInOrder(regions)
    ensures forall a :: a in Summed(regions) ==> a < LastEnd(regions)
  {
    if regions != [] {
      SummedBelow(regions[..|regions| - 1]);
    }
  }

  lemma {:induction false} SummedIsTotal(regions: seq<MemLayout>)
    requires EndsInOrder(regions)
    ensures |Summed(regions)| == Total(regions)
  {
    if regions != [] {
      var before, e := regions[..|regions| - 1], regions[|regions| - 1];
      SummedIsTotal(before);
      if Counted(e) {
        var start, end := Max(e.addr, LastEnd(before)), e.addr + e.len;
        assert Summed(regions) == Summed(before) + Interval(start, end);
        SummedBelow(before);
        AddInterval(Summed(before), start, end);
      } else {
        assert Summed(regions) == Summed(before);
      }
    }
  }

  lemma {:induction false} DebugPanicsOtherwise(regions: seq<MemLayout>)
    requires !EndsInOrder(regions)
    ensures ScanAll(Debug, regions).Panics?
  {
    var before := regions[..|regions| - 1];
    if EndsInOrder(before) {
      ScanIsTotal(Debug, before);
    } else {
      DebugPanicsOtherwise(before);
    }
  }

  /** Both profiles: on maps whose ends are in order the loop counts overlaps once, never counts too
      much, and counts everything exactly when no later entry fills a gap it has already passed.
      A debug build panics on every other map; a release build has its own exact condition on every map. */
  lemma ScanExact(profile: Profile, regions: seq<MemLayout>)
    ensures EndsInOrder(regions) ==>
              && ScanAll(profile, regions).Done?
              && ScanAll(profile, regions).value.size <= |UsableHigh(regions)|
              && (ScanAll(profile, regions).value.size == |UsableHigh(regions)| <==> NoLateGap(regions))
    ensures profile.Debug? ==> (ScanAll(profile, regions).Done? <==> EndsInOrder(regions))
    ensures profile.Release? ==>
              && ScanAll(profile, regions).Done?
              && (ScanAll(profile, regions).value.size == |UsableHigh(regions)| <==>
                  |UsableHigh(regions)| < U64_LIMIT && SkipsTheUnusable(regions))
  {
    ReleaseExact(regions);
    if EndsInOrder(regions) {
      ScanIsTotal(profile, regions);
      SummedIsTotal(regions);
      SummedBounds(regions);
      SummedIsAllIffNoLateGap(regions);
      SubsetSize(Summed(regions), UsableHigh(regions));
    } else {
      DebugPanicsOtherwise(regions);
    }
  }

  // ---------- release builds, on every map ----------

  /** Where a release build takes the last counted entry to end: its end wraps at 2^64. */
  function WrapEnd(regions: seq<MemLayout>): U64 {
    if regions == [] then 0
    else
      var e := regions[|regions| - 1];
      if Counted(e) then (e.addr + e.len) % U64_LIMIT else WrapEnd(regions[..|regions| - 1])
  }

  /** The addresses the loop jumps over: how far each counted entry starts beyond the end before it. */
  function Skipped(regions: seq<MemLayout>): nat {
    if regions == [] then 0
    else
      var before, e := regions[..|regions| - 1], regions[|regions| - 1];
      Skipped(before) + if Counted(e) && e.addr > WrapEnd(before) then e.addr - WrapEnd(before) else 0
  }

  /** One iteration in a release build. */
  lemma VisitRelease(s: Scan, e: MemLayout)
    requires Counted(e)
    ensures var end := (e.addr + e.len) % U64_LIMIT;
            Visit(Release, s, e) == Done(Scan(end, (s.size + end - Max(e.addr, s.lastEnd)) % U64_LIMIT))
  {
  }

  lemma AddModulo(x: int, d: int)
    ensures (x % U64_LIMIT + d) % U64_LIMIT == (x + d) % U64_LIMIT
  {
  }

  /** One iteration on a sum of this form. */
  lemma VisitEndMinusSkipped(last: U64, skipped: nat, e: MemLayout)
    requires Counted(e)
    ensures var end := (e.addr + e.len) % U64_LIMIT;
            var jump := if e.addr > last then e.addr - last else 0;
            Visit(Release, Scan(last, (last - skipped) % U64_LIMIT), e)
            == Done(Scan(end, (end - (skipped + jump)) % U64_LIMIT))
  {
    hide Visit;
    VisitRelease(Scan(last, (last - skipped) % U64_LIMIT), e);
    AddModulo(last - skipped, (e.addr + e.len) % U64_LIMIT - Max(e.addr, last));
  }

  /** A release build always yields the last end minus what was skipped, modulo 2^64. */
  lemma {:induction false} ReleaseIsEndMinusSkipped(regions: seq<MemLayout>)
    ensures ScanAll(Release, regions) ==
            Done(Scan(WrapEnd(regions), (WrapEnd(regions) - Skipped(regions)) % U64_LIMIT))
  {
    if regions != [] {
      var before, e := regions[..|regions| - 1], regions[|regions| - 1];
      ReleaseIsEndMinusSkipped(before);
      if Counted(e) {
        hide Visit;
        VisitEndMinusSkipped(WrapEnd(before), Skipped(before), e);
      }
    }
  }

  /** The addresses below `n` that are not usable, and the usable ones from `n` on. */
  function UnusableBelow(usable: set<nat>, n: nat): set<nat> {
    Interval(0, n) - usable
  }

  function UsableFrom(usable: set<nat>, n: nat): set<nat> {
    usable - Interval(0, n)
  }

  lemma CountAround(usable: set<nat>, n: nat)
    ensures |usable| == n - |UnusableBelow(usable, n)| + |UsableFrom(usable, n)|
  {
    var low := Interval(0, n);
    IntervalSize(0, n);
    assert |usable| == |usable * low| + |usable - low| by {
      assert usable == (usable * low) + (usable - low);
    }
    assert |low| == |usable * low| + |low - usable| by {
      assert low == (usable * low) + (low - usable);
    }
  }

  /** When a release build is right, for every map: what it skipped has to make up for the unusable
      addresses below the last end, less the usable ones from there on, modulo 2^64. */
  predicate SkipsTheUnusable(regions: seq<MemLayout>) {
    var usable, end := UsableHigh(regions), WrapEnd(regions);
    (Skipped(regions) - (|UnusableBelow(usable, end)| - |UsableFrom(usable, end)|)) % U64_LIMIT == 0
  }

  lemma SameModulo(a: int, b: nat)
    ensures a % U64_LIMIT == b <==> b < U64_LIMIT && (b - a) % U64_LIMIT == 0
  {
  }

  /** A release build never panics, and counts the usable addresses exactly under that condition (a count of
      2^64 or more does not fit its result). */
  lemma ReleaseExact(regions: seq<MemLayout>)
    ensures ScanAll(Release, regions).Done?
    ensures ScanAll(Release, regions).value.size == |UsableHigh(regions)| <==>
            |UsableHigh(regions)| < U64_LIMIT && SkipsTheUnusable(regions)
  {
    hide UsableHigh, WrapEnd, Skipped, ScanAll, UnusableBelow, UsableFrom;
    ReleaseIsEndMinusSkipped(regions);
    CountAround(UsableHigh(regions), WrapEnd(regions));
    SameModulo(WrapEnd(regions) - Skipped(regions), |UsableHigh(regions)|);
  }

  /** The condition of the debug build is too strong for a release build: here a nested entry makes the ends
      go backwards, and a later entry makes up for it. */
  lemma ReleaseCanBeRightOutOfOrder(regions: seq<MemLayout>)
    requires regions == [MemLayout(0x100000, 0x900000, Usable), MemLayout(0x200000, 0x100000, Usable),
                         MemLayout(0x300000, 0x700000, Usable)]
    ensures !EndsInOrder(regions)
    ensures ScanAll(Debug, regions).Panics?
    ensures ScanAll(Release, regions) == Done(Scan(0xA00000, 0x900000))
    ensures |UsableHigh(regions)| == 0x900000
  {
    var two, one := regions[..2], regions[..2][..1];
    assert one == [regions[0]] && one[..0] == [];
    assert two[1] == regions[1] && regions[..2] == two;
    assert UsableHigh(one) == Interval(0x100000, 0xA00000);
    assert UsableHigh(two) == Interval(0x100000, 0xA00000);
    assert UsableHigh(regions) == Interval(0x100000, 0xA00000);
    IntervalSize(0x100000, 0xA00000);
    assert LastEnd(one) == 0xA00000;
    assert !EndsInOrder(two);
    DebugPanicsOtherwise(regions);
    assert ScanAll(Release, one) == Done(Scan(0xA00000, 0x900000));
    assert ScanAll(Release, two) == Done(Scan(0x300000, 0x200000));
  }

  /** A map sorted by start address leaves no late gap. */
  predicate StartsInOrder(regions: seq<MemLayout>) {
    forall i, j :: 0 <= i < j < |regions| && Counted(regions[i]) && Counted(regions[j]) ==>
                     regions[i].addr <= regions[j].addr
  }

  lemma {:induction false} LastEntryCovers(regions: seq<MemLayout>, addr: nat)
    requires forall i :: 0 <= i < |regions| && Counted(regions[i]) ==> regions[i].addr <= addr
    ensures Interval(addr, LastEnd(regions)) <= UsableHigh(regions)
  {
    if regions != [] {
      LastEntryCovers(regions[..|regions| - 1], addr);
    }
  }

  lemma {:induction false} SortedMapsHaveNoLateGap(regions: seq<MemLayout>)
    requires StartsInOrder(regions)
    ensures NoLateGap(regions)
  {
    if regions != [] {
      var before, e := regions[..|regions| - 1], regions[|regions| - 1];
      SortedMapsHaveNoLateGap(before);
      if Counted(e) {
        LastEntryCovers(before, e.addr);
      }
    }
  }

  /** Two maps on which the count is wrong: a nested entry panics in a debug build and undercounts in a
      release build, and an entry listed out of order is missed below the previous end. */
  lemma SizeCanBeWrong()
    ensures var nested := [MemLayout(0x100000, 0x900000, Usable), MemLayout(0x200000, 0x100000, Usable)];
            && ScanAll(Debug, nested).Panics?
            && ScanAll(Release, nested) == Done(Scan(0x300000, 0x200000))
            && UsableHigh(nested) == Interval(0x100000, 0xA00000)
    ensures var late := [MemLayout(0x500000, 0x100000, Usable), MemLayout(0x100000, 0x600000, Usable)];
            forall profile :: ScanAll(profile, late) == Done(Scan(0x700000, 0x200000))
    ensures var late := [MemLayout(0x500000, 0x100000, Usable), MemLayout(0x100000, 0x600000, Usable)];
            |UsableHigh(late)| == 0x600000
  {
    var nested := [MemLayout(0x100000, 0x900000, Usable), MemLayout(0x200000, 0x100000, Usable)];
    assert nested[..1] == [nested[0]] && nested[..1][..0] == [];
    assert ScanAll(Release, nested[..1]) == Done(Scan(0xA00000, 0x900000));
    assert ScanAll(Debug, nested[..1]) == Done(Scan(0xA00000, 0x900000));
    assert UsableHigh(nested[..1]) == Interval(0x100000, 0xA00000);
    var late := [MemLayout(0x500000, 0x100000, Usable), MemLayout(0x100000, 0x600000, Usable)];
    assert late[..1] == [late[0]] && late[..1][..0] == [];
    forall profile
      ensures ScanAll(profile, late) == Done(Scan(0x700000, 0x200000))
    {
      assert ScanAll(profile, late[..1]) == Done(Scan(0x600000, 0x100000));
    }
    assert UsableHigh(late[..1]) == Interval(0x500000, 0x600000);
    assert UsableHigh(late) == Interval(0x100000, 0x700000);
    IntervalSize(0x100000, 0x700000);
  }

  // ---------- holes ----------

  predicate NoHole(usable: set<nat>) {
    forall a, b :: a in usable && b in Interval(HIGH_MEMORY, a) ==> b in usable
  }

  /** Usable memory of a given size fills the addresses from 1 MiB up exactly when it has no hole. */
  lemma FillsFromOneMegIffNoHole(usable: set<nat>)
    requires forall a :: a in usable ==> HIGH_MEMORY <= a
    ensures Interval(HIGH_MEMORY, HIGH_MEMORY + |usable|) <= usable <==> NoHole(usable)
    ensures NoHole(usable) ==> usable == Interval(HIGH_MEMORY, HIGH_MEMORY + |usable|)
  {
    var block := Interval(HIGH_MEMORY, HIGH_MEMORY + |usable|);
    IntervalSize(HIGH_MEMORY, HIGH_MEMORY + |usable|);
    if block <= usable {
      SubsetSize(block, usable);
    }
    if NoHole(usable) {
      forall x | x in block
        ensures x in usable
      {
        if x !in usable {
          forall a | a in usable
            ensures a in Interval(HIGH_MEMORY, x)
          {
            assert x !in Interval(HIGH_MEMORY, a);
          }
          IntervalSize(HIGH_MEMORY, x);
          SubsetSize(usable, Interval(HIGH_MEMORY, x));
        }
      }
      SubsetSize(block, usable);
    }
  }

  /** The usable addresses that lie above some unusable address from 1 MiB on. */
  function AboveHole(usable: set<nat>): set<nat> {
    set a | a in usable && !(Interval(HIGH_MEMORY, a) <= usable)
  }

  lemma NoHoleIsNothingAbove(usable: set<nat>)
    ensures NoHole(usable) <==> AboveHole(usable) == {}
  {
    if AboveHole(usable) == {} {
      forall a, b | a in usable && b in Interval(HIGH_MEMORY, a)
        ensures b in usable
      {
        assert a !in AboveHole(usable);
      }
    }
    if NoHole(usable) {
      forall a | a in usable
        ensures Interval(HIGH_MEMORY, a) <= usable
      {
      }
    }
  }

  /** What lies below the first hole is a stretch from 1 MiB. */
  lemma BelowHoleIsStretch(usable: set<nat>)
    requires forall a :: a in usable ==> HIGH_MEMORY <= a
    ensures var below := usable - AboveHole(usable);
            below == Interval(HIGH_MEMORY, HIGH_MEMORY + |below|)
  {
    var below := usable - AboveHole(usable);
    forall a, b | a in below && b in Interval(HIGH_MEMORY, a)
      ensures b in below
    {
      assert Interval(HIGH_MEMORY, b) <= Interval(HIGH_MEMORY, a);
    }
    FillsFromOneMegIffNoHole(below);
  }

  /** The first `n` addresses from 1 MiB are all usable exactly when no more usable addresses lie above a hole
      than can be spared. */
  lemma StretchUsableIff(usable: set<nat>, n: nat)
    requires forall a :: a in usable ==> HIGH_MEMORY <= a
    ensures Interval(HIGH_MEMORY, HIGH_MEMORY + n) <= usable <==> |AboveHole(usable)| <= |usable| - n
  {
    var below, block := usable - AboveHole(usable), Interval(HIGH_MEMORY, HIGH_MEMORY + n);
    BelowHoleIsStretch(usable);
    assert |usable| == |below| + |AboveHole(usable)| by {
      assert usable == below + AboveHole(usable);
    }
    if block <= usable {
      forall x | x in block
        ensures x in below
      {
        assert Interval(HIGH_MEMORY, x) <= block;
      }
      IntervalSize(HIGH_MEMORY, HIGH_MEMORY + n);
      SubsetSize(block, below);
    }
    if |AboveHole(usable)| <= |usable| - n {
      assert block <= below;
    }
  }
}
