/**
 Segment selectors, gate options and the interrupt descriptor table (`kernel/src/arch/x86/mod.rs`,
 `kernel/src/arch/x86/intr.rs`), read back the way the processor reads them: section 6.11, IDT
 Descriptors, of the Intel SDM volume 3A.
 */
module Interrupts {
  import opened Machine
  import opened Bits
  import opened BitAccess

  type U16 = x: nat | x < 0x1_0000

  datatype PrivilegeLevel = Ring0 | Ring1 | Ring2 | Ring3

  function Level(p: PrivilegeLevel): nat {
    match p
    case Ring0 => 0
    case Ring1 => 1
    case Ring2 => 2
    case Ring3 => 3
  }

  function FromU16(value: nat): Outcome<PrivilegeLevel> {
    match value
    case 0 => Done(Ring0)
    case 1 => Done(Ring1)
    case 2 => Done(Ring2)
    case 3 => Done(Ring3)
    case _ => Panics
  }

  /** The numbers of the levels, both ways. */
  lemma LevelNumbers(n: nat)
    ensures FromU16(n).Done? <==> n < 4
    ensures n < 4 ==> FromU16(n).value == [Ring0, Ring1, Ring2, Ring3][n] && Level([Ring0, Ring1, Ring2, Ring3][n]) == n
  {
  }

  lemma Widths()
    ensures Pow2(2) == 4 && Pow2(3) == 8 && Pow2(8) == 0x100 && Pow2(9) == 0x200
    ensures Pow2(13) == 0x2000 && Pow2(15) == 0x8000 && Pow2(16) == 0x1_0000
  {
    assert Pow2(8) == 0x100;
    Pow2Add(8, 5);
    Pow2Add(8, 7);
    Pow2Add(8, 8);
  }

  // ---------- segment selectors ----------

  function NewSelector(index: U16, rpl: PrivilegeLevel): nat {
    Or(Shl(16, index, 3), Level(rpl))
  }

  function SelectorIndex(sel: nat): nat {
    Shr(16, sel, 3)
  }

  function SelectorRpl(sel: nat): Outcome<PrivilegeLevel> {
    var bits :- GetRange(16, sel, Range(0, 2));
    FromU16(bits)
  }

  function SetRpl(sel: nat, rpl: PrivilegeLevel): Outcome<nat> {
    SetRange(16, sel, Range(0, 2), Level(rpl))
  }

  /** The value of a new selector; indices of 8192 and above lose their high bits. */
  lemma SelectorValue(index: U16, rpl: PrivilegeLevel)
    ensures NewSelector(index, rpl) == index % 0x2000 * 8 + Level(rpl)
  {
    Widths();
    JoinParts(16, index, Level(rpl), 3);
    HighLowAreDivMod(index, 13);
  }

  /** Reading any selector: the index is above bit 3 and the level below bit 2, and reading never panics. */
  lemma SelectorParts(sel: U16)
    ensures SelectorIndex(sel) == sel / 8
    ensures SelectorRpl(sel).Done? && Level(SelectorRpl(sel).value) == sel % 4
  {
    Widths();
    HighLowAreDivMod(sel, 3);
    GetRangeValue(16, sel, Range(0, 2), 1, 4);
  }

  /** What goes into a selector comes out: the level always, the index exactly when it is below 8192. */
  lemma SelectorRoundTrip(index: U16, rpl: PrivilegeLevel)
    ensures NewSelector(index, rpl) < 0x1_0000
    ensures SelectorRpl(NewSelector(index, rpl)) == Done(rpl)
    ensures SelectorIndex(NewSelector(index, rpl)) == index <==> index < 0x2000
  {
    hide NewSelector, SelectorRpl, SelectorIndex;
    SelectorValue(index, rpl);
    SelectorParts(index % 0x2000 * 8 + Level(rpl));
  }

  lemma SetRplValue(sel: U16, rpl: PrivilegeLevel)
    ensures SetRpl(sel, rpl) == Done(sel - sel % 4 + Level(rpl))
  {
    hide SetRange;
    Widths();
    SetFieldValue(16, sel, Range(0, 2), Level(rpl), 1, 4);
  }

  lemma ReplaceLowBits(sel: nat, l: nat)
    requires l < 4
    ensures (sel - sel % 4 + l) / 8 == sel / 8 && (sel - sel % 4 + l) % 4 == l
  {
  }

  /** Setting the level changes the level and nothing else. */
  lemma SetRplOnlySetsRpl(sel: U16, rpl: PrivilegeLevel)
    ensures SetRpl(sel, rpl).Done?
    ensures SelectorRpl(SetRpl(sel, rpl).value) == Done(rpl)
    ensures SelectorIndex(SetRpl(sel, rpl).value) == SelectorIndex(sel)
  {
    hide SetRpl, SelectorRpl, SelectorIndex;
    SetRplValue(sel, rpl);
    ReplaceLowBits(sel, Level(rpl));
    SelectorParts(sel);
    SelectorParts(sel - sel % 4 + Level(rpl));
  }

  // ---------- gate options ----------

  function NewOption(isTrap: bool, level: PrivilegeLevel, isPresent: bool): Outcome<nat> {
    var a :- SetBit(16, 0x0e00, 8, isTrap);
    var b :- SetRange(16, a, Range(13, 15), Level(level));
    SetBit(16, b, 15, isPresent)
  }

  function AsBit(b: bool): nat {
    if b then 1 else 0
  }

  lemma SetTrap(isTrap: bool)
    ensures SetBit(16, 0x0e00, 8, isTrap) == Done(0x0e00 + 0x100 * AsBit(isTrap))
  {
    hide SetBit, SetRange;
    Widths();
    SetBitIsSetRange(16, 0x0e00, 8, isTrap);
    SetFieldValue(16, 0x0e00, Range(8, 9), AsBit(isTrap), 0x100, 0x200);
  }

  lemma SetLevel(x: U16, level: PrivilegeLevel)
    requires x < 0x2000
    ensures SetRange(16, x, Range(13, 15), Level(level)) == Done(x + 0x2000 * Level(level))
  {
    hide SetRange;
    Widths();
    SetFieldValue(16, x, Range(13, 15), Level(level), 0x2000, 0x8000);
  }

  lemma SetPresent(x: U16, isPresent: bool)
    requires x < 0x8000
    ensures SetBit(16, x, 15, isPresent) == Done(x + 0x8000 * AsBit(isPresent))
  {
    hide SetBit, SetRange;
    Widths();
    SetBitIsSetRange(16, x, 15, isPresent);
    SetFieldValue(16, x, Range(15, 16), AsBit(isPresent), 0x8000, 0x1_0000);
  }

  function OptionNumber(isTrap: bool, level: PrivilegeLevel, isPresent: bool): U16 {
    0x0e00 + 0x100 * AsBit(isTrap) + 0x2000 * Level(level) + 0x8000 * AsBit(isPresent)
  }

  /** The option word, as a number: the gate type, the level and the present bit in their places. */
  lemma OptionValue(isTrap: bool, level: PrivilegeLevel, isPresent: bool)
    ensures NewOption(isTrap, level, isPresent) == Done(OptionNumber(isTrap, level, isPresent))
  {
    hide SetBit, SetRange;
    SetTrap(isTrap);
    SetLevel(0x0e00 + 0x100 * AsBit(isTrap), level);
    SetPresent(0x0e00 + 0x100 * AsBit(isTrap) + 0x2000 * Level(level), isPresent);
  }

  /** The accessors give back what the option was made from. */
  lemma OptionRoundTrip(isTrap: bool, level: PrivilegeLevel, isPresent: bool)
    ensures NewOption(isTrap, level, isPresent).Done?
    ensures var o := NewOption(isTrap, level, isPresent).value;
            && GetBit(16, o, 8) == Done(isTrap)
            && GetRange(16, o, Range(13, 15)) == Done(Level(level))
            && GetBit(16, o, 15) == Done(isPresent)
  {
    hide NewOption, GetRange, GetBit;
    Widths();
    OptionValue(isTrap, level, isPresent);
    var o := OptionNumber(isTrap, level, isPresent);
    GetBitValue(16, o, 8, 0x100);
    GetRangeValue(16, o, Range(13, 15), 0x2000, 0x8000);
    GetBitValue(16, o, 15, 0x8000);
  }

  // ---------- entries and gates ----------

  /** `InterruptEntry`: four 16-bit fields, packed in this order. */
  datatype Entry = Entry(pointerLow: U16, selector: U16, options: U16, pointerMiddle: U16)

  function DefaultEntry(): Outcome<Entry> {
    hide NewOption;
    var o :- NewOption(false, Ring0, false);
    Done(Entry(0, 0, o % 0x1_0000, 0))
  }

  /** `set_handle_addr`: the low half by a mask, the high half by a shift, the code selector and the options. */
  function HandlerEntry(pointer: Word, cs: U16): Outcome<Entry> {
    hide NewOption, And, Shr;
    var o :- NewOption(false, Ring0, true);
    Done(Entry(And(pointer, 0xffff) % 0x1_0000, cs, o % 0x1_0000, Shr(32, pointer, 16) % 0x1_0000))
  }

  /** `InterruptEntry::pointer`. */
  function EntryPointer(e: Entry): nat {
    Or(Shl(32, e.pointerMiddle, 16), e.pointerLow)
  }

  lemma DefaultEntryValue()
    ensures DefaultEntry() == Done(Entry(0, 0, 0x0e00, 0))
  {
    hide NewOption;
    OptionValue(false, Ring0, false);
  }

  /** A table of 256 default entries. */
  predicate FreshTable(table: seq<Entry>) {
    |table| == 256 && forall v :: 0 <= v < 256 ==> table[v] == Entry(0, 0, 0x0e00, 0)
  }

  lemma HandlerEntryValue(pointer: Word, cs: U16)
    ensures HandlerEntry(pointer, cs) == Done(Entry(pointer % 0x1_0000, cs, 0x8e00, pointer / 0x1_0000))
  {
    hide NewOption, And, High, Low;
    OptionValue(false, Ring0, true);
    Widths();
    MaskIsLow(pointer, 16);
    HighLowAreDivMod(pointer, 16);
  }

  /** The address that was installed can be read back from the entry. */
  lemma PointerRoundTrip(pointer: Word, cs: U16)
    ensures HandlerEntry(pointer, cs).Done? && EntryPointer(HandlerEntry(pointer, cs).value) == pointer
  {
    hide HandlerEntry, Or, Shl, Low;
    HandlerEntryValue(pointer, cs);
    Widths();
    JoinParts(32, pointer / 0x1_0000, pointer % 0x1_0000, 16);
    LowKeepsIffFits(pointer / 0x1_0000, 16);
  }

  function EntryBytes(e: Entry): (b: seq<Byte>)
    ensures |b| == 8
  {
    [e.pointerLow % 256, e.pointerLow / 256, e.selector % 256, e.selector / 256,
     e.options % 256, e.options / 256, e.pointerMiddle % 256, e.pointerMiddle / 256]
  }

  /** The eight bytes of an installed handler, in memory order. */
  lemma HandlerBytes(pointer: Word, cs: U16)
    ensures HandlerEntry(pointer, cs).Done?
    ensures EntryBytes(HandlerEntry(pointer, cs).value) ==
            [pointer % 0x100, pointer / 0x100 % 0x100, cs % 0x100, cs / 0x100,
             0x00, 0x8e, pointer / 0x1_0000 % 0x100, pointer / 0x100_0000]
  {
    hide HandlerEntry;
    HandlerEntryValue(pointer, cs);
    FourBytes(pointer, pointer / 0x100 / 0x100, pointer / 0x100 % 0x100, pointer % 0x100);
  }

  lemma FourBytes(p: nat, high: nat, b1: nat, b0: nat)
    requires b0 < 0x100 && b1 < 0x100 && p == high * 0x1_0000 + (b1 * 0x100 + b0)
    ensures p / 0x1_0000 == high && p % 0x1_0000 == b1 * 0x100 + b0
    ensures p % 0x1_0000 / 0x100 == b1 && p % 0x1_0000 % 0x100 == b0
    ensures p / 0x100_0000 == high / 0x100
  {
    DivUnique(p, 0x1_0000, high, b1 * 0x100 + b0);
    DivUnique(b1 * 0x100 + b0, 0x100, b1, b0);
    DivUnique(p, 0x100_0000, high / 0x100, high % 0x100 * 0x1_0000 + (b1 * 0x100 + b0));
  }

  const INTERRUPT_GATE: nat := 0x0e // 32-bit interrupt gate; a trap gate is 0x0f

  /** A gate as the processor sees it; `reserved` are the bits that have to be zero. */
  datatype Gate = Gate(offset: nat, selector: nat, kind: nat, dpl: nat, present: bool, reserved: nat)

  function LittleEndian(low: nat, high: nat): nat {
    low + 0x100 * high
  }

  /** The processor's reading of the eight bytes of a descriptor. */
  function DecodeGate(b: seq<Byte>): Gate
    requires |b| == 8
  {
    Gate(LittleEndian(b[0], b[1]) + 0x1_0000 * LittleEndian(b[6], b[7]), LittleEndian(b[2], b[3]),
         b[5] % 32, b[5] / 32 % 4, b[5] / 128 == 1, b[4])
  }

  lemma GateOfEntry(e: Entry)
    ensures DecodeGate(EntryBytes(e)) ==
            Gate(e.pointerLow + 0x1_0000 * e.pointerMiddle, e.selector,
                 e.options / 256 % 32, e.options / 256 / 32 % 4, e.options / 256 / 128 == 1, e.options % 256)
  {
  }

  // ---------- the table ----------

  datatype Field =
    | DivideError | DebugException | NonMaskableInterrupt | Breakpoint | Overflow | BoundRangeExceeded
    | InvalidOpcode | DeviceNotAvailable | DoubleFault | CoprocessorSegmentOverrun | InvalidTss
    | SegmentNotPresent | StackSegmentFault | GeneralProtectionFault | PageFault | Reserved1
    | X87FloatingPoint | AlignmentCheck | MachineCheck | SimdFloatingPoint | Virtualization
    | Reserved2 | SecurityException | Reserved3 | ExternalInterrupts

  /** How many entries the field declared at position `k` of `InterruptDescriptorTable` holds. */
  function Entries(k: nat): nat {
    if k == Position(Reserved2) then 9 else if k == Position(ExternalInterrupts) then 256 - 32 else 1
  }

  /** How many entries the first `k` fields take up. */
  function EntriesBefore(k: nat): nat {
    if k == 0 then 0 else EntriesBefore(k - 1) + Entries(k - 1)
  }

  /** Where field `f` is declared. */
  function Position(f: Field): nat {
    match f
    case DivideError => 0
    case DebugException => 1
    case NonMaskableInterrupt => 2
    case Breakpoint => 3
    case Overflow => 4
    case BoundRangeExceeded => 5
    case InvalidOpcode => 6
    case DeviceNotAvailable => 7
    case DoubleFault => 8
    case CoprocessorSegmentOverrun => 9
    case InvalidTss => 10
    case SegmentNotPresent => 11
    case StackSegmentFault => 12
    case GeneralProtectionFault => 13
    case PageFault => 14
    case Reserved1 => 15
    case X87FloatingPoint => 16
    case AlignmentCheck => 17
    case MachineCheck => 18
    case SimdFloatingPoint => 19
    case Virtualization => 20
    case Reserved2 => 21
    case SecurityException => 22
    case Reserved3 => 23
    case ExternalInterrupts => 24
  }

  /** The entry at which field `f` starts. */
  function Slot(f: Field): nat {
    EntriesBefore(Position(f))
  }

  /** The vector that the documentation of each field promises. */
  function DocumentedVector(f: Field): nat {
    match f
    case DivideError => 0
    case DebugException => 1
    case NonMaskableInterrupt => 2
    case Breakpoint => 3
    case Overflow => 4
    case BoundRangeExceeded => 5
    case InvalidOpcode => 6
    case DeviceNotAvailable => 7
    case DoubleFault => 8
    case CoprocessorSegmentOverrun => 9
    case InvalidTss => 10
    case SegmentNotPresent => 11
    case StackSegmentFault => 12
    case GeneralProtectionFault => 13
    case PageFault => 14
    case Reserved1 => 15
    case X87FloatingPoint => 16
    case AlignmentCheck => 17
    case MachineCheck => 18
    case SimdFloatingPoint => 19
    case Virtualization => 20
    case Reserved2 => 21
    case SecurityException => 30
    case Reserved3 => 31
    case ExternalInterrupts => 32
  }

  /** The layout puts every field at its vector. */
  lemma FieldsSitAtTheirVectors(f: Field)
    ensures Slot(f) == DocumentedVector(f)
  {
    SingleEntries(Position(f));
  }

  lemma {:induction false} SingleEntries(k: nat)
    ensures EntriesBefore(k) == if k <= 21 then k else if k <= 24 then k + 8 else k + 231
  {
    if k != 0 {
      SingleEntries(k - 1);
    }
  }

  /** The fields fill the 256 entries of the table. */
  lemma TableHas256Entries()
    ensures EntriesBefore(Position(ExternalInterrupts) + 1) == 256
  {
    SingleEntries(25);
  }

  /** `Index::index`: the arms that return an entry, and the ones that panic. */
  function Index(i: nat): Outcome<nat> {
    if i == 0 then Done(Slot(DivideError))
    else if i == 1 then Done(Slot(DebugException))
    else if i == 2 then Done(Slot(NonMaskableInterrupt))
    else if i == 3 then Done(Slot(Breakpoint))
    else if i == 4 then Done(Slot(Overflow))
    else if i == 5 then Done(Slot(BoundRangeExceeded))
    else if i == 6 then Done(Slot(InvalidOpcode))
    else if i == 7 then Done(Slot(DeviceNotAvailable))
    else if i == 9 then Done(Slot(CoprocessorSegmentOverrun))
    else if i == 16 then Done(Slot(X87FloatingPoint))
    else if i == 19 then Done(Slot(SimdFloatingPoint))
    else if i == 20 then Done(Slot(Virtualization))
    else if 32 <= i <= 255 then Done(Slot(ExternalInterrupts) + (i - 32))
    else Panics
  }

  /** Entries whose handlers take no error code and may return. */
  predicate PlainVector(i: nat) {
    i <= 7 || i in {9, 16, 19, 20} || 32 <= i <= 255
  }

  lemma IndexIsVector(i: nat)
    ensures Index(i) == if PlainVector(i) then Done(i) else Panics
  {
    hide Slot;
    forall f
      ensures Slot(f) == DocumentedVector(f)
    {
      FieldsSitAtTheirVectors(f);
    }
  }

  // ---------- installing handlers ----------

  /** The fields that code outside the table can name; the others are private, and two of them are arrays. */
  predicate IsPublic(f: Field) {
    f !in {CoprocessorSegmentOverrun, Reserved1, Reserved2, Reserved3, ExternalInterrupts}
  }

  type PublicField = f: Field | IsPublic(f) witness DivideError

  datatype Target = Named(field: PublicField) | Vector(index: nat)

  /** One `set_handle_fn`, by field or by index; `cs` is the code selector at that moment. */
  datatype Install = Install(target: Target, pointer: Word, cs: U16)

  function TargetSlot(t: Target): Outcome<nat> {
    match t
    case Named(f) => Done(Slot(f))
    case Vector(i) => Index(i)
  }

  function InstallOne(table: seq<Entry>, op: Install): (r: Outcome<seq<Entry>>)
    requires |table| == 256
    ensures r.Done? ==> |r.value| == 256
  {
    hide TargetSlot, HandlerEntry;
    var slot :- TargetSlot(op.target);
    var e :- HandlerEntry(op.pointer, op.cs);
    if slot < 256 then Done(table[slot := e]) else Panics
  }

  function InstallAll(table: seq<Entry>, ops: seq<Install>): (r: Outcome<seq<Entry>>)
    requires |table| == 256
    ensures r.Done? ==> |r.value| == 256
  {
    if ops == [] then Done(table)
    else
      hide InstallOne;
      var t :- InstallAll(table, ops[..|ops| - 1]);
      InstallOne(t, ops[|ops| - 1])
  }

  class InterruptDescriptorTable {
    const entries: array<Entry>

    ghost predicate Valid() {
      entries.Length == 256
    }

    constructor ()
      ensures Valid() && fresh(entries)
      ensures FreshTable(entries[..])
      ensures forall v :: 0 <= v < 256 ==> DefaultEntry() == Done(entries[v])
    {
      hide DefaultEntry;
      DefaultEntryValue();
      entries := new Entry[256](_ => Entry(0, 0, 0x0e00, 0));
    }

    /** Installs one handler; an index without a plain entry panics and leaves the table alone. */
    method SetHandler(op: Install) returns (r: Outcome<()>)
      requires Valid()
      modifies entries
      ensures r.Done? <==> op.target.Named? || PlainVector(op.target.index)
      ensures r.Done? ==> Done(entries[..]) == InstallOne(old(entries[..]), op)
      ensures r.Panics? ==> entries[..] == old(entries[..])
    {
      hide Slot, Index, HandlerEntry;
      TargetInRange(op.target);
      HandlerEntryValue(op.pointer, op.cs);
      var slot := TargetSlot(op.target);
      if slot.Panics? {
        return Panics;
      }
      entries[slot.value] := HandlerEntry(op.pointer, op.cs).value;
      r := Done(());
    }
  }

  lemma TargetInRange(t: Target)
    ensures TargetSlot(t).Done? <==> t.Named? || PlainVector(t.index)
    ensures TargetSlot(t).Done? ==>
              TargetSlot(t).value == (if t.Named? then DocumentedVector(t.field) else t.index) < 256
  {
    hide Slot, Index;
    match t
    case Named(f) => FieldsSitAtTheirVectors(f);
    case Vector(i) => IndexIsVector(i);
  }

  /** The vectors for which a handler can be installed, by a public field or by an index: all but the private
      ones and the two reserved ranges. */
  lemma InstallableVectors(v: nat)
    ensures (exists t :: TargetSlot(t) == Done(v)) <==> v <= 14 || 16 <= v <= 20 || v == 30 || 32 <= v <= 255
  {
    hide TargetSlot;
    forall t
      ensures TargetSlot(t).Done? <==> t.Named? || PlainVector(t.index)
      ensures TargetSlot(t).Done? ==> TargetSlot(t).value == VectorOf(t)
    {
      TargetInRange(t);
    }
    if v <= 14 || 16 <= v <= 20 || v == 30 || 32 <= v <= 255 {
      var t := if PlainVector(v) then Vector(v)
               else if v == 8 then Named(DoubleFault)
               else if v == 10 then Named(InvalidTss)
               else if v == 11 then Named(SegmentNotPresent)
               else if v == 12 then Named(StackSegmentFault)
               else if v == 13 then Named(GeneralProtectionFault)
               else if v == 14 then Named(PageFault)
               else if v == 17 then Named(AlignmentCheck)
               else if v == 18 then Named(MachineCheck)
               else Named(SecurityException);
      assert TargetSlot(t) == Done(v);
    }
  }

  /** The table as bytes in memory. */
  function TableBytes(table: seq<Entry>): (b: seq<Byte>)
    ensures |b| == 8 * |table|
  {
    seq(8 * |table|, k requires 0 <= k < 8 * |table| => EntryBytes(table[k / 8])[k % 8])
  }

  lemma EntryInTable(table: seq<Entry>, v: nat)
    requires v < |table|
    ensures TableBytes(table)[8 * v..8 * v + 8] == EntryBytes(table[v])
  {
    forall j | 0 <= j < 8
      ensures TableBytes(table)[8 * v + j] == EntryBytes(table[v])[j]
    {
      assert (8 * v + j) / 8 == v && (8 * v + j) % 8 == j;
    }
  }

  /** The vector an installation is for. */
  function VectorOf(t: Target): nat {
    match t
    case Named(f) => DocumentedVector(f)
    case Vector(i) => i
  }

  /** The last installation for vector `v`. */
  function LastInstalled(ops: seq<Install>, v: nat): Option<Install> {
    if ops == [] then None
    else if VectorOf(ops[|ops| - 1].target) == v then Some(ops[|ops| - 1])
    else LastInstalled(ops[..|ops| - 1], v)
  }

  function ExpectedEntry(last: Option<Install>): Entry {
    match last
    case None => Entry(0, 0, 0x0e00, 0)
    case Some(op) => Entry(op.pointer % 0x1_0000, op.cs, 0x8e00, op.pointer / 0x1_0000)
  }

  lemma {:induction false} InstalledEntries(table: seq<Entry>, ops: seq<Install>, v: nat)
    requires FreshTable(table) && v < 256 && InstallAll(table, ops).Done?
    ensures InstallAll(table, ops).value[v] == ExpectedEntry(LastInstalled(ops, v))
  {
    hide TargetSlot, HandlerEntry;
    if ops != [] {
      var op := ops[|ops| - 1];
      InstalledEntries(table, ops[..|ops| - 1], v);
      TargetInRange(op.target);
      HandlerEntryValue(op.pointer, op.cs);
    }
  }

  /** After any sequence of installations into a fresh table, by field or by index, the eight bytes that the
      processor fetches for vector `v` are a present ring-0 32-bit interrupt gate to the handler installed
      there last, with the code selector of that moment; a vector never installed is not present. */
  lemma TableDecodes(table: seq<Entry>, ops: seq<Install>, v: nat)
    requires FreshTable(table) && v < 256 && InstallAll(table, ops).Done?
    ensures DecodeGate(TableBytes(InstallAll(table, ops).value)[8 * v..8 * v + 8]) ==
            match LastInstalled(ops, v)
            case Some(op) => Gate(op.pointer, op.cs, INTERRUPT_GATE, 0, true, 0)
            case None => Gate(0, 0, INTERRUPT_GATE, 0, false, 0)
  {
    hide InstallAll, LastInstalled, TableBytes, EntryBytes, DecodeGate;
    InstalledEntries(table, ops, v);
    EntryInTable(InstallAll(table, ops).value, v);
    GateOfEntry(ExpectedEntry(LastInstalled(ops, v)));
  }
}
