/**
 The packed bitmap of `kernel/src/mm/page.rs`: one bit per page, eight to a byte.

 The first half says what the operations mean on a sequence of booleans, and characterises
 the first-fit search exactly. The second half is the bitmap itself, over an array of bytes.
 */
module BitMaps {
  import opened Machine
  import opened Bits

  // ---------- bytes as booleans ----------

  /** All bits of a byte sequence, least significant bit of each byte first. */
  function RawBits(data: seq<Byte>): (s: seq<bool>)
    ensures |s| == 8 * |data|
  {
    seq(8 * |data|, i requires 0 <= i < 8 * |data| => Bit(data[i / 8], i % 8))
  }

  /** The number that some bits make up, the first being worth 1. */
  function Value(s: seq<bool>): nat {
    if s == [] then 0 else (if s[0] then 1 else 0) + 2 * Value(s[1..])
  }

  lemma {:induction false} LowIsValue(x: nat, s: seq<bool>)
    requires forall j :: 0 <= j < |s| ==> s[j] == Bit(x, j)
    ensures Low(x, |s|) == Value(s)
  {
    if s != [] {
      forall j | 0 <= j < |s| - 1
        ensures s[1..][j] == Bit(x / 2, j)
      {
        assert s[j + 1] == Bit(x, j + 1);
      }
      LowIsValue(x / 2, s[1..]);
    }
  }

  /** A stored byte as a number: its bits are those of pages `8 * q` to `8 * q + 7`, the first worth 1. */
  lemma ByteIsItsBits(data: seq<Byte>, q: nat)
    requires q < |data|
    ensures Value(RawBits(data)[8 * q..8 * q + 8]) == data[q]
  {
    var s := RawBits(data)[8 * q..8 * q + 8];
    forall j: nat | j < 8
      ensures s[j] == Bit(data[q], j)
    {
      assert (8 * q + j) / 8 == q && (8 * q + j) % 8 == j;
    }
    LowIsValue(data[q], s);
    ByteLimit();
    LowKeepsIffFits(data[q], 8);
  }

  lemma ByteLimit()
    ensures Pow2(8) == 256
  {
  }

  lemma BytesWithSameBits(a: Byte, b: Byte)
    requires forall j: nat :: j < 8 ==> Bit(a, j) == Bit(b, j)
    ensures a == b
  {
    ByteLimit();
    forall i: nat
      ensures Bit(a, i) == Bit(b, i)
    {
      if 8 <= i {
        NoBitsAbove(8, a, i);
        NoBitsAbove(8, b, i);
      }
    }
    SameBits(a, b);
  }

  /** The bits determine the bytes, so a claim about all bits is a claim about the stored bytes. */
  lemma RawBitsInjective(a: seq<Byte>, b: seq<Byte>)
    requires |a| == |b| && RawBits(a) == RawBits(b)
    ensures a == b
  {
    forall k | 0 <= k < |a|
      ensures a[k] == b[k]
    {
      forall j: nat | j < 8
        ensures Bit(a[k], j) == Bit(b[k], j)
      {
        var i := 8 * k + j;
        assert i / 8 == k && i % 8 == j;
        assert RawBits(a)[i] == RawBits(b)[i];
      }
      BytesWithSameBits(a[k], b[k]);
    }
  }

  /** Replacing one byte by one that differs in bit `k` only changes one bit of the whole. */
  lemma ByteUpdate(data: seq<Byte>, q: nat, k: nat, b: Byte, v: bool)
    requires q < |data| && k < 8
    requires forall j: nat :: j < 8 ==> Bit(b, j) == if j == k then v else Bit(data[q], j)
    ensures RawBits(data[q := b]) == RawBits(data)[8 * q + k := v]
  {
  }

  lemma FlippedByte(b: Byte, k: nat)
    requires k < 8
    ensures Xor(b, Shl(8, 1, k)) < 256
    ensures forall j: nat :: Bit(Xor(b, Shl(8, 1, k)), j) == if j == k then !Bit(b, j) else Bit(b, j)
  {
    ByteLimit();
    XorFits(8, b, Shl(8, 1, k));
    forall j: nat
      ensures Bit(Xor(b, Shl(8, 1, k)), j) == if j == k then !Bit(b, j) else Bit(b, j)
    {
      BitOfXor(b, Shl(8, 1, k), j);
      BitOfMask(8, k, j);
    }
  }

  lemma MarkedByte(b: Byte, k: nat)
    requires k < 8
    ensures Or(b, Shl(8, 1, k)) < 256
    ensures forall j: nat :: Bit(Or(b, Shl(8, 1, k)), j) == if j == k then true else Bit(b, j)
  {
    ByteLimit();
    OrFits(8, b, Shl(8, 1, k));
    forall j: nat
      ensures Bit(Or(b, Shl(8, 1, k)), j) == if j == k then true else Bit(b, j)
    {
      BitOfOr(b, Shl(8, 1, k), j);
      BitOfMask(8, k, j);
    }
  }

  lemma ClearedByte(b: Byte, k: nat)
    requires k < 8
    ensures And(b, Not(8, Shl(8, 1, k))) < 256
    ensures forall j: nat :: j < 8 ==>
              Bit(And(b, Not(8, Shl(8, 1, k))), j) == if j == k then false else Bit(b, j)
  {
    ByteLimit();
    AndFits(8, b, Not(8, Shl(8, 1, k)));
    forall j: nat | j < 8
      ensures Bit(And(b, Not(8, Shl(8, 1, k))), j) == if j == k then false else Bit(b, j)
    {
      BitOfAnd(b, Not(8, Shl(8, 1, k)), j);
      BitOfNot(8, Shl(8, 1, k), j);
      BitOfMask(8, k, j);
    }
  }

  // ---------- pointwise operations ----------

  function FlipWindow(s: seq<bool>, lo: int, hi: int): (t: seq<bool>)
    ensures |t| == |s|
  {
    seq(|s|, i requires 0 <= i < |s| => if lo <= i < hi then !s[i] else s[i])
  }

  function SetWindow(s: seq<bool>, lo: int, hi: int, val: bool): (t: seq<bool>)
    ensures |t| == |s|
  {
    seq(|s|, i requires 0 <= i < |s| => if lo <= i < hi then val else s[i])
  }

  lemma FlipTwice(s: seq<bool>, lo: int, hi: int)
    ensures FlipWindow(FlipWindow(s, lo, hi), lo, hi) == s
  {
  }

  function Min(a: int, b: int): int {
    if a <= b then a else b
  }

  // ---------- the first-fit search ----------

  /** `contains` on booleans: the bounds assertion of `test` is reached only if no earlier bit answers. */
  function ContainsIn(s: seq<bool>, start: nat, len: nat, val: bool): Outcome<bool>
    decreases len
  {
    if len == 0 then Done(false)
    else if start >= |s| then Panics
    else if s[start] == val then Done(true)
    else ContainsIn(s, start + 1, len - 1, val)
  }

  datatype FindResult = Found(start: nat) | NotFound | AssertFails

  /** `find` on booleans. */
  function FindIn(s: seq<bool>, start: nat, len: nat, val: bool): FindResult
    decreases |s| - start
  {
    if start >= |s| then NotFound
    else
      match ContainsIn(s, start, len, !val)
      case Panics => AssertFails
      case Done(hit) => if hit then FindIn(s, start + 1, len, val) else Found(start)
  }

  /** A window of `len` bits that lies inside `s` and holds `val` throughout. */
  predicate Window(s: seq<bool>, start: int, len: nat, val: bool) {
    0 <= start && start + len <= |s| && forall i :: start <= i < start + len ==> s[i] == val
  }

  lemma {:induction false} ContainsExact(s: seq<bool>, start: nat, len: nat, val: bool)
    ensures ContainsIn(s, start, len, val) == Done(false) <==> len == 0 || Window(s, start, len, !val)
    ensures ContainsIn(s, start, len, val) == Done(true) <==>
            exists i :: start <= i < start + len && i < |s| && s[i] == val
    decreases len
  {
    if len != 0 && start < |s| && s[start] != val {
      ContainsExact(s, start + 1, len - 1, val);
    }
  }

  /** One round of the search: whether a window fits here, and if the assertion fails, that none fits further on. */
  lemma WhatContainsTells(s: seq<bool>, start: nat, len: nat, val: bool)
    requires start < |s|
    ensures ContainsIn(s, start, len, !val) == Done(false) <==> Window(s, start, len, val)
    ensures ContainsIn(s, start, len, !val) == Panics ==>
              s[|s| - 1] == val && forall i :: start <= i < |s| ==> !Window(s, i, len, val)
  {
    hide ContainsIn;
    ContainsExact(s, start, len, !val);
    if ContainsIn(s, start, len, !val) == Panics {
      assert forall i :: start <= i < |s| ==> s[i] == val;
    }
  }

  /** What `find` returns, for every bitmap, start and window length: the least fitting start when there is one;
      otherwise `None` exactly when the scan is empty or the last bit does not hold `val`; and only a trailing run
      that is too short hits the assertion. An empty window fits at once, unless the scan is empty. */
  lemma {:induction false} FindExact(s: seq<bool>, start: nat, len: nat, val: bool)
    ensures forall i: nat :: FindIn(s, start, len, val) == Found(i) <==>
              && start <= i < |s| && Window(s, i, len, val)
              && forall j :: start <= j < i ==> !Window(s, j, len, val)
    ensures FindIn(s, start, len, val) == NotFound <==>
            && (forall i :: start <= i < |s| ==> !Window(s, i, len, val))
            && (start >= |s| || s[|s| - 1] != val)
    ensures FindIn(s, start, len, val) == AssertFails <==>
            && (forall i :: start <= i < |s| ==> !Window(s, i, len, val))
            && start < |s| && s[|s| - 1] == val
    decreases |s| - start
  {
    if start < |s| {
      hide ContainsIn, Window;
      WhatContainsTells(s, start, len, val);
      if ContainsIn(s, start, len, !val) == Done(true) {
        FindExact(s, start + 1, len, val);
      }
    }
  }

  /** The smallest map on which a search for two free pages fails the assertion instead of finding none: the
      free run at the end is one page short. With the two pages the other way round it finds none. */
  lemma ShortTailFailsTheAssertion()
    ensures FindIn([true, false], 0, 2, false) == AssertFails
    ensures FindIn([false, true], 0, 2, false) == NotFound
  {
    FindExact([true, false], 0, 2, false);
    FindExact([false, true], 0, 2, false);
    assert forall s: seq<bool>, i :: |s| == 2 && Window(s, i, 2, false) ==> i == 0 && !s[0] && !s[1];
  }

  /** Once a fitting window exists, the search finds one no later than it. */
  lemma FindAtMost(s: seq<bool>, len: nat, val: bool, w: nat)
    requires len >= 1 && Window(s, w, len, val)
    ensures FindIn(s, 0, len, val).Found?
    ensures FindIn(s, 0, len, val).start <= w
    ensures Window(s, FindIn(s, 0, len, val).start, len, val)
  {
    FindExact(s, 0, len, val);
    match FindIn(s, 0, len, val) {
      case Found(i) =>
        assert FindIn(s, 0, len, val) == Found(i);
      case NotFound =>
      case AssertFails =>
    }
  }

  // ---------- the bitmap ----------

  class BitMap {
    const data: array<Byte>
    const size: nat

    ghost predicate Valid() {
      size <= 8 * data.Length
    }

    /** Every stored bit, padding included. */
    ghost function Raw(): seq<bool>
      reads data
    {
      RawBits(data[..])
    }

    /** The bits of the map proper. */
    ghost function Bits(): seq<bool>
      requires Valid()
      reads data
    {
      Raw()[..size]
    }

    /** `BitMap::new`: takes over storage that is already there and zeroes the bytes it needs. */
    constructor (storage: array<Byte>, size: nat)
      requires (size + 7) / 8 <= storage.Length
      modifies storage
      ensures Valid() && data == storage && this.size == size
      ensures forall i :: 0 <= i < storage.Length ==>
                storage[i] == if i < (size + 7) / 8 then 0 else old(storage[i])
      ensures Bits() == seq(size, _ => false)
    {
      data := storage;
      this.size := size;
      var len := (size + 7) / 8;
      forall i | 0 <= i < len {
        storage[i] := 0;
      }
      new;
      forall i | 0 <= i < size
        ensures !Bits()[i]
      {
        ZeroHasNoBits(i % 8);
      }
    }

    method Test(idx: nat) returns (r: Outcome<bool>)
      requires Valid()
      ensures r == if idx < size then Done(Bits()[idx]) else Panics
    {
      if idx >= size {
        return Panics;
      }
      var elem := data[idx / 8];
      MaskTests(8, elem, idx % 8);
      r := Done(And(elem, Shl(8, 1, idx % 8)) != 0);
    }

    method Clear(idx: nat) returns (r: Outcome<()>)
      requires Valid()
      modifies data
      ensures idx < size ==> r.Done? && Raw() == old(Raw())[idx := false]
      ensures idx >= size ==> r.Panics? && data[..] == old(data[..])
    {
      if idx >= size {
        return Panics;
      }
      var val := data[idx / 8];
      ClearedByte(val, idx % 8);
      ByteUpdate(data[..], idx / 8, idx % 8, And(val, Not(8, Shl(8, 1, idx % 8))), false);
      data[idx / 8] := And(val, Not(8, Shl(8, 1, idx % 8)));
      assert data[..] == old(data[..])[idx / 8 := data[idx / 8]];
      r := Done(());
    }

    method Mark(idx: nat) returns (r: Outcome<()>)
      requires Valid()
      modifies data
      ensures idx < size ==> r.Done? && Raw() == old(Raw())[idx := true]
      ensures idx >= size ==> r.Panics? && data[..] == old(data[..])
    {
      if idx >= size {
        return Panics;
      }
      var val := data[idx / 8];
      MarkedByte(val, idx % 8);
      ByteUpdate(data[..], idx / 8, idx % 8, Or(val, Shl(8, 1, idx % 8)), true);
      data[idx / 8] := Or(val, Shl(8, 1, idx % 8));
      assert data[..] == old(data[..])[idx / 8 := data[idx / 8]];
      r := Done(());
    }

    method Flip(idx: nat) returns (r: Outcome<()>)
      requires Valid()
      modifies data
      ensures idx < size ==> r.Done? && Raw() == old(Raw())[idx := !old(Raw())[idx]]
      ensures idx >= size ==> r.Panics? && data[..] == old(data[..])
    {
      if idx >= size {
        return Panics;
      }
      var val := data[idx / 8];
      FlippedByte(val, idx % 8);
      ByteUpdate(data[..], idx / 8, idx % 8, Xor(val, Shl(8, 1, idx % 8)), !Bit(val, idx % 8));
      data[idx / 8] := Xor(val, Shl(8, 1, idx % 8));
      assert data[..] == old(data[..])[idx / 8 := data[idx / 8]];
      r := Done(());
    }

    /** Flips a window; a window that leaves the map is flipped up to its end and then panics. */
    method Flips(idx: nat, len: nat) returns (r: Outcome<()>)
      requires Valid()
      modifies data
      ensures r.Done? <==> len == 0 || idx + len <= size
      ensures Raw() == FlipWindow(old(Raw()), idx, Min(idx + len, size))
    {
      for i := 0 to len
        invariant i == 0 || idx + i <= size
        invariant Raw() == FlipWindow(old(Raw()), idx, idx + i)
      {
        var step := Flip(idx + i);
        if step.Panics? {
          return Panics;
        }
      }
      r := Done(());
    }

    method Set(idx: nat, val: bool) returns (r: Outcome<()>)
      requires Valid()
      modifies data
      ensures idx < size ==> r.Done? && Raw() == old(Raw())[idx := val]
      ensures idx >= size ==> r.Panics? && data[..] == old(data[..])
    {
      if idx >= size {
        return Panics;
      }
      if val {
        r := Mark(idx);
      } else {
        r := Clear(idx);
      }
    }

    method Sets(idx: nat, len: nat, val: bool) returns (r: Outcome<()>)
      requires Valid()
      modifies data
      ensures r.Done? <==> len == 0 || idx + len <= size
      ensures Raw() == SetWindow(old(Raw()), idx, Min(idx + len, size), val)
    {
      for i := 0 to len
        invariant i == 0 || idx + i <= size
        invariant Raw() == SetWindow(old(Raw()), idx, idx + i, val)
      {
        var step := Set(idx + i, val);
        if step.Panics? {
          return Panics;
        }
      }
      r := Done(());
    }

    method Contains(start: nat, len: nat, val: bool) returns (r: Outcome<bool>)
      requires Valid()
      ensures r == ContainsIn(Bits(), start, len, val)
    {
      for i := 0 to len
        invariant ContainsIn(Bits(), start, len, val) == ContainsIn(Bits(), start + i, len - i, val)
      {
        var bit := Test(start + i);
        if bit.Panics? {
          return Panics;
        }
        if bit.value == val {
          return Done(true);
        }
      }
      r := Done(false);
    }

    method Find(start: nat, len: nat, val: bool) returns (r: FindResult)
      requires Valid()
      ensures r == FindIn(Bits(), start, len, val)
    {
      var i := start;
      while i < size
        invariant FindIn(Bits(), start, len, val) == FindIn(Bits(), i, len, val)
      {
        var hit := Contains(i, len, !val);
        if hit.Panics? {
          return AssertFails;
        }
        if !hit.value {
          return Found(i);
        }
        i := i + 1;
      }
      r := NotFound;
    }

    /** Whether a window lies in the map and is set throughout; panics if a set run leaves the map. */
    method All(start: nat, len: nat) returns (r: Outcome<bool>)
      requires Valid()
      ensures r == Done(true) <==> len == 0 || Window(Bits(), start, len, true)
      ensures r == Done(false) <==> exists i :: start <= i < start + len && i < size && !Bits()[i]
    {
      var hit := Contains(start, len, false);
      ContainsExact(Bits(), start, len, false);
      assert forall i :: 0 <= i < size ==> (Bits()[i] == false <==> !Bits()[i]);
      if hit.Panics? {
        return Panics;
      }
      r := Done(!hit.value);
    }

    method Any(start: nat, len: nat) returns (r: Outcome<bool>)
      requires Valid()
      ensures r == Done(false) <==> len == 0 || Window(Bits(), start, len, false)
      ensures r == Done(true) <==> exists i :: start <= i < start + len && i < size && Bits()[i]
    {
      r := Contains(start, len, true);
      ContainsExact(Bits(), start, len, true);
    }
  }
}
