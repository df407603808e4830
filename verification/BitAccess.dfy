/**
 The `BitAccess` trait: shift-pair extraction and masked insertion of bit fields, for any
 width `w`. The functions follow the shifts and masks of the source; the lemmas say what
 they mean in div/mod arithmetic and bit by bit.
 */
module BitAccess {
  import opened Machine
  import opened Bits

  datatype Bound = Included(value: Word) | Excluded(value: Word) | Unbounded
  datatype Range = Range(start: nat, end: nat)

  /** The half-open range a pair of bounds denotes; `value + 1` is 32-bit arithmetic. */
  function ToRegularRange(profile: Profile, lo: Bound, hi: Bound, w: Word): Outcome<Range> {
    var start :- match lo {
                   case Excluded(value) => Add(profile, U32_LIMIT, value, 1)
                   case Included(value) => Done(value as nat)
                   case Unbounded => Done(0)
                 };
    var end :- match hi {
                 case Excluded(value) => Done(value as nat)
                 case Included(value) => Add(profile, U32_LIMIT, value, 1)
                 case Unbounded => Done(w as nat)
               };
    Done(Range(start, end))
  }

  /** The three range assertions of `get_bits` and `set_bits`. */
  predicate InWidth(r: Range, w: nat) {
    r.start < w && r.end <= w && r.start < r.end
  }

  function GetBit(w: nat, x: nat, bit: nat): Outcome<bool> {
    if bit < w then Done(And(x, Shl(w, 1, bit)) != 0) else Panics
  }

  function SetBit(w: nat, x: nat, bit: nat, value: bool): Outcome<nat> {
    if bit >= w then Panics
    else if value then Done(Or(x, Shl(w, 1, bit)))
    else
      Done(And(x, Not(w, Shl(w, 1, bit))))
  }

  function GetRange(w: nat, x: nat, r: Range): Outcome<nat> {
    if !InWidth(r, w) then Panics
    else
      var bits := Shr(w, Shl(w, x, w - r.end), w - r.end);
      Done(Shr(w, bits, r.start))
  }

  function GetBits(profile: Profile, w: Word, x: nat, lo: Bound, hi: Bound): Outcome<nat> {
    var r :- ToRegularRange(profile, lo, hi, w);
    GetRange(w, x, r)
  }

  /** The ones of the field, as `set_bits` shifts them into place before the outer complement. */
  function FieldMask(w: nat, r: Range): (mask: nat)
    requires InWidth(r, w)
    ensures mask < Pow2(w)
  {
    var ones := Pow2(w) - 1;
    Shl(w, Shr(w, Shr(w, Shl(w, ones, w - r.end), w - r.end), r.start), r.start)
  }

  function SetRange(w: nat, x: nat, r: Range, value: nat): Outcome<nat> {
    if !InWidth(r, w) then Panics
    else
      var spare := w - (r.end - r.start);
      if Shr(w, Shl(w, value, spare), spare) != value then Panics
      else Done(Or(And(x, Not(w, FieldMask(w, r))), Shl(w, value, r.start)))
  }

  function SetBits(profile: Profile, w: Word, x: nat, lo: Bound, hi: Bound, value: nat): Outcome<nat> {
    var r :- ToRegularRange(profile, lo, hi, w);
    SetRange(w, x, r, value)
  }

  // ---------- bounds ----------

  /** The end of the range that the upper bound denotes, without overflow. */
  function EndOf(hi: Bound, w: Word): nat {
    match hi
    case Excluded(value) => value
    case Included(value) => value + 1
    case Unbounded => w
  }

  /** Bit `i` lies between two bounds. */
  predicate Admits(lo: Bound, hi: Bound, w: Word, i: nat) {
    && (match lo
        case Included(value) => value <= i
        case Excluded(value) => value < i
        case Unbounded => true)
    && (match hi
        case Included(value) => i <= value
        case Excluded(value) => i < value
        case Unbounded => i < w)
  }

  /** The range that two bounds denote holds the bits between them; only adding one to the largest `usize` can
      panic, in a debug build. */
  lemma RangeMeaning(profile: Profile, lo: Bound, hi: Bound, w: Word)
    ensures var overflow := lo == Excluded(0xffff_ffff) || hi == Included(0xffff_ffff);
            && (ToRegularRange(profile, lo, hi, w).Panics? <==> overflow && profile.Debug?)
            && (!overflow ==> var r := ToRegularRange(profile, lo, hi, w).value;
                              forall i: nat :: r.start <= i < r.end <==> Admits(lo, hi, w, i))
  {
  }

  /** So a field is read exactly if there is a bit between the bounds and none outside the width, and bit `j` of
      what is read is the `j`-th of those between the bounds. */
  lemma GetBitsMeaning(profile: Profile, w: Word, x: nat, lo: Bound, hi: Bound, first: nat)
    requires lo != Excluded(0xffff_ffff) && hi != Included(0xffff_ffff)
    requires Admits(lo, hi, w, first) && (first > 0 ==> !Admits(lo, hi, w, first - 1))
    ensures GetBits(profile, w, x, lo, hi).Done? <==> forall i: nat :: Admits(lo, hi, w, i) ==> i < w
    ensures GetBits(profile, w, x, lo, hi).Done? ==>
              forall j: nat :: Bit(GetBits(profile, w, x, lo, hi).value, j) ==
                               (Admits(lo, hi, w, first + j) && Bit(x, first + j))
  {
    hide GetRange, Bit;
    RangeMeaning(profile, lo, hi, w);
    var r := ToRegularRange(profile, lo, hi, w).value;
    GetRangeIsDivMod(w, x, r);
    assert r.start == first;
    assert Admits(lo, hi, w, r.end - 1);
  }

  /** Likewise for writing: the value has to fit, and goes to the bits between the bounds and no others. */
  lemma SetBitsMeaning(profile: Profile, w: Word, x: nat, lo: Bound, hi: Bound, value: nat, first: nat, last: nat)
    requires lo != Excluded(0xffff_ffff) && hi != Included(0xffff_ffff) && x < Pow2(w) && first <= last
    requires forall i: nat :: Admits(lo, hi, w, i) <==> first <= i <= last
    ensures SetBits(profile, w, x, lo, hi, value).Done? <==> last < w && value < Pow2(last + 1 - first)
    ensures SetBits(profile, w, x, lo, hi, value).Done? ==>
              forall i: nat :: Bit(SetBits(profile, w, x, lo, hi, value).value, i) ==
                               if Admits(lo, hi, w, i) then Bit(value, i - first) else Bit(x, i)
  {
    hide SetRange, Bit, Pow2;
    RangeMeaning(profile, lo, hi, w);
    var r := ToRegularRange(profile, lo, hi, w).value;
    assert Admits(lo, hi, w, first) && Admits(lo, hi, w, last);
    assert Admits(lo, hi, w, r.start) && Admits(lo, hi, w, r.end - 1);
    assert r.start == first && r.end == last + 1;
    SetRangeBits(w, x, r, value);
  }

  /** The build profile matters for exactly one kind of range: a start bound that excludes the largest
      `usize`. A debug build panics on it; a release build wraps the start to 0 and reads the field below
      the end as if the range had started there. */
  lemma ProfilesAgree(w: Word, x: nat, lo: Bound, hi: Bound)
    requires w >= 1
    ensures GetBits(Debug, w, x, lo, hi) == GetBits(Release, w, x, lo, hi) <==>
            !(lo == Excluded(U32_LIMIT - 1) && 1 <= EndOf(hi, w) <= w)
    ensures lo == Excluded(U32_LIMIT - 1) && 1 <= EndOf(hi, w) <= w ==>
              GetBits(Release, w, x, lo, hi) == Done(x % Pow2(EndOf(hi, w)))
  {
    hide Shl, Shr, High, Low, Pow2;
    if lo == Excluded(U32_LIMIT - 1) && 1 <= EndOf(hi, w) <= w {
      GetRangeIsDivMod(w, x, Range(0, EndOf(hi, w)));
      assert Pow2(0) == 1 by { Pow2Zero(); }
    }
  }

  /** So it does for writing: a release build writes every value that fits there into the bits below the end. */
  lemma SetProfilesAgree(w: Word, x: nat, lo: Bound, hi: Bound, value: nat)
    requires w >= 1 && x < Pow2(w)
    ensures SetBits(Debug, w, x, lo, hi, value) == SetBits(Release, w, x, lo, hi, value) <==>
            !(lo == Excluded(U32_LIMIT - 1) && 1 <= EndOf(hi, w) <= w && value < Pow2(EndOf(hi, w)))
    ensures lo == Excluded(U32_LIMIT - 1) && 1 <= EndOf(hi, w) <= w && value < Pow2(EndOf(hi, w)) ==>
              && SetBits(Release, w, x, lo, hi, value).Done?
              && var y := SetBits(Release, w, x, lo, hi, value).value;
                 y / Pow2(EndOf(hi, w)) == x / Pow2(EndOf(hi, w)) && y % Pow2(EndOf(hi, w)) == value
  {
    hide SetRange, Pow2;
    if lo == Excluded(U32_LIMIT - 1) && 1 <= EndOf(hi, w) <= w {
      var r := Range(0, EndOf(hi, w));
      SetRangeDone(w, x, r, value);
      if value < Pow2(EndOf(hi, w)) {
        SetRangeArithmetic(w, x, r, value);
        assert Pow2(0) == 1 by { Pow2Zero(); }
      }
    } else {
      SetAgreesElsewhere(w, x, lo, hi, value);
    }
  }

  lemma SetAgreesElsewhere(w: Word, x: nat, lo: Bound, hi: Bound, value: nat)
    requires w >= 1 && !(lo == Excluded(U32_LIMIT - 1) && 1 <= EndOf(hi, w) <= w)
    ensures SetBits(Debug, w, x, lo, hi, value) == SetBits(Release, w, x, lo, hi, value)
  {
  }

  /** The two forms of range that the kernel writes, `a..b` and `a..=b`, mean what they say in both profiles. */
  lemma KernelBounds(profile: Profile, w: Word, x: nat, a: Word, b: Word, value: nat)
    requires b + 1 < U32_LIMIT
    ensures GetBits(profile, w, x, Included(a), Excluded(b)) == GetRange(w, x, Range(a, b))
    ensures GetBits(profile, w, x, Included(a), Included(b)) == GetRange(w, x, Range(a, b + 1))
    ensures SetBits(profile, w, x, Included(a), Excluded(b), value) == SetRange(w, x, Range(a, b), value)
    ensures SetBits(profile, w, x, Included(a), Included(b), value) == SetRange(w, x, Range(a, b + 1), value)
  {
    hide GetRange, SetRange;
  }

  lemma Pow2Zero()
    ensures Pow2(0) == 1
  {
  }

  // ---------- single bits ----------

  lemma GetBitMeaning(w: nat, x: nat, bit: nat)
    ensures GetBit(w, x, bit) == if bit < w then Done(Bit(x, bit)) else Panics
  {
    if bit < w {
      MaskTests(w, x, bit);
    }
  }

  /** Setting one bit sets that bit, keeps every other one and stays in the width. */
  lemma SetBitMeaning(w: nat, x: nat, bit: nat, value: bool)
    requires x < Pow2(w)
    ensures SetBit(w, x, bit, value).Done? <==> bit < w
    ensures bit < w ==> SetBit(w, x, bit, value).value < Pow2(w)
    ensures bit < w ==> forall i: nat ::
              Bit(SetBit(w, x, bit, value).value, i) == if i == bit then value else Bit(x, i)
  {
    if bit < w {
      var y := SetBit(w, x, bit, value).value;
      var m := Shl(w, 1, bit);
      forall i: nat
        ensures Bit(y, i) == if i == bit then value else Bit(x, i)
      {
        BitOfMask(w, bit, i);
        BitOfOr(x, m, i);
        BitOfNot(w, m, i);
        BitOfAnd(x, Not(w, m), i);
        if w <= i {
          NoBitsAbove(w, x, i);
        }
      }
      OrFits(w, x, m);
      AndFits(w, x, Not(w, m));
    }
  }

  // ---------- fields ----------

  /** Shifting up and back down by `w - n` keeps the low `n` bits. */
  lemma ShiftPairIsLow(w: nat, x: nat, n: nat)
    requires 1 <= n <= w
    ensures Shr(w, Shl(w, x, w - n), w - n) == Low(x, n)
  {
    var y := Shr(w, Shl(w, x, w - n), w - n);
    forall i: nat
      ensures Bit(y, i) == Bit(Low(x, n), i)
    {
      BitOfShr(w, Shl(w, x, w - n), w - n, i);
      BitOfShl(w, x, w - n, i + (w - n));
      BitOfLow(x, n, i);
    }
    SameBits(y, Low(x, n));
  }

  /** `get_bits` is `(x mod 2^end) div 2^start`, and panics exactly on a range outside the width. */
  lemma GetRangeIsDivMod(w: nat, x: nat, r: Range)
    ensures GetRange(w, x, r).Done? <==> r.start < r.end <= w
    ensures InWidth(r, w) ==> GetRange(w, x, r).value == x % Pow2(r.end) / Pow2(r.start)
    ensures InWidth(r, w) ==> GetRange(w, x, r).value < Pow2(r.end - r.start)
    ensures InWidth(r, w) ==> forall i: nat ::
              Bit(GetRange(w, x, r).value, i) == (i < r.end - r.start && Bit(x, i + r.start))
  {
    if InWidth(r, w) {
      var y := GetRange(w, x, r).value;
      ShiftPairIsLow(w, x, r.end);
      forall i: nat
        ensures Bit(y, i) == (i < r.end - r.start && Bit(x, i + r.start))
      {
        BitOfShr(w, Low(x, r.end), r.start, i);
        BitOfLow(x, r.end, i + r.start);
      }
      FitsWhenNoBitsAbove(r.end - r.start, y);
      HighLowAreDivMod(x, r.end);
      HighLowAreDivMod(Low(x, r.end), r.start);
    }
  }

  lemma BitOfFieldMask(w: nat, r: Range, i: nat)
    requires InWidth(r, w)
    ensures Bit(FieldMask(w, r), i) == (r.start <= i < r.end)
  {
    var ones := Pow2(w) - 1;
    ShiftPairIsLow(w, ones, r.end);
    var low := Low(ones, r.end);
    BitOfShl(w, Shr(w, low, r.start), r.start, i);
    if r.start <= i {
      BitOfShr(w, low, r.start, i - r.start);
      BitOfLow(ones, r.end, i);
      BitOfOnes(w, i);
    }
  }

  lemma SetRangeDone(w: nat, x: nat, r: Range, value: nat)
    ensures SetRange(w, x, r, value).Done? <==> r.start < r.end <= w && value < Pow2(r.end - r.start)
  {
    if InWidth(r, w) {
      ShiftPairIsLow(w, value, r.end - r.start);
      LowKeepsIffFits(value, r.end - r.start);
    }
  }

  /** `set_bits` replaces exactly the bits of the field; it panics exactly when the range leaves
      the width or the value does not fit the field. */
  lemma SetRangeBits(w: nat, x: nat, r: Range, value: nat)
    requires x < Pow2(w)
    ensures SetRange(w, x, r, value).Done? <==> r.start < r.end <= w && value < Pow2(r.end - r.start)
    ensures SetRange(w, x, r, value).Done? ==>
              && SetRange(w, x, r, value).value < Pow2(w)
              && forall i: nat :: Bit(SetRange(w, x, r, value).value, i) ==
                                  if r.start <= i < r.end then Bit(value, i - r.start) else Bit(x, i)
  {
    SetRangeDone(w, x, r, value);
    if InWidth(r, w) && value < Pow2(r.end - r.start) {
      forall i: nat
        ensures Bit(SetRange(w, x, r, value).value, i) ==
                if r.start <= i < r.end then Bit(value, i - r.start) else Bit(x, i)
      {
        InsertedBit(w, x, r, value, i);
      }
      AndFits(w, x, Not(w, FieldMask(w, r)));
      OrFits(w, And(x, Not(w, FieldMask(w, r))), Shl(w, value, r.start));
    }
  }

  lemma InsertedBit(w: nat, x: nat, r: Range, value: nat, i: nat)
    requires InWidth(r, w) && x < Pow2(w) && value < Pow2(r.end - r.start)
    ensures Bit(Or(And(x, Not(w, FieldMask(w, r))), Shl(w, value, r.start)), i) ==
            if r.start <= i < r.end then Bit(value, i - r.start) else Bit(x, i)
  {
    var mask := Not(w, FieldMask(w, r));
    BitOfOr(And(x, mask), Shl(w, value, r.start), i);
    BitOfAnd(x, mask, i);
    BitOfNot(w, FieldMask(w, r), i);
    BitOfFieldMask(w, r, i);
    BitOfShl(w, value, r.start, i);
    if r.end <= i {
      NoBitsAbove(r.end - r.start, value, i - r.start);
    }
    if w <= i {
      NoBitsAbove(w, x, i);
    }
  }

  /** The same insertion in arithmetic: what lies above and below the field is kept. */
  lemma SetRangeArithmetic(w: nat, x: nat, r: Range, value: nat)
    requires x < Pow2(w) && InWidth(r, w) && value < Pow2(r.end - r.start)
    ensures SetRange(w, x, r, value).Done?
    ensures var y := SetRange(w, x, r, value).value;
            && y / Pow2(r.end) == x / Pow2(r.end)
            && y % Pow2(r.end) / Pow2(r.start) == value
            && y % Pow2(r.start) == x % Pow2(r.start)
  {
    SetThenGet(w, x, r, value);
    var y := SetRange(w, x, r, value).value;
    GetRangeIsDivMod(w, y, r);
    SetRangeBits(w, x, r, value);
    SameAbove(x, y, r.end);
    SameBelow(x, y, r.start);
    HighLowAreDivMod(x, r.end);
    HighLowAreDivMod(y, r.end);
    HighLowAreDivMod(x, r.start);
    HighLowAreDivMod(y, r.start);
  }

  lemma SameAbove(x: nat, y: nat, k: nat)
    requires forall i: nat :: k <= i ==> Bit(x, i) == Bit(y, i)
    ensures High(x, k) == High(y, k)
  {
    forall i: nat
      ensures Bit(High(x, k), i) == Bit(High(y, k), i)
    {
      BitOfHigh(x, k, i);
      BitOfHigh(y, k, i);
    }
    SameBits(High(x, k), High(y, k));
  }

  lemma SameBelow(x: nat, y: nat, k: nat)
    requires forall i: nat :: i < k ==> Bit(x, i) == Bit(y, i)
    ensures Low(x, k) == Low(y, k)
  {
    forall i: nat
      ensures Bit(Low(x, k), i) == Bit(Low(y, k), i)
    {
      BitOfLow(x, k, i);
      BitOfLow(y, k, i);
    }
    SameBits(Low(x, k), Low(y, k));
  }

  lemma SetThenGet(w: nat, x: nat, r: Range, value: nat)
    requires x < Pow2(w) && InWidth(r, w) && value < Pow2(r.end - r.start)
    ensures SetRange(w, x, r, value).Done?
    ensures GetRange(w, SetRange(w, x, r, value).value, r) == Done(value)
  {
    SetRangeBits(w, x, r, value);
    var y := SetRange(w, x, r, value).value;
    GetRangeIsDivMod(w, y, r);
    var z := GetRange(w, y, r).value;
    forall i: nat
      ensures Bit(z, i) == Bit(value, i)
    {
      if r.end - r.start <= i {
        NoBitsAbove(r.end - r.start, value, i);
      }
    }
    SameBits(z, value);
  }

  /** Writing back what was read changes nothing. */
  lemma GetThenSet(w: nat, x: nat, r: Range)
    requires x < Pow2(w) && InWidth(r, w)
    ensures GetRange(w, x, r).Done?
    ensures SetRange(w, x, r, GetRange(w, x, r).value) == Done(x)
  {
    GetRangeIsDivMod(w, x, r);
    var v := GetRange(w, x, r).value;
    SetRangeBits(w, x, r, v);
    SameBits(SetRange(w, x, r, v).value, x);
  }

  /** Writes to disjoint ranges commute. */
  lemma DisjointSetsCommute(w: nat, x: nat, r: Range, v: nat, r': Range, v': nat)
    requires x < Pow2(w) && InWidth(r, w) && InWidth(r', w)
    requires v < Pow2(r.end - r.start) && v' < Pow2(r'.end - r'.start)
    requires r.end <= r'.start || r'.end <= r.start
    ensures SetRange(w, x, r, v).Done? && SetRange(w, x, r', v').Done?
    ensures SetRange(w, SetRange(w, x, r, v).value, r', v') == SetRange(w, SetRange(w, x, r', v').value, r, v)
  {
    SetRangeBits(w, x, r, v);
    SetRangeBits(w, x, r', v');
    var a, b := SetRange(w, x, r, v).value, SetRange(w, x, r', v').value;
    SetRangeBits(w, a, r', v');
    SetRangeBits(w, b, r, v);
    SameBits(SetRange(w, a, r', v').value, SetRange(w, b, r, v).value);
  }

  /** The top field of a word, shifted back into its place, is the word without the bits below the field. */
  lemma TopFieldInPlace(w: nat, x: nat, k: nat)
    requires k < w && x < Pow2(w)
    ensures GetRange(w, x, Range(k, w)).Done?
    ensures Shl(w, GetRange(w, x, Range(k, w)).value, k) == x - Low(x, k)
  {
    ShiftPairIsLow(w, x, w);
    LowKeepsIffFits(x, w);
    assert GetRange(w, x, Range(k, w)) == Done(High(x, k));
    HighLowSplit(x, k);
    LowKeepsIffFits(High(x, k) * Pow2(k), w);
  }

  /** A number is the part above a field, the field, and the part below it. */
  lemma SplitAtField(x: nat, s: nat, e: nat)
    requires s <= e
    ensures x == High(x, e) * Pow2(e) + High(Low(x, e), s) * Pow2(s) + Low(x, s)
  {
    HighLowSplit(x, e);
    HighLowSplit(Low(x, e), s);
    LowLow(x, s, e);
  }

  /** The value after an insertion: the old field is taken out and the new one put in. */
  lemma SetRangeValue(w: nat, x: nat, r: Range, value: nat)
    requires x < Pow2(w) && InWidth(r, w) && value < Pow2(r.end - r.start)
    ensures SetRange(w, x, r, value).Done?
    ensures SetRange(w, x, r, value).value + High(Low(x, r.end), r.start) * Pow2(r.start) == x + value * Pow2(r.start)
  {
    SetThenGet(w, x, r, value);
    SetRangeBits(w, x, r, value);
    var y := SetRange(w, x, r, value).value;
    ShiftPairIsLow(w, y, r.end);
    assert High(Low(y, r.end), r.start) == value;
    SameAbove(x, y, r.end);
    SameBelow(x, y, r.start);
    SplitAtField(x, r.start, r.end);
    SplitAtField(y, r.start, r.end);
  }

  /** A field read with the powers of two given as numbers. */
  lemma FieldValue(x: nat, s: nat, e: nat, ps: nat, pe: nat)
    requires ps == Pow2(s) && pe == Pow2(e)
    ensures High(Low(x, e), s) == x % pe / ps
  {
    HighLowAreDivMod(x, e);
    HighLowAreDivMod(Low(x, e), s);
  }

  /** Writing a field, with the powers of two given as numbers. */
  lemma SetFieldValue(w: nat, x: nat, r: Range, value: nat, ps: nat, pe: nat)
    requires x < Pow2(w) && InWidth(r, w) && value < Pow2(r.end - r.start)
    requires ps == Pow2(r.start) && pe == Pow2(r.end)
    ensures SetRange(w, x, r, value).Done?
    ensures SetRange(w, x, r, value).value == x - x % pe / ps * ps + value * ps
  {
    FieldValue(x, r.start, r.end, ps, pe);
    SetRangeValue(w, x, r, value);
  }

  lemma GetRangeValue(w: nat, x: nat, r: Range, ps: nat, pe: nat)
    requires InWidth(r, w) && ps == Pow2(r.start) && pe == Pow2(r.end)
    ensures GetRange(w, x, r) == Done(x % pe / ps)
  {
    GetRangeIsDivMod(w, x, r);
  }

  lemma GetBitValue(w: nat, x: nat, bit: nat, p: nat)
    requires bit < w && p == Pow2(bit)
    ensures GetBit(w, x, bit) == Done(x / p % 2 == 1)
  {
    GetBitMeaning(w, x, bit);
    BitOfHigh(x, bit, 0);
    HighLowAreDivMod(x, bit);
  }

  /** A single bit is a field of width one. */
  lemma SetBitIsSetRange(w: nat, x: nat, bit: nat, value: bool)
    requires x < Pow2(w) && bit < w
    ensures SetBit(w, x, bit, value) == SetRange(w, x, Range(bit, bit + 1), if value then 1 else 0)
  {
    SetBitMeaning(w, x, bit, value);
    var v := if value then 1 else 0;
    assert Pow2(1) == 2;
    SetRangeBits(w, x, Range(bit, bit + 1), v);
    assert Bit(v, 0) == value;
    SameBits(SetBit(w, x, bit, value).value, SetRange(w, x, Range(bit, bit + 1), v).value);
  }

  /** Masking with the complement of `k` ones clears the low `k` bits. */
  lemma ClearLowBits(w: nat, x: nat, k: nat)
    requires k <= w && x < Pow2(w) && Pow2(k) <= Pow2(w)
    ensures And(x, Not(w, Pow2(k) - 1)) == x - Low(x, k)
  {
    var y := High(x, k) * Pow2(k);
    HighLowSplit(x, k);
    forall i: nat
      ensures Bit(And(x, Not(w, Pow2(k) - 1)), i) == Bit(y, i)
    {
      BitOfAnd(x, Not(w, Pow2(k) - 1), i);
      BitOfNot(w, Pow2(k) - 1, i);
      BitOfOnes(k, i);
      BitOfMul(High(x, k), k, i);
      if k <= i {
        BitOfHigh(x, k, i - k);
      }
      if w <= i {
        NoBitsAbove(w, x, i);
      }
    }
    SameBits(And(x, Not(w, Pow2(k) - 1)), y);
  }

  /** Masking with `k` ones keeps the low `k` bits. */
  lemma MaskIsLow(x: nat, k: nat)
    ensures And(x, Pow2(k) - 1) == Low(x, k)
  {
  }

  /** Joining two parts that share no bit position adds them. */
  lemma JoinParts(w: nat, hi: nat, lo: nat, k: nat)
    requires k < w && lo < Pow2(k)
    ensures Or(Shl(w, hi, k), lo) == Low(hi, w - k) * Pow2(k) + lo
  {
    var x := Low(hi, w - k) * Pow2(k) + lo;
    DivUnique(x, Pow2(k), Low(hi, w - k), lo);
    HighLowAreDivMod(x, k);
    forall i: nat
      ensures Bit(Or(Shl(w, hi, k), lo), i) == Bit(x, i)
    {
      BitOfOr(Shl(w, hi, k), lo, i);
      BitOfShl(w, hi, k, i);
      if i < k {
        BitOfLow(x, k, i);
      } else {
        NoBitsAbove(k, lo, i);
        BitOfHigh(x, k, i - k);
        BitOfLow(hi, w - k, i - k);
      }
    }
    SameBits(Or(Shl(w, hi, k), lo), x);
  }
}
