/**
 The divisor that `pit_configure_channel` (`kernel/src/arch/x86/pic.rs`) programs into the timer.
 */
module Pit {
  import opened Machine

  const PIT_HZ: nat := 1193180

  /** The 16-bit count chosen for a frequency. */
  function Count(frequency: Word): nat {
    if frequency < 19 then 0
    else if frequency > PIT_HZ then 2
    else (PIT_HZ + frequency / 2) / frequency % 0x1_0000
  }

  /** The two bytes written to the channel's port, low byte first. */
  function CountBytes(frequency: Word): (Byte, Byte) {
    (Count(frequency) % 256, Count(frequency) / 256 % 256)
  }

  /** How many cycles the timer counts for the two bytes it was sent; zero stands for 65536. */
  function Divisor(bytes: (Byte, Byte)): nat {
    var low: nat, high: nat := bytes.0, bytes.1;
    if low + 256 * high == 0 then 0x1_0000 else low + 256 * high
  }

  function Distance(divisor: int, frequency: int): nat {
    if divisor * frequency >= 1193180 then divisor * frequency - 1193180 else 1193180 - divisor * frequency
  }

  lemma MulOrder(a: int, b: int, f: nat)
    requires a <= b
    ensures a * f <= b * f
  {
  }

  /** The remainder of the rounded division places `c * f` within half of `f` of the clock. */
  lemma Rounded(f: Word) returns (c: nat)
    requires 19 <= f <= PIT_HZ
    ensures c == (PIT_HZ + f / 2) / f && 1 <= c < 0x1_0000 && c == Count(f)
    ensures PIT_HZ + f / 2 - f < c * f <= PIT_HZ + f / 2
  {
    var n := PIT_HZ + f / 2;
    c := n / f;
    assert n == c * f + n % f;
    if c < 1 {
      MulOrder(c, 0, f);
    }
    if c >= 0x1_0000 {
      MulOrder(0x1_0000, c, f);
    }
  }

  /** Every 16-bit count other than zero survives the two bytes. */
  lemma BytesKeepCount(f: Word)
    requires 1 <= Count(f) < 0x1_0000
    ensures Divisor(CountBytes(f)) == Count(f)
  {
    hide Count;
  }

  /** No other multiple of `f` is nearer to the clock than one that is within half of `f`. */
  lemma NearestMultiple(c: int, f: nat, other: int)
    requires PIT_HZ + f / 2 - f < c * f <= PIT_HZ + f / 2
    ensures Distance(c, f) <= f / 2 && Distance(c, f) <= Distance(other, f)
  {
    if other > c {
      MulOrder(c + 1, other, f);
      assert (c + 1) * f == c * f + f;
    } else if other < c {
      MulOrder(other, c - 1, f);
      assert (c - 1) * f == c * f - f;
    }
  }

  /** For every frequency from 19 Hz up to the clock, the timer is sent the divisor nearest to the exact
      quotient: no integer comes closer, and none of it is lost in the two bytes. */
  lemma DivisorIsNearest(f: Word, other: int)
    requires 19 <= f <= 1193180
    ensures Divisor(CountBytes(f)) == Count(f)
    ensures Distance(Count(f), f) <= f / 2
    ensures Distance(Count(f), f) <= Distance(other, f)
  {
    hide Count, CountBytes, Divisor, Distance;
    var c := Rounded(f);
    BytesKeepCount(f);
    NearestMultiple(c, f, other);
  }

  /** Outside that range the timer runs at its slowest, or at half the clock. */
  lemma DivisorOutOfRange(f: Word)
    ensures f < 19 ==> Divisor(CountBytes(f)) == 0x1_0000
    ensures f > 1193180 ==> Divisor(CountBytes(f)) == 2
  {
  }

  lemma QuotientAtLeast(n: nat, f: nat, c: nat)
    requires f > 0 && c * f <= n
    ensures c <= n / f
  {
    assert n < (n / f + 1) * f;
    if n / f < c {
      MulOrder(n / f + 1, c, f);
    }
  }

  /** A higher frequency never gets a larger divisor. */
  lemma DivisorIsMonotone(f: Word, g: Word)
    requires 19 <= f <= g <= PIT_HZ
    ensures Count(g) <= Count(f)
  {
    var c := Rounded(g);
    var d := Rounded(f);
    MulOrder(1, c, g - f);
    assert c * g == c * f + c * (g - f);
    QuotientAtLeast(PIT_HZ + f / 2, f, c);
  }

  /** The comment in the source calls a count of 1 illegal in mode 2 and means to avoid it. The rounding
      does produce it, exactly for the frequencies above two thirds of the clock. */
  lemma CountOneExactly(f: Word)
    ensures Count(f) == 1 <==> 795454 <= f <= 1193180
  {
    if 19 <= f <= PIT_HZ {
      var c := Rounded(f);
      if c >= 2 {
        MulOrder(2, c, f);
      }
    }
  }
}
