/** How many entries a shared ring gets: the largest power of two that fits (inc/ring.h:32-46). */
module XenSizing {
  import opened Word32

  // Shifts of unsigned numbers.

  function Shl(x: nat, k: nat): nat {
    if k == 0 then x else 2 * Shl(x, k - 1)
  }

  function Shr(x: nat, k: nat): nat {
    if k == 0 then x else Shr(x / 2, k - 1)
  }

  // The __RD macros, each halving the width it looks at.

  function RD2(x: nat): nat {
    if BitAnd(x, 0x2) != 0 then 0x2 else BitAnd(x, 0x1)
  }

  function RD4(x: nat): nat {
    if BitAnd(x, 0xc) != 0 then Shl(RD2(Shr(x, 2)), 2) else RD2(x)
  }

  function RD8(x: nat): nat {
    if BitAnd(x, 0xf0) != 0 then Shl(RD4(Shr(x, 4)), 4) else RD4(x)
  }

  function RD16(x: nat): nat {
    if BitAnd(x, 0xff00) != 0 then Shl(RD8(Shr(x, 8)), 8) else RD8(x)
  }

  function RD32(x: Word): nat {
    if BitAnd(x, 0xffff_0000) != 0 then Shl(RD16(Shr(x, 16)), 16) else RD16(x)
  }

  /** p is x rounded down to a power of two. */
  ghost predicate RoundsDownTo(x: nat, p: nat) {
    if x == 0 then p == 0 else IsPow2(p) && p <= x < 2 * p
  }

  lemma {:induction false} BitAndShifted(x: nat, y: nat, k: nat)
    ensures BitAnd(x, Shl(y, k)) == Shl(BitAnd(Shr(x, k), y), k)
  {
    if k == 0 {
    } else {
      BitAndShifted(x / 2, y, k - 1);
      assert Shl(y, k) / 2 == Shl(y, k - 1) && Shl(y, k) % 2 == 0;
      if x == 0 {
        assert BitAnd(x / 2, Shl(y, k - 1)) == 0;
      }
    }
  }

  lemma {:induction false} ShlIsZeroIff(x: nat, k: nat)
    ensures Shl(x, k) == 0 <==> x == 0
  {
    if k == 0 {
    } else {
      ShlIsZeroIff(x, k - 1);
    }
  }

  lemma {:induction false} ShrBounds(x: nat, k: nat, m: nat)
    ensures Shr(x, k) >= Pow2(m) <==> x >= Pow2(k + m)
  {
    if k == 0 {
    } else {
      ShrBounds(x / 2, k - 1, m);
    }
  }

  lemma {:induction false} ShlOfPow2(j: nat, k: nat)
    ensures Shl(Pow2(j), k) == Pow2(j + k)
  {
    if k == 0 {
    } else {
      ShlOfPow2(j, k - 1);
    }
  }

  /** Of a number of 2k bits, the mask of the high k tells whether it needs them. */
  lemma HighHalf(x: nat, k: nat)
    requires x < Pow2(k + k)
    ensures BitAnd(x, Shl(Pow2(k) - 1, k)) != 0 <==> x >= Pow2(k)
    ensures Shr(x, k) < Pow2(k)
  {
    var high := Shr(x, k);
    assert Pow2(0) == 1;
    ShrBounds(x, k, k);
    ShrBounds(x, k, 0);
    BitAndShifted(x, Pow2(k) - 1, k);
    MaskIsRemainder(high, k);
    DivModUnique(high, Pow2(k), 0, high);
    ShlIsZeroIff(high, k);
  }

  /** Rounding the high half rounds the whole number. */
  lemma RoundsShifted(x: nat, k: nat, p: nat)
    requires x >= Pow2(k) && RoundsDownTo(Shr(x, k), p)
    ensures RoundsDownTo(x, Shl(p, k))
  {
    assert Pow2(0) == 1;
    ShrBounds(x, k, 0);
    var j: nat :| p == Pow2(j);
    ShlOfPow2(j, k);
    ShrBounds(x, k, j);
    ShrBounds(x, k, j + 1);
    assert Pow2(j + 1) == 2 * p && k + (j + 1) == (j + k) + 1;
    assert Pow2((j + k) + 1) == 2 * Pow2(j + k);
  }

  lemma RD2Rounds(x: nat)
    requires x < 4
    ensures RoundsDownTo(x, RD2(x))
  {
    assert Pow2(0) == 1 && Pow2(1) == 2;
    assert BitAnd(1, 2) == 0 && BitAnd(1, 1) == 1;
    assert BitAnd(2, 2) == 2 && BitAnd(3, 2) == 2;
  }

  lemma RD4Rounds(x: nat)
    requires x < Pow2(4)
    ensures RoundsDownTo(x, RD4(x))
  {
    hide RD2, RoundsDownTo, BitAnd;
    assert Pow2(2) == 4 && 0xc == Shl(3, 2);
    HighHalf(x, 2);
    if x >= 4 {
      RD2Rounds(Shr(x, 2));
      RoundsShifted(x, 2, RD2(Shr(x, 2)));
    } else {
      RD2Rounds(x);
    }
  }

  lemma RD8Rounds(x: nat)
    requires x < Pow2(8)
    ensures RoundsDownTo(x, RD8(x))
  {
    hide RD4, RoundsDownTo, BitAnd;
    assert Pow2(4) == 16 && 0xf0 == Shl(0xf, 4);
    HighHalf(x, 4);
    if x >= 16 {
      RD4Rounds(Shr(x, 4));
      RoundsShifted(x, 4, RD4(Shr(x, 4)));
    } else {
      RD4Rounds(x);
    }
  }

  lemma RD16Rounds(x: nat)
    requires x < Pow2(16)
    ensures RoundsDownTo(x, RD16(x))
  {
    hide RD8, RoundsDownTo, BitAnd;
    assert Pow2(8) == 256 && 0xff00 == Shl(0xff, 8);
    HighHalf(x, 8);
    if x >= 256 {
      RD8Rounds(Shr(x, 8));
      RoundsShifted(x, 8, RD8(Shr(x, 8)));
    } else {
      RD8Rounds(x);
    }
  }

  lemma HighMaskOf32()
    ensures Shl(0xffff, 16) == 0xffff_0000
  {
    assert Shl(0xffff, 4) == 0xf_fff0;
    assert Shl(0xffff, 8) == 0xff_ff00;
    assert Shl(0xffff, 12) == 0xfff_f000;
  }

  /** __RD32(x) is the power of two with RD <= x < 2 * RD, for every positive 32-bit x. */
  lemma RD32Rounds(x: Word)
    ensures RoundsDownTo(x, RD32(x))
  {
    hide RD16, RoundsDownTo, BitAnd, Pow2;
    Pow2Of32();
    HighMaskOf32();
    HighHalf(x, 16);
    if x >= 0x1_0000 {
      RD16Rounds(Shr(x, 16));
      RoundsShifted(x, 16, RD16(Shr(x, 16)));
    } else {
      RD16Rounds(x);
    }
  }

  lemma MulOrder(h: nat, a: nat, b: nat)
    requires a <= b
    ensures h * a <= h * b
  {
    assert h * b == h * a + h * (b - a);
  }

  lemma QuotientZero(x: nat, h: nat)
    requires h > 0
    ensures x / h == 0 <==> x < h
  {
    if x < h { DivModUnique(x, h, 0, x); }
  }

  const SRING_HEADER: nat := 64

  /** __RING_SIZE: entries of `entry` bytes in an area of `size` bytes, past the indices and the
      padding. */
  function RingSize(size: nat, entry: nat): nat
    requires SRING_HEADER <= size < TWO32 && entry > 0
  {
    RD32((size - SRING_HEADER) / entry)
  }

  ghost predicate RingEntries(n: int) {
    IsPow2(n) && 1 <= n <= 0x8000_0000
  }

  /** An area with room for one entry gets a power of two of them; they fit, and twice as many
      would not. */
  lemma RingSizeFits(size: nat, entry: nat)
    requires SRING_HEADER <= size < TWO32 && entry > 0 && SRING_HEADER + entry <= size
    ensures var n := RingSize(size, entry);
            RingEntries(n) && SRING_HEADER + n * entry <= size < SRING_HEADER + 2 * n * entry
  {
    hide RD32;
    var room := size - SRING_HEADER;
    var x := room / entry;
    RD32Rounds(x);
    QuotientZero(room, entry);
    var n := RD32(x);
    assert room == entry * x + room % entry;
    MulOrder(entry, n, x);
    MulOrder(entry, x + 1, 2 * n);
    PowerBelow32(n);
  }

  lemma PowerBelow32(n: nat)
    requires IsPow2(n) && n < TWO32
    ensures n <= 0x8000_0000
  {
    var k: nat :| n == Pow2(k);
    Pow2Of32();
    if k >= 32 {
      Pow2Divides(32, k);
      assert false;
    }
    Pow2Divides(k, 31);
  }
}
