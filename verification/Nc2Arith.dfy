/** The space arithmetic of the netchannel2 producer (inc/vring.h). */
module Nc2Arith {
  import opened Word32

  const TWO16: int := 0x1_0000

  /** A ring size: a power of two that fits an unsigned word and holds an aligned message. */
  ghost predicate RingBytes(r: int) {
    IsPow2(r) && 8 <= r <= 0x8000_0000
  }

  /** Does [pvt, pvt + n) reach or pass the end of the ring?  The mask is ~(r - 1). */
  predicate WouldWrap(pvt: Word, n: nat, r: Word)
    requires r > 0
  {
    var mask := TWO32 - r;
    BitAnd(pvt, mask) != BitAnd(Plus(pvt, n), mask)
  }

  /** Bytes from pvt to the end of the ring, cut to 16 bits as the return type does. */
  function PadNeeded(pvt: Word, r: Word): nat
    requires r > 0
  {
    Minus(r, SlotOf(pvt, r)) % TWO16
  }

  /** What the space check asks for, in the 16-bit variable it adds the pad to. */
  function Need(pvt: Word, n: nat, r: Word): nat
    requires r > 0
  {
    if WouldWrap(pvt, n, r) then (n + PadNeeded(pvt, r)) % TWO16 else n
  }

  function Space(pvt: Word, cons: Word, r: Word): Word {
    Minus(r, Minus(pvt, cons))
  }

  /** What is really needed at count p: the message, and the pad up to the ring's end when the
      message would reach that end. */
  function TrueNeed(p: nat, n: nat, r: nat): (t: nat)
    requires r > 0
    ensures n <= t <= 2 * n
  {
    if Off(p, r) + n >= r then n + (r - Off(p, r)) else n
  }

  lemma {:induction false} OffOfSum(p: nat, n: nat, r: nat)
    requires r > 0 && Off(p, r) + n < r
    ensures Off(p + n, r) == Off(p, r) + n
  {
    if p < r {
    } else {
      OffOfSum(p - r, n, r);
    }
  }

  lemma {:induction false} OffAtEnd(p: nat, r: nat)
    requires r > 0
    ensures Off(p + (r - Off(p, r)), r) == 0
  {
    if p < r {
    } else {
      OffAtEnd(p - r, r);
    }
  }

  lemma {:induction false} OffAligned(p: nat, r: nat)
    requires r > 0 && r % 8 == 0
    ensures Off(p, r) % 8 == p % 8
  {
    if p < r {
    } else {
      OffAligned(p - r, r);
      AddAligned(p - r, r);
    }
  }

  lemma AddAligned(a: int, b: int)
    requires b % 8 == 0
    ensures (a + b) % 8 == a % 8
  {}

  lemma {:induction false} BaseOfSum(p: nat, n: nat, r: nat)
    requires r > 0
    ensures 0 <= (p + n - Off(p + n, r)) - (p - Off(p, r)) <= n + r
    ensures (p + n) - Off(p + n, r) == p - Off(p, r) <==> Off(p, r) + n < r
  {
    if p >= r {
      BaseOfSum(p - r, n, r);
    } else if p + n >= r {
      BaseAtLeast(p + n, r);
    }
  }

  lemma {:induction false} BaseAtLeast(p: nat, r: nat)
    requires 0 < r <= p
    ensures p - Off(p, r) >= r
  {
    if p - r < r {
    } else {
      BaseAtLeast(p - r, r);
    }
  }

  lemma BitAndEven(x: nat, h: nat)
    ensures BitAnd(x, 2 * h) == 2 * BitAnd(x / 2, h)
  {
    assert (2 * h) / 2 == h;
  }

  /** The mask high - low clears what is below `low`. */
  predicate MasksBelow(x: nat, low: nat, high: nat)
    requires 0 < low <= high
  {
    BitAnd(x, high - low) == x - x % low
  }

  lemma {:induction false} HighMask(x: nat, k: nat, m: nat)
    requires k <= m && x < Pow2(m)
    ensures Pow2(k) <= Pow2(m) && MasksBelow(x, Pow2(k), Pow2(m))
  {
    hide MasksBelow;
    if k == 0 {
      FullMask(x, m);
    } else {
      HighMask(x / 2, k - 1, m - 1);
      HighMaskStep(x, Pow2(k - 1), Pow2(m - 1));
    }
  }

  lemma FullMask(x: nat, m: nat)
    requires x < Pow2(m)
    ensures MasksBelow(x, 1, Pow2(m))
  {
    MaskIsRemainder(x, m);
    DivModUnique(x, Pow2(m), 0, x);
  }

  lemma HighMaskStep(x: nat, low: nat, high: nat)
    requires 0 < low <= high && MasksBelow(x / 2, low, high)
    ensures MasksBelow(x, 2 * low, 2 * high)
  {
    hide BitAnd;
    HalveRemainder(x, low);
    ClearLow(x, high - low, (x / 2) % low, x % (2 * low));
    assert 2 * high - 2 * low == 2 * (high - low);
  }

  lemma ClearLow(x: nat, h: nat, half: nat, whole: nat)
    requires BitAnd(x / 2, h) == x / 2 - half
    requires whole == 2 * half + x % 2
    ensures BitAnd(x, 2 * h) == x - whole
  {
    BitAndEven(x, h);
  }

  lemma PowerAtMost32(k: nat)
    requires Pow2(k) <= TWO32
    ensures k <= 32
  {
    Pow2Of32();
    if k > 32 {
      Pow2Divides(33, k);
      assert false;
    }
  }

  lemma BaseWord(p: nat, off: nat)
    requires off <= W(p)
    ensures W(p) - off == W(p - off)
  {}

  lemma RingBase(p: nat, r: nat)
    requires RingBytes(r)
    ensures BitAnd(W(p), TWO32 - r) == W(p - Off(p, r))
  {
    var k: nat :| r == Pow2(k);
    PowerAtMost32(k);
    Pow2Of32();
    HighMask(W(p), k, 32);
    SlotOfCount(p, r);
    MaskIsRemainder(W(p), k);
    BaseWord(p, Off(p, r));
  }

  /** The masked comparison says exactly that the message reaches the end of the ring. */
  lemma WouldWrapIff(p: nat, n: nat, r: nat)
    requires RingBytes(r) && n < TWO16
    ensures WouldWrap(W(p), n, r) <==> Off(p, r) + n >= r
  {
    hide BitAnd, Off, W, Plus, IsPow2;
    RingBase(p, r);
    RingBase(p + n, r);
    PlusOfCounts(p, n);
    BaseOfSum(p, n, r);
    WordsEqual((p + n) - Off(p + n, r), p - Off(p, r));
  }

  lemma PadOfCount(p: nat, r: nat)
    requires RingBytes(r)
    ensures PadNeeded(W(p), r) == (r - Off(p, r)) % TWO16
  {
    SlotOfCount(p, r);
  }

  /** The pad is never longer than the message it makes room for: hence the factor two. */
  lemma PadAtMostMessage(p: nat, n: nat, r: nat)
    requires RingBytes(r) && n < TWO16 && WouldWrap(W(p), n, r)
    ensures r - Off(p, r) <= n && PadNeeded(W(p), r) == r - Off(p, r)
  {
    WouldWrapIff(p, n, r);
    PadOfCount(p, r);
  }

  /** The 16-bit sum is the true need exactly when that need fits in 16 bits. */
  lemma NeedExactIff(p: nat, n: nat, r: nat)
    requires RingBytes(r) && n < TWO16
    ensures Need(W(p), n, r) == TrueNeed(p, n, r) <==> TrueNeed(p, n, r) < TWO16
    ensures n < 0x8000 ==> Need(W(p), n, r) == TrueNeed(p, n, r)
  {
    NeedValue(p, n, r);
    NeedArith(Off(p, r), n, r);
  }

  lemma NeedValue(p: nat, n: nat, r: nat)
    requires RingBytes(r) && n < TWO16
    ensures Need(W(p), n, r)
            == if Off(p, r) + n >= r then (n + (r - Off(p, r)) % TWO16) % TWO16 else n
  {
    WouldWrapIff(p, n, r);
    PadOfCount(p, r);
  }

  lemma NeedArith(off: nat, n: nat, r: nat)
    requires off < r <= 0x8000_0000 && n < TWO16
    ensures off + n >= r ==>
              ((n + (r - off) % TWO16) % TWO16 == n + (r - off) <==> n + (r - off) < TWO16)
  {}

  /** The check is exact at every position exactly for messages below 2^15 bytes: a longer one
      can be granted space that is not there. */
  lemma NeedExactEverywhereIff(n: nat, r: nat)
    requires RingBytes(r) && 0 < n < TWO16 && n <= r
    ensures (forall p: nat :: Need(W(p), n, r) == TrueNeed(p, n, r)) <==> n < 0x8000
  {
    if n < 0x8000 {
      forall p: nat ensures Need(W(p), n, r) == TrueNeed(p, n, r) {
        NeedExactIff(p, n, r);
      }
    } else {
      var p := r - n;
      NeedExactIff(p, n, r);
      assert Need(W(p), n, r) != TrueNeed(p, n, r);
    }
  }

  /** What the check asks for is the true need cut to 16 bits. */
  lemma NeedIsTrueNeedCut(p: nat, n: nat, r: nat)
    requires RingBytes(r) && n < TWO16
    ensures Need(W(p), n, r) == TrueNeed(p, n, r) % TWO16
  {
    hide WouldWrap, PadNeeded, Need;
    NeedValue(p, n, r);
    CutOfSum(n, r - Off(p, r));
  }

  lemma CutOfSum(n: nat, pad: nat)
    requires n < TWO16
    ensures (n + pad % TWO16) % TWO16 == (n + pad) % TWO16 && n % TWO16 == n
  {}

  ghost predicate EmptyGrants(p: nat, n: nat, r: nat)
    requires RingBytes(r)
  {
    Space(W(p), W(p), r) >= Need(W(p), n, r)
  }

  /** With every byte released, the check succeeds exactly when the need, cut to 16 bits, is within
      the ring; below 2^15 bytes, exactly outside a band of positions. */
  lemma EmptyRingGrantsIff(p: nat, n: nat, r: nat)
    requires RingBytes(r) && n < TWO16
    ensures EmptyGrants(p, n, r) <==> TrueNeed(p, n, r) % TWO16 <= r
    ensures n < 0x8000 ==> (EmptyGrants(p, n, r) <==> n <= r && !(r - n <= Off(p, r) < n))
  {
    hide Need;
    NeedIsTrueNeedCut(p, n, r);
    if n < 0x8000 { CutOfSum(TrueNeed(p, n, r), 0); }
  }

  /** An empty ring has room for the message and its pad, and the check grants them, at every
      position exactly when the message is at most half the ring. */
  lemma EmptyRingAlwaysGrantsIff(n: nat, r: nat)
    requires RingBytes(r) && 0 < n < TWO16
    ensures (forall p: nat :: TrueNeed(p, n, r) <= r && EmptyGrants(p, n, r)) <==> 2 * n <= r
    ensures n % 8 == 0 ==>
              ((forall p: nat | p % 8 == 0 :: TrueNeed(p, n, r) <= r && EmptyGrants(p, n, r)) <==> 2 * n <= r)
  {
    hide EmptyGrants;
    if 2 * n <= r {
      forall p: nat ensures TrueNeed(p, n, r) <= r && EmptyGrants(p, n, r) {
        EmptyRingGrantsIff(p, n, r);
        CutIsLess(TrueNeed(p, n, r));
      }
    } else {
      RingAligned(r);
      var p := if n <= r then r - n else 0;
      assert Off(p, r) == p && TrueNeed(p, n, r) > r;
      if n % 8 == 0 { AddAligned(p, n); }
    }
  }

  lemma CutIsLess(x: nat)
    ensures x % TWO16 <= x
  {}

  lemma RingAligned(r: nat)
    requires RingBytes(r)
    ensures r % 8 == 0
  {
    var k: nat :| r == Pow2(k);
    assert Pow2(2) == 4 && Pow2(3) == 8;
    if k < 3 {
      Pow2Divides(k, 2);
      assert false;
    }
    Pow2Divides(3, k);
  }
}
