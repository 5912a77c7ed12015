/** 32-bit unsigned words, the way the C sources use them for ring indices.

    An index is modelled twice: as the word the program holds, and as the unbounded
    count it stands for. `W` maps the count to the word. */
module Word32 {

  const TWO32: int := 0x1_0000_0000

  type Word = x: int | 0 <= x < TWO32

  type Byte = b: int | 0 <= b < 256

  function W(i: int): Word {
    i % TWO32
  }

  function Plus(a: Word, b: int): Word {
    (a + b) % TWO32
  }

  function Minus(a: Word, b: Word): Word {
    (a - b) % TWO32
  }

  lemma MinusOfCounts(a: int, b: int)
    requires 0 <= a - b < TWO32
    ensures Minus(W(a), W(b)) == a - b
  {}

  lemma PlusOfCounts(a: int, b: int)
    ensures Plus(W(a), b) == W(a + b)
  {}

  lemma WordsEqual(a: int, b: int)
    requires -TWO32 < a - b < TWO32
    ensures W(a) == W(b) <==> a == b
  {}

  /** Bitwise conjunction of two naturals, one binary digit at a time. */
  function BitAnd(x: nat, y: nat): (r: nat)
    ensures r <= x && r <= y
  {
    if x == 0 || y == 0 then 0
    else 2 * BitAnd(x / 2, y / 2) + (if x % 2 == 1 && y % 2 == 1 then 1 else 0)
  }

  function Pow2(k: nat): nat
    ensures Pow2(k) >= 1
  {
    if k == 0 then 1 else 2 * Pow2(k - 1)
  }

  ghost predicate IsPow2(n: int) {
    exists k: nat :: n == Pow2(k)
  }

  /** Masking with a power of two minus one is the remainder. */
  lemma {:induction false} MaskIsRemainder(x: nat, k: nat)
    ensures BitAnd(x, Pow2(k) - 1) == x % Pow2(k)
  {
    if k == 0 {
    } else if x == 0 {
    } else {
      var h := Pow2(k - 1);
      MaskIsRemainder(x / 2, k - 1);
      assert (Pow2(k) - 1) / 2 == h - 1 && (Pow2(k) - 1) % 2 == 1;
      HalveRemainder(x, h);
      if h - 1 == 0 {
        assert BitAnd(x / 2, 0) == 0;
      }
    }
  }

  lemma HalveRemainder(x: nat, h: nat)
    requires h >= 1
    ensures x % (2 * h) == 2 * ((x / 2) % h) + x % 2
  {
    var q := (x / 2) / h;
    assert x / 2 == h * q + (x / 2) % h;
    assert x == (2 * h) * q + (2 * ((x / 2) % h) + x % 2);
    DivModUnique(x, 2 * h, q, 2 * ((x / 2) % h) + x % 2);
  }

  lemma DivModUnique(x: int, m: int, q: int, r: int)
    requires m > 0 && x == m * q + r && 0 <= r < m
    ensures x / m == q && x % m == r
  {
    var q', r' := x / m, x % m;
    assert x == m * q' + r';
    if q' > q {
      MulMono(m, q' - q);
    } else if q' < q {
      MulMono(m, q - q');
    }
  }

  lemma MulMono(m: int, d: int)
    requires m > 0 && d >= 1
    ensures m * d >= m
  {
    if d > 1 {
      MulMono(m, d - 1);
    }
  }

  /** Two distinct counts less than one ring apart fall on different slots. */
  lemma SlotsDiffer(a: int, b: int, n: int)
    requires n > 0 && a < b < a + n
    ensures a % n != b % n
  {
    if a % n == b % n {
      var d := b / n - a / n;
      assert b - a == n * d;
      if d >= 1 {
        MulMono(n, d);
      } else if d < 0 {
        MulMono(n, -d);
      }
    }
  }

  lemma AddMultiple(a: int, n: int, q: int)
    requires n > 0
    ensures (a + n * q) % n == a % n
  {
    DivModUnique(a + n * q, n, a / n + q, a % n);
  }

  /** A power of two up to 2^32 divides 2^32, so wrapping a count keeps its slot. */
  lemma {:induction false} Pow2Divides(k: nat, m: nat)
    requires k <= m
    ensures Pow2(m) % Pow2(k) == 0
    ensures Pow2(k) <= Pow2(m)
  {
    if k == m {
      DivModUnique(Pow2(m), Pow2(k), 1, 0);
    } else {
      Pow2Divides(k, m - 1);
      var q := Pow2(m - 1) / Pow2(k);
      assert Pow2(m) == Pow2(k) * (2 * q);
      DivModUnique(Pow2(m), Pow2(k), 2 * q, 0);
    }
  }

  lemma Pow2Of32()
    ensures Pow2(32) == TWO32
    ensures Pow2(31) == 0x8000_0000
    ensures Pow2(16) == 0x1_0000
  {
    assert Pow2(8) == 256;
    assert Pow2(16) == 256 * Pow2(8) by { assert Pow2(12) == 16 * Pow2(8); }
    assert Pow2(24) == 256 * Pow2(16) by { assert Pow2(20) == 16 * Pow2(16); }
    assert Pow2(32) == 256 * Pow2(24) by { assert Pow2(28) == 16 * Pow2(24); }
  }

  lemma Pow2UpTo32(n: int)
    requires IsPow2(n) && n <= TWO32
    ensures n > 0 && TWO32 % n == 0
  {
    var k: nat :| n == Pow2(k);
    Pow2Of32();
    if k > 32 {
      Pow2Divides(33, k);
      assert false;
    }
    Pow2Divides(k, 32);
  }

  lemma WrapKeepsSlot(i: int, n: int)
    requires n > 0 && TWO32 % n == 0
    ensures W(i) % n == i % n
  {
    var c, q := TWO32 / n, i / TWO32;
    assert i == W(i) + TWO32 * q;
    assert TWO32 * q == n * (c * q) by {
      assert TWO32 == n * c;
      MulAssoc(n, c, q);
    }
    AddMultiple(W(i), n, c * q);
  }

  lemma MulAssoc(a: int, b: int, c: int)
    ensures (a * b) * c == a * (b * c)
  {}

  /** The slot a program computes by masking the wrapped word is the slot of the count. */
  lemma MaskedSlot(i: int, n: int)
    requires IsPow2(n) && n <= TWO32
    ensures BitAnd(W(i), n - 1) == i % n
  {
    Pow2UpTo32(n);
    WrapKeepsSlot(i, n);
    var k: nat :| n == Pow2(k);
    MaskIsRemainder(W(i), k);
  }

  /** The offset of a byte count in a ring of r bytes. */
  function Off(p: nat, r: nat): (o: nat)
    requires r > 0
    ensures o < r && o <= p
  {
    if p < r then p else Off(p - r, r)
  }

  lemma {:induction false} OffIsRemainder(p: nat, r: nat)
    requires r > 0
    ensures Off(p, r) == p % r
  {
    if p < r {
      DivModUnique(p, r, 0, p);
    } else {
      OffIsRemainder(p - r, r);
      AddMultiple(p - r, r, 1);
    }
  }

  /** Two counts less than one ring apart lie at different offsets. */
  lemma OffsDiffer(a: nat, b: nat, r: nat)
    requires r > 0 && a < b < a + r
    ensures Off(a, r) != Off(b, r)
  {
    SlotsDiffer(a, b, r);
    OffIsRemainder(a, r);
    OffIsRemainder(b, r);
  }

  /** The offset a program computes by masking a word with the ring's size minus one. */
  function SlotOf(index: Word, n: Word): Word
    requires n > 0
  {
    BitAnd(index, n - 1)
  }

  /** It is the offset of the count the word stands for. */
  lemma SlotOfCount(p: nat, n: nat)
    requires IsPow2(n) && n <= 0x8000_0000
    ensures n > 0 && SlotOf(W(p), n) == Off(p, n)
  {
    MaskedSlot(p, n);
    Pow2UpTo32(n);
    OffIsRemainder(p, n);
  }
}
