/** The block arithmetic of the archive: unsigned 64-bit sums and the rounding mask. */
module Blocks {

  const BLOCK_SIZE: nat := 8192
  const TWO_TO_THE_63: nat := 0x8000_0000_0000_0000
  const TWO_TO_THE_64: nat := 0x1_0000_0000_0000_0000

  /** Bitwise conjunction of two natural numbers. */
  function BitAnd(a: nat, b: nat): nat
    decreases a
  {
    if a == 0 then 0 else 2 * BitAnd(a / 2, b / 2) + (a % 2) * (b % 2)
  }

  /** Bitwise complement of a 64-bit word. */
  function BitNot(a: nat): nat
    requires a < TWO_TO_THE_64
  {
    TWO_TO_THE_64 - 1 - a
  }

  /** `(size + A_BLOCKSIZE - 1) & ~(A_BLOCKSIZE - 1)` on unsigned 64-bit words. */
  function RoundUp(size: nat): nat {
    BitAnd((size + BLOCK_SIZE - 1) % TWO_TO_THE_64, BitNot(BLOCK_SIZE - 1))
  }

  /** The number of bytes in the blocks that `size` bytes occupy. */
  function Occupied(size: nat): nat {
    (size + BLOCK_SIZE - 1) / BLOCK_SIZE * BLOCK_SIZE
  }

  function Pow2(k: nat): nat {
    if k == 0 then 1 else 2 * Pow2(k - 1)
  }

  lemma {:induction false} AndOnes(a: nat, k: nat)
    requires a < Pow2(k)
    ensures BitAnd(a, Pow2(k) - 1) == a
    decreases k
  {
    if a != 0 {
      assert (Pow2(k) - 1) / 2 == Pow2(k - 1) - 1 && (Pow2(k) - 1) % 2 == 1;
      AndOnes(a / 2, k - 1);
    }
  }

  /** A mask whose low `k` bits are clear cuts exactly those bits off. */
  lemma {:induction false} AndHigh(a: nat, k: nat, m: nat)
    requires a < Pow2(k) * Pow2(m)
    ensures BitAnd(a, Pow2(k) * (Pow2(m) - 1)) == a / Pow2(k) * Pow2(k)
    decreases k
  {
    var p, q := Pow2(k), Pow2(m) - 1;
    if k == 0 {
      AndOnes(a, m);
      assert p * q == q;
    } else {
      var h := Pow2(k - 1);
      HalveProduct(h, q);
      HalveBound(a, h, q + 1);
      AndHigh(a / 2, k - 1, m);
      DivideTwice(a, h);
      if a != 0 {
        assert BitAnd(a, p * q) == 2 * (a / 2 / h * h);
        DoubleProduct(a / p, h);
      } else {
        ZeroOver(p);
      }
    }
  }

  lemma {:induction false} HalveProduct(h: nat, q: nat)
    ensures (2 * h) * q == 2 * (h * q)
    ensures ((2 * h) * q) / 2 == h * q && ((2 * h) * q) % 2 == 0
  {
    assert (2 * h) * q == 2 * (h * q);
  }

  lemma {:induction false} HalveBound(a: nat, h: nat, r: nat)
    requires a < (2 * h) * r
    ensures a / 2 < h * r
  {
    HalveProduct(h, r);
  }

  lemma {:induction false} DoubleProduct(x: nat, h: nat)
    ensures 2 * (x * h) == x * (2 * h)
  {
  }

  lemma {:induction false} ZeroOver(p: nat)
    requires p > 0
    ensures 0 / p * p == 0
  {
  }

  lemma {:induction false} DivideTwice(a: nat, h: nat)
    requires h > 0
    ensures a / 2 / h == a / (2 * h)
  {
    var x, y, z := a / 2, a / 2 / h, a / (2 * h);
    var r, s := x % h, a % (2 * h);
    assert x == y * h + r;
    assert a == z * (2 * h) + s;
    DoubleProduct(y, h);
    DoubleProduct(z, h);
    assert a == y * (2 * h) + (2 * r + a % 2);
    QuotientUnique(a, 2 * h, y, 2 * r + a % 2, z, s);
  }

  lemma {:induction false} QuotientUnique(a: int, d: int, q: int, r: int, q': int, r': int)
    requires d > 0 && a == q * d + r && a == q' * d + r' && 0 <= r < d && 0 <= r' < d
    ensures q == q'
  {
    var e := q - q';
    assert e * d == r' - r;
    assert e >= 1 ==> e * d >= d;
    assert e <= -1 ==> e * d <= -d;
  }

  /** The masked 64-bit form is ceiling division wherever the addition does not wrap. */
  lemma {:induction false} RoundUpIsOccupied(size: nat)
    requires size + BLOCK_SIZE - 1 < TWO_TO_THE_64
    ensures RoundUp(size) == Occupied(size)
    ensures size <= RoundUp(size) <= size + BLOCK_SIZE - 1
    ensures RoundUp(size) % BLOCK_SIZE == 0
  {
    hide BitAnd, Pow2;
    Powers();
    AndHigh(size + BLOCK_SIZE - 1, 13, 51);
  }

  lemma {:induction false} Powers()
    ensures Pow2(13) == BLOCK_SIZE
    ensures Pow2(51) == 0x8_0000_0000_0000
    ensures BitNot(BLOCK_SIZE - 1) == Pow2(13) * (Pow2(51) - 1)
    ensures TWO_TO_THE_64 == Pow2(13) * Pow2(51)
  {
    assert Pow2(10) == 1024;
    assert Pow2(20) == 0x10_0000;
    assert Pow2(30) == 0x4000_0000;
    assert Pow2(40) == 0x100_0000_0000;
  }

  /** `(json_int_t) size`: an unsigned word read as a signed one. */
  function ToSigned(word: nat): int
    requires word < TWO_TO_THE_64
  {
    if word < TWO_TO_THE_63 then word else word - TWO_TO_THE_64
  }

  /** `(size_t) value`: a signed word read as an unsigned one. */
  function ToUnsigned(value: int): nat {
    value % TWO_TO_THE_64
  }

  /** A size written to the index and read back is the same 64-bit word. */
  lemma {:induction false} SizeSurvives(word: nat)
    requires word < TWO_TO_THE_64
    ensures ToUnsigned(ToSigned(word)) == word
    ensures 0 - (TWO_TO_THE_63 as int) <= ToSigned(word) < TWO_TO_THE_63
  {
  }

  lemma {:induction false} OccupiedMonotone(a: nat, b: nat)
    requires a <= b
    ensures a <= Occupied(a) <= Occupied(b)
  {
  }
}
