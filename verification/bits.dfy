/**
 Fixed-width arithmetic of the driver: the wrap-around of its `uint8_t` and
 `int8_t` variables, and single-bit operations on the bytes of a pixel buffer.
 */
module Bits {

  /** A value of C's `uint8_t` (and of the target's unsigned `char`). */
  type UInt8 = n: int | 0 <= n < 256

  /** Conversion of an integer result to `uint8_t`: reduction modulo 256. */
  function U8(n: int): (r: UInt8)
    ensures 0 <= n < 256 ==> r == n
    ensures (n - r) % 256 == 0
  {
    n % 256
  }

  /** Storing a `uint8_t` intermediate does not change the final wrapped value. */
  lemma U8Absorbs(a: int, b: int)
    ensures U8(U8(a) + b) == U8(a + b)
  {
    var k := (a - U8(a)) / 256;
    assert a - U8(a) == 256 * k;
  }

  /** Conversion of an integer result to `int8_t` (two's complement wrap). */
  function I8(n: int): (r: int)
    ensures -128 <= r < 128
    ensures -128 <= n < 128 ==> r == n
    ensures (n - r) % 256 == 0
  {
    (n + 128) % 256 - 128
  }

  /** Storing an `int8_t` intermediate does not change the final wrapped value. */
  lemma I8Absorbs(a: int, b: int)
    ensures I8(I8(a) + b) == I8(a + b)
  {
    var k := (a - I8(a)) / 256;
    assert a - I8(a) == 256 * k;
    assert (I8(a) + b + 128) == (a + b + 128) - 256 * k;
  }

  lemma MulAtLeast(b: int, k: int)
    requires b > 0 && k >= 1
    ensures b * k >= b
  {
    assert b * k == b + b * (k - 1);
  }

  /** One more `b`: (a + 1) * b, written out. */
  lemma MulSucc(a: int, b: int)
    ensures (a + 1) * b == a * b + b && b * (a + 1) == b * a + b
  {
  }

  /** Division is determined by a quotient and remainder pair. */
  lemma DivUnique(a: int, b: int, q: int, r: int)
    requires b > 0 && a == b * q + r && 0 <= r < b
    ensures a / b == q && a % b == r
  {
    var q', r' := a / b, a % b;
    var k := q - q';
    assert b * k == r' - r by {
      assert b * q' + r' == b * q + r;
      assert b * q - b * q' == b * (q - q');
    }
    if k >= 1 {
      MulAtLeast(b, k);
      assert false;
    } else if k <= -1 {
      MulAtLeast(b, -k);
      assert false;
    }
  }

  /** The mask `1 << k` of bit `k`. */
  function Mask(k: nat): bv8
    requires k < 8
  {
    (1 as bv8) << k
  }

  /** Bit `k` of byte `b` is 1. */
  predicate BitSet(b: bv8, k: nat)
    requires k < 8
  {
    b & Mask(k) != 0
  }

  /** `b | (1 << k)`: sets bit `k` and no other. */
  function SetBit(b: bv8, k: nat): (r: bv8)
    requires k < 8
    ensures BitSet(r, k)
    ensures forall j | 0 <= j < 8 && j != k :: BitSet(r, j) == BitSet(b, j)
  {
    b | Mask(k)
  }

  /** `b & (0xFF - (1 << k))`: clears bit `k` and no other. */
  function ClearBit(b: bv8, k: nat): (r: bv8)
    requires k < 8
    ensures !BitSet(r, k)
    ensures forall j | 0 <= j < 8 && j != k :: BitSet(r, j) == BitSet(b, j)
  {
    assert 0xFF - Mask(k) == !Mask(k);
    b & (0xFF - Mask(k))
  }

  /** A byte is determined by its eight bits. */
  lemma ByteFromBits(a: bv8, b: bv8)
    requires forall k | 0 <= k < 8 :: BitSet(a, k) == BitSet(b, k)
    ensures a == b
  {
    assert BitSet(a, 0) == BitSet(b, 0);
    assert BitSet(a, 1) == BitSet(b, 1);
    assert BitSet(a, 2) == BitSet(b, 2);
    assert BitSet(a, 3) == BitSet(b, 3);
    assert BitSet(a, 4) == BitSet(b, 4);
    assert BitSet(a, 5) == BitSet(b, 5);
    assert BitSet(a, 6) == BitSet(b, 6);
    assert BitSet(a, 7) == BitSet(b, 7);
  }

  /** 0xFF has every bit set and 0x00 none. */
  lemma FullAndEmptyBytes(k: nat)
    requires k < 8
    ensures BitSet(0xFF, k)
    ensures !BitSet(0x00, k)
  {
  }
}
