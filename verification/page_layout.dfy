/**
 The addressing law shared by every pixel surface of the driver: a surface of
 width `w` stores pixel (x, y) in bit `y % 8` of byte `x + (y / 8) * w`, a
 lit pixel being a 1 bit.  Bytes of one "page" hold eight vertically stacked
 pixels, which is the layout the display controller's memory uses.
 */
module PageLayout {
  import opened Bits

  /** Byte that holds pixel (x, y) on a surface of the given width. */
  function ByteIndex(width: nat, x: nat, y: nat): nat
  {
    x + (y / 8) * width
  }

  /** The byte of pixel (x, y) lies inside `data`. */
  predicate InBuffer(data: seq<bv8>, width: nat, x: nat, y: nat)
  {
    ByteIndex(width, x, y) < |data|
  }

  /** Bit `k` of byte `i` of the buffer. */
  predicate BitAt(data: seq<bv8>, i: nat, k: nat)
    requires i < |data| && k < 8
  {
    BitSet(data[i], k)
  }

  /** Pixel (x, y) is lit. */
  predicate Lit(data: seq<bv8>, width: nat, x: nat, y: nat)
    requires InBuffer(data, width, x, y)
  {
    BitAt(data, ByteIndex(width, x, y), y % 8)
  }

  /** Every bit of the buffer equals `on`. */
  predicate Uniform(data: seq<bv8>, on: bool)
  {
    forall i, k | 0 <= i < |data| && 0 <= k < 8 :: BitAt(data, i, k) == on
  }

  /** `n` copies of one byte value, as `std::fill` writes them. */
  function Repeat(n: nat, b: bv8): (r: seq<bv8>)
    ensures |r| == n
    ensures forall i | 0 <= i < n :: r[i] == b
  {
    seq(n, _ => b)
  }

  /** The buffer `fill()` or `clear()` leaves: every bit equals `on`. */
  function Blank(n: nat, on: bool): (r: seq<bv8>)
    ensures |r| == n
    ensures Uniform(r, on)
  {
    var b: bv8 := if on then 0xFF else 0x00;
    forall i, k | 0 <= i < n && 0 <= k < 8 ensures BitAt(Repeat(n, b), i, k) == on {
      FullAndEmptyBytes(k);
    }
    Repeat(n, b)
  }

  /** `draw_pixel`: sets the pixel's bit, every other bit of the buffer is kept. */
  function SetPixel(data: seq<bv8>, width: nat, x: nat, y: nat): (r: seq<bv8>)
    requires InBuffer(data, width, x, y)
    ensures |r| == |data|
    ensures forall i, k | 0 <= i < |r| && 0 <= k < 8 ::
      BitAt(r, i, k) == ((i == ByteIndex(width, x, y) && k == y % 8) || BitAt(data, i, k))
  {
    var i := ByteIndex(width, x, y);
    data[i := SetBit(data[i], y % 8)]
  }

  /** `erase_pixel`: clears the pixel's bit, every other bit of the buffer is kept. */
  function ClearPixel(data: seq<bv8>, width: nat, x: nat, y: nat): (r: seq<bv8>)
    requires InBuffer(data, width, x, y)
    ensures |r| == |data|
    ensures forall i, k | 0 <= i < |r| && 0 <= k < 8 ::
      BitAt(r, i, k) == (!(i == ByteIndex(width, x, y) && k == y % 8) && BitAt(data, i, k))
  {
    var i := ByteIndex(width, x, y);
    data[i := ClearBit(data[i], y % 8)]
  }

  /**
   Writes pixel (x, y) as `on` when its byte is inside the buffer.  Writes
   outside the buffer are undefined behaviour in the driver; here they leave
   the buffer as it was.
   */
  function PutPixel(data: seq<bv8>, width: nat, x: nat, y: nat, on: bool): (r: seq<bv8>)
    ensures |r| == |data|
  {
    if !InBuffer(data, width, x, y) then data
    else if on then SetPixel(data, width, x, y)
    else ClearPixel(data, width, x, y)
  }

  /** The effect of one pixel write on one bit of the buffer, wherever the write lands. */
  lemma PutPixelBit(data: seq<bv8>, width: nat, x: nat, y: nat, on: bool, b: nat, k: nat)
    requires b < |data| && k < 8
    ensures BitAt(PutPixel(data, width, x, y, on), b, k)
      == if ByteIndex(width, x, y) == b && y % 8 == k then on else BitAt(data, b, k)
  {
  }

  /** Two buffers with the same bits are equal. */
  lemma BuffersFromBits(a: seq<bv8>, b: seq<bv8>)
    requires |a| == |b|
    requires forall i, k | 0 <= i < |a| && 0 <= k < 8 :: BitAt(a, i, k) == BitAt(b, i, k)
    ensures a == b
  {
    forall i | 0 <= i < |a| ensures a[i] == b[i] {
      forall k | 0 <= k < 8 ensures BitSet(a[i], k) == BitSet(b[i], k) {
        assert BitAt(a, i, k) == BitAt(b, i, k);
      }
      ByteFromBits(a[i], b[i]);
    }
  }

  lemma MulMono(a: nat, b: nat, w: nat)
    requires a <= b
    ensures a * w <= b * w
  {
  }

  /**
   On a surface of width `w`, distinct pixels with x < w have distinct
   (byte, bit) addresses: the addressing law is injective there.
   */
  lemma AddressInjective(width: nat, x: nat, y: nat, x': nat, y': nat)
    requires x < width && x' < width
    requires ByteIndex(width, x, y) == ByteIndex(width, x', y') && y % 8 == y' % 8
    ensures x == x' && y == y'
  {
    var p, p' := y / 8, y' / 8;
    if p < p' {
      MulMono(p + 1, p', width);
      assert false;
    } else if p' < p {
      MulMono(p' + 1, p, width);
      assert false;
    }
    assert y == 8 * p + y % 8 && y' == 8 * p' + y' % 8;
  }

  /** The effect of one pixel write on one pixel of the surface's visible columns. */
  lemma PutPixelAt(data: seq<bv8>, width: nat, x: nat, y: nat, on: bool, px: nat, py: nat)
    requires x < width && InBuffer(data, width, x, y)
    requires px < width && InBuffer(data, width, px, py)
    ensures Lit(PutPixel(data, width, x, y, on), width, px, py)
      == if px == x && py == y then on else Lit(data, width, px, py)
  {
    if ByteIndex(width, x, y) == ByteIndex(width, px, py) && y % 8 == py % 8 {
      AddressInjective(width, x, y, px, py);
    }
  }

  /**
   The effect of one pixel write on every pixel of the surface's visible
   columns: the written pixel takes the new value, every other keeps its own.
   */
  lemma PutPixelEffect(data: seq<bv8>, width: nat, x: nat, y: nat, on: bool)
    requires x < width && InBuffer(data, width, x, y)
    ensures forall px: nat, py: nat | px < width && InBuffer(data, width, px, py) ::
      Lit(PutPixel(data, width, x, y, on), width, px, py)
        == if px == x && py == y then on else Lit(data, width, px, py)
  {
    forall px: nat, py: nat | px < width && InBuffer(data, width, px, py)
      ensures Lit(PutPixel(data, width, x, y, on), width, px, py)
        == if px == x && py == y then on else Lit(data, width, px, py)
    {
      PutPixelAt(data, width, x, y, on, px, py);
    }
  }

  /** `draw_pixel` is idempotent. */
  lemma SetPixelIdempotent(data: seq<bv8>, width: nat, x: nat, y: nat)
    requires InBuffer(data, width, x, y)
    ensures SetPixel(SetPixel(data, width, x, y), width, x, y) == SetPixel(data, width, x, y)
  {
    var once := SetPixel(data, width, x, y);
    BuffersFromBits(SetPixel(once, width, x, y), once);
  }

  /** `erase_pixel` is idempotent. */
  lemma ClearPixelIdempotent(data: seq<bv8>, width: nat, x: nat, y: nat)
    requires InBuffer(data, width, x, y)
    ensures ClearPixel(ClearPixel(data, width, x, y), width, x, y) == ClearPixel(data, width, x, y)
  {
    var once := ClearPixel(data, width, x, y);
    BuffersFromBits(ClearPixel(once, width, x, y), once);
  }

  /** Of a draw followed by an erase of one pixel, the erase decides the result. */
  lemma ClearAfterSet(data: seq<bv8>, width: nat, x: nat, y: nat)
    requires InBuffer(data, width, x, y)
    ensures ClearPixel(SetPixel(data, width, x, y), width, x, y) == ClearPixel(data, width, x, y)
  {
    BuffersFromBits(ClearPixel(SetPixel(data, width, x, y), width, x, y), ClearPixel(data, width, x, y));
  }

  /** Of an erase followed by a draw of one pixel, the draw decides the result. */
  lemma SetAfterClear(data: seq<bv8>, width: nat, x: nat, y: nat)
    requires InBuffer(data, width, x, y)
    ensures SetPixel(ClearPixel(data, width, x, y), width, x, y) == SetPixel(data, width, x, y)
  {
    BuffersFromBits(SetPixel(ClearPixel(data, width, x, y), width, x, y), SetPixel(data, width, x, y));
  }
}
