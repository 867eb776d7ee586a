/**
 `Bitmap`: a dynamically sized, owning pixel surface (loaded images and glyph
 atlases) following the page addressing law.  It allocates `width * height`
 bytes, eight times what the pixels need, and every operation works on that
 whole range.  Values are immutable here, so a copy can never share storage
 with its original.
 */
module Bitmaps {
  import opened Bits
  import opened PageLayout

  datatype Bitmap = Bitmap(width: UInt8, height: UInt8, data: seq<bv8>)

  /** Bytes a bitmap allocates: one per pixel, not one per eight pixels. */
  function Size(width: UInt8, height: UInt8): nat
  {
    width * height
  }

  /** The buffer has the allocated size. */
  predicate Valid(b: Bitmap)
  {
    |b.data| == Size(b.width, b.height)
  }

  /** `Bitmap(width, height, filled)`: all bytes 0xFF when filled, else 0x00. */
  function New(width: UInt8, height: UInt8, filled: bool := false): (b: Bitmap)
    ensures Valid(b)
    ensures b.width == width && b.height == height
    ensures Uniform(b.data, filled)
  {
    Bitmap(width, height, Blank(Size(width, height), filled))
  }

  /** `Bitmap(width, height, data)`: copies the first `width * height` source bytes. */
  function FromData(width: UInt8, height: UInt8, src: seq<bv8>): (b: Bitmap)
    requires |src| >= Size(width, height)
    ensures Valid(b)
    ensures b.width == width && b.height == height
    ensures forall i | 0 <= i < Size(width, height) :: b.data[i] == src[i]
  {
    Bitmap(width, height, src[..Size(width, height)])
  }

  /** The copy constructor: same width, height and bytes. */
  function Copy(b: Bitmap): (c: Bitmap)
    requires Valid(b)
    ensures Valid(c)
    ensures c.width == b.width && c.height == b.height
    ensures forall i | 0 <= i < |b.data| :: c.data[i] == b.data[i]
  {
    FromData(b.width, b.height, b.data)
  }

  /** `fill()`: every bit of the allocated range set, dimensions kept. */
  function Fill(b: Bitmap): (r: Bitmap)
    requires Valid(b)
    ensures Valid(r) && r.width == b.width && r.height == b.height
    ensures Uniform(r.data, true)
  {
    b.(data := Blank(Size(b.width, b.height), true))
  }

  /** `clear()`: every bit of the allocated range cleared, dimensions kept. */
  function Clear(b: Bitmap): (r: Bitmap)
    requires Valid(b)
    ensures Valid(r) && r.width == b.width && r.height == b.height
    ensures Uniform(r.data, false)
  {
    b.(data := Blank(Size(b.width, b.height), false))
  }

  /** `draw_pixel(x, y)`: sets bit `y % 8` of byte `x + (y / 8) * width`, nothing else. */
  function DrawPixel(b: Bitmap, x: UInt8, y: UInt8): (r: Bitmap)
    requires Valid(b) && InBuffer(b.data, b.width, x, y)
    ensures Valid(r) && r.width == b.width && r.height == b.height
    ensures forall i, k | 0 <= i < |r.data| && 0 <= k < 8 ::
      BitAt(r.data, i, k) == ((i == ByteIndex(b.width, x, y) && k == y % 8) || BitAt(b.data, i, k))
  {
    b.(data := SetPixel(b.data, b.width, x, y))
  }

  /** `erase_pixel(x, y)`: clears bit `y % 8` of byte `x + (y / 8) * width`, nothing else. */
  function ErasePixel(b: Bitmap, x: UInt8, y: UInt8): (r: Bitmap)
    requires Valid(b) && InBuffer(b.data, b.width, x, y)
    ensures Valid(r) && r.width == b.width && r.height == b.height
    ensures forall i, k | 0 <= i < |r.data| && 0 <= k < 8 ::
      BitAt(r.data, i, k) == (!(i == ByteIndex(b.width, x, y) && k == y % 8) && BitAt(b.data, i, k))
  {
    b.(data := ClearPixel(b.data, b.width, x, y))
  }

  /** Every pixel inside the bitmap's dimensions lies in its buffer. */
  lemma PixelInBuffer(b: Bitmap, x: nat, y: nat)
    requires Valid(b) && x < b.width && y < b.height
    ensures InBuffer(b.data, b.width, x, y)
  {
    assert y / 8 + 1 <= b.height;
    MulMono(y / 8 + 1, b.height, b.width);
  }

  /** Pixel (x, y) of the bitmap, read as `draw_bitmap` reads it. */
  predicate PixelOn(b: Bitmap, x: nat, y: nat)
    requires Valid(b) && x < b.width && y < b.height
  {
    PixelInBuffer(b, x, y);
    Lit(b.data, b.width, x, y)
  }

  /** Constructing from a bitmap's own bytes rebuilds that bitmap. */
  lemma FromDataRoundTrip(b: Bitmap)
    requires Valid(b)
    ensures FromData(b.width, b.height, b.data) == b
  {
  }
}
