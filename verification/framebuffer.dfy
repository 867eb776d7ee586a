/**
 `FrameBuffer<WIDTH, HEIGHT>`: the fixed-size pixel surface behind the live
 display, `WIDTH * (HEIGHT / 8)` bytes under the page addressing law, and its
 opaque sub-rectangle blit from a `Bitmap`.
 */
module FrameBuffers {
  import opened Bits
  import opened PageLayout
  import Bitmaps

  datatype FrameBuffer = FrameBuffer(width: UInt8, height: UInt8, data: seq<bv8>)

  /** Bytes of a WIDTH x HEIGHT frame buffer: one per column per page of eight rows. */
  function Size(width: UInt8, height: UInt8): nat
  {
    width * (height / 8)
  }

  predicate Valid(fb: FrameBuffer)
  {
    |fb.data| == Size(fb.width, fb.height)
  }

  /** `FrameBuffer(filled)`: every bit set when filled, every bit clear otherwise. */
  function New(width: UInt8, height: UInt8, filled: bool := false): (fb: FrameBuffer)
    ensures Valid(fb)
    ensures fb.width == width && fb.height == height
    ensures Uniform(fb.data, filled)
  {
    FrameBuffer(width, height, Blank(Size(width, height), filled))
  }

  /** `get_data()`: the raw page-packed bytes. */
  function GetData(fb: FrameBuffer): (data: seq<bv8>)
    ensures Valid(fb) ==> |data| == Size(fb.width, fb.height)
  {
    fb.data
  }

  /** `FrameBuffer(data)`: copies `WIDTH * (HEIGHT / 8)` bytes, which `get_data` returns. */
  function FromData(width: UInt8, height: UInt8, src: seq<bv8>): (fb: FrameBuffer)
    requires |src| >= Size(width, height)
    ensures Valid(fb)
    ensures fb.width == width && fb.height == height
    ensures GetData(fb) == src[..Size(width, height)]
  {
    FrameBuffer(width, height, src[..Size(width, height)])
  }

  /** Building a frame buffer from another's `get_data` yields an equal frame buffer. */
  lemma GetDataRoundTrip(fb: FrameBuffer)
    requires Valid(fb)
    ensures FromData(fb.width, fb.height, GetData(fb)) == fb
  {
  }

  /** `fill()`: every bit set. */
  function Fill(fb: FrameBuffer): (r: FrameBuffer)
    requires Valid(fb)
    ensures Valid(r) && r.width == fb.width && r.height == fb.height
    ensures Uniform(r.data, true)
  {
    fb.(data := Blank(Size(fb.width, fb.height), true))
  }

  /** `clear()`: every bit clear. */
  function Clear(fb: FrameBuffer): (r: FrameBuffer)
    requires Valid(fb)
    ensures Valid(r) && r.width == fb.width && r.height == fb.height
    ensures Uniform(r.data, false)
  {
    fb.(data := Blank(Size(fb.width, fb.height), false))
  }

  /** `draw_pixel(x, y)`: sets bit `y % 8` of byte `x + (y / 8) * WIDTH`, nothing else. */
  function DrawPixel(fb: FrameBuffer, x: UInt8, y: UInt8): (r: FrameBuffer)
    requires Valid(fb) && InBuffer(fb.data, fb.width, x, y)
    ensures Valid(r) && r.width == fb.width && r.height == fb.height
    ensures forall i, k | 0 <= i < |r.data| && 0 <= k < 8 ::
      BitAt(r.data, i, k) == ((i == ByteIndex(fb.width, x, y) && k == y % 8) || BitAt(fb.data, i, k))
  {
    fb.(data := SetPixel(fb.data, fb.width, x, y))
  }

  /** `erase_pixel(x, y)`: clears bit `y % 8` of byte `x + (y / 8) * WIDTH`, nothing else. */
  function ErasePixel(fb: FrameBuffer, x: UInt8, y: UInt8): (r: FrameBuffer)
    requires Valid(fb) && InBuffer(fb.data, fb.width, x, y)
    ensures Valid(r) && r.width == fb.width && r.height == fb.height
    ensures forall i, k | 0 <= i < |r.data| && 0 <= k < 8 ::
      BitAt(r.data, i, k) == (!(i == ByteIndex(fb.width, x, y) && k == y % 8) && BitAt(fb.data, i, k))
  {
    fb.(data := ClearPixel(fb.data, fb.width, x, y))
  }

  /**
   Iterations of `for (cur = start; cur < limit && cur < start + size; cur++)`:
   the part of [start, start + size) below `limit`.
   */
  function ClipExtent(start: nat, size: nat, limit: nat): (n: nat)
    ensures n > 0 ==> start + n <= limit
    ensures n <= size
    ensures n == size || start + n == limit || (n == 0 && start >= limit)
  {
    if start >= limit then 0
    else if start + size <= limit then size
    else limit - start
  }

  /** Rectangle membership: x <= px < x + w and y <= py < y + h. */
  predicate InRect(x: int, y: int, w: int, h: int, px: int, py: int)
  {
    x <= px < x + w && y <= py < y + h
  }

  /** Pixel (px, py) is inside the complete pages of a surface of `pages` pages. */
  predicate Visible(width: nat, pages: nat, px: nat, py: nat)
  {
    px < width && py < 8 * pages
  }

  lemma VisibleInBuffer(data: seq<bv8>, width: nat, pages: nat, px: nat, py: nat)
    requires |data| == width * pages && Visible(width, pages, px, py)
    ensures InBuffer(data, width, px, py)
  {
    MulMono(py / 8 + 1, pages, width);
  }

  /**
   The inner loop of `draw_bitmap` for source column `mapX + i`: rows
   `mapY + j .. mapY + ch - 1` go to destination column `x + i` (as uint8),
   destination row `y + j` (as uint8), lit or cleared as the source bit says.
   */
  function BlitRows(data: seq<bv8>, width: UInt8, x: UInt8, y: UInt8, bmp: Bitmaps.Bitmap,
                    mapX: nat, mapY: nat, i: nat, j: nat, ch: nat): (r: seq<bv8>)
    requires Bitmaps.Valid(bmp) && mapX + i < bmp.width && j <= ch && (j < ch ==> mapY + ch <= bmp.height)
    ensures |r| == |data|
    decreases ch - j
  {
    if j == ch then data
    else
      var on := Bitmaps.PixelOn(bmp, mapX + i, mapY + j);
      BlitRows(PutPixel(data, width, U8(x + i), U8(y + j), on), width, x, y, bmp, mapX, mapY, i, j + 1, ch)
  }

  /** The outer loop of `draw_bitmap`: source columns `mapX + i .. mapX + cw - 1`. */
  function BlitColumns(data: seq<bv8>, width: UInt8, x: UInt8, y: UInt8, bmp: Bitmaps.Bitmap,
                       mapX: nat, mapY: nat, i: nat, cw: nat, ch: nat): (r: seq<bv8>)
    requires Bitmaps.Valid(bmp) && i <= cw && (i < cw ==> mapX + cw <= bmp.width)
    requires ch > 0 ==> mapY + ch <= bmp.height
    ensures |r| == |data|
    decreases cw - i
  {
    if i == cw then data
    else BlitColumns(BlitRows(data, width, x, y, bmp, mapX, mapY, i, 0, ch), width, x, y, bmp, mapX, mapY, i + 1, cw, ch)
  }

  /**
   `draw_bitmap(x, y, map_x, map_y, map_width, map_height, bitmap)`: copies the
   source rectangle, clipped to the bitmap, onto the surface at (x, y), drawing
   set source bits and erasing clear ones.
   */
  function DrawBitmap(fb: FrameBuffer, x: UInt8, y: UInt8, mapX: UInt8, mapY: UInt8,
                      mapWidth: UInt8, mapHeight: UInt8, bmp: Bitmaps.Bitmap): (r: FrameBuffer)
    requires Valid(fb) && Bitmaps.Valid(bmp)
    ensures Valid(r) && r.width == fb.width && r.height == fb.height
  {
    var cw := ClipExtent(mapX, mapWidth, bmp.width);
    var ch := ClipExtent(mapY, mapHeight, bmp.height);
    fb.(data := BlitColumns(fb.data, fb.width, x, y, bmp, mapX, mapY, 0, cw, ch))
  }

  lemma {:induction false} BlitRowsEffect(data: seq<bv8>, width: UInt8, pages: nat, x: UInt8, y: UInt8,
                                         bmp: Bitmaps.Bitmap, mapX: nat, mapY: nat, i: nat, j: nat, ch: nat)
    requires Bitmaps.Valid(bmp) && mapX + i < bmp.width && j <= ch && (j < ch ==> mapY + ch <= bmp.height)
    requires |data| == width * pages && x + i < width && y + ch <= 8 * pages <= 256
    ensures forall px: nat, py: nat | px < width && InBuffer(data, width, px, py) ::
      Lit(BlitRows(data, width, x, y, bmp, mapX, mapY, i, j, ch), width, px, py)
        == if px == x + i && y + j <= py < y + ch then Bitmaps.PixelOn(bmp, mapX + i, mapY + py - y)
           else Lit(data, width, px, py)
    decreases ch - j
  {
    if j < ch {
      var on := Bitmaps.PixelOn(bmp, mapX + i, mapY + j);
      VisibleInBuffer(data, width, pages, x + i, y + j);
      var next := PutPixel(data, width, x + i, y + j, on);
      assert BlitRows(data, width, x, y, bmp, mapX, mapY, i, j, ch)
          == BlitRows(next, width, x, y, bmp, mapX, mapY, i, j + 1, ch);
      BlitRowsEffect(next, width, pages, x, y, bmp, mapX, mapY, i, j + 1, ch);
      forall px: nat, py: nat | px < width && InBuffer(data, width, px, py)
        ensures Lit(BlitRows(data, width, x, y, bmp, mapX, mapY, i, j, ch), width, px, py)
          == if px == x + i && y + j <= py < y + ch then Bitmaps.PixelOn(bmp, mapX + i, mapY + py - y)
             else Lit(data, width, px, py)
      {
        assert InBuffer(next, width, px, py);
        PutPixelAt(data, width, x + i, y + j, on, px, py);
      }
    }
  }

  lemma {:induction false} BlitColumnsEffect(data: seq<bv8>, width: UInt8, pages: nat, x: UInt8, y: UInt8,
                                            bmp: Bitmaps.Bitmap, mapX: nat, mapY: nat, i: nat, cw: nat, ch: nat)
    requires Bitmaps.Valid(bmp) && i <= cw && (i < cw ==> mapX + cw <= bmp.width)
    requires ch > 0 ==> mapY + ch <= bmp.height
    requires |data| == width * pages && x + cw <= width && y + ch <= 8 * pages <= 256
    ensures forall px: nat, py: nat | px < width && InBuffer(data, width, px, py) ::
      Lit(BlitColumns(data, width, x, y, bmp, mapX, mapY, i, cw, ch), width, px, py)
        == if InRect(x + i, y, cw - i, ch, px, py) then Bitmaps.PixelOn(bmp, mapX + px - x, mapY + py - y)
           else Lit(data, width, px, py)
    decreases cw - i
  {
    if i < cw {
      var next := BlitRows(data, width, x, y, bmp, mapX, mapY, i, 0, ch);
      BlitRowsEffect(data, width, pages, x, y, bmp, mapX, mapY, i, 0, ch);
      BlitColumnsEffect(next, width, pages, x, y, bmp, mapX, mapY, i + 1, cw, ch);
    }
  }

  /**
   When the clipped rectangle lands inside the surface, `draw_bitmap` is
   opaque and local: each destination pixel of the rectangle ends equal to
   its source pixel, lit or not, and every other pixel is unchanged.
   */
  lemma DrawBitmapEffect(fb: FrameBuffer, x: UInt8, y: UInt8, mapX: UInt8, mapY: UInt8,
                         mapWidth: UInt8, mapHeight: UInt8, bmp: Bitmaps.Bitmap)
    requires Valid(fb) && Bitmaps.Valid(bmp)
    requires x + ClipExtent(mapX, mapWidth, bmp.width) <= fb.width
    requires y + ClipExtent(mapY, mapHeight, bmp.height) <= 8 * (fb.height / 8)
    ensures forall px: nat, py: nat | px < fb.width && InBuffer(fb.data, fb.width, px, py) ::
      Lit(DrawBitmap(fb, x, y, mapX, mapY, mapWidth, mapHeight, bmp).data, fb.width, px, py)
        == if InRect(x, y, ClipExtent(mapX, mapWidth, bmp.width), ClipExtent(mapY, mapHeight, bmp.height), px, py)
           then Bitmaps.PixelOn(bmp, mapX + px - x, mapY + py - y)
           else Lit(fb.data, fb.width, px, py)
  {
    var cw := ClipExtent(mapX, mapWidth, bmp.width);
    var ch := ClipExtent(mapY, mapHeight, bmp.height);
    BlitColumnsEffect(fb.data, fb.width, fb.height / 8, x, y, bmp, mapX, mapY, 0, cw, ch);
  }

  /**
   Write (i, j) of a blit to (x, y), the one for source pixel
   (mapX + i, mapY + j), addresses bit `k` of byte `b`: destination pixel
   (x + i, y + j), both sums taken as uint8, is stored there.
   */
  predicate BlitWrites(width: nat, x: UInt8, y: UInt8, i: nat, j: nat, b: nat, k: nat)
  {
    ByteIndex(width, U8(x + i), U8(y + j)) == b && U8(y + j) % 8 == k
  }

  /** No write of a `cw` x `ch` blit addresses bit `k` of byte `b`. */
  predicate Untouched(width: nat, x: UInt8, y: UInt8, cw: nat, ch: nat, b: nat, k: nat)
  {
    forall i: nat, j: nat | i < cw && j < ch :: !BlitWrites(width, x, y, i, j, b, k)
  }

  /**
   Write (i, j) addresses bit `k` of byte `b`, and no write after it in loop
   order (a later column, or a later row of the same column) does.
   */
  predicate LastBlitWrite(width: nat, x: UInt8, y: UInt8, cw: nat, ch: nat, i: nat, j: nat, b: nat, k: nat)
  {
    i < cw && j < ch && BlitWrites(width, x, y, i, j, b, k) &&
    forall i': nat, j': nat | i' < cw && j' < ch && (i < i' || (i == i' && j < j')) ::
      !BlitWrites(width, x, y, i', j', b, k)
  }

  lemma {:induction false} BlitRowsBit(data: seq<bv8>, width: UInt8, x: UInt8, y: UInt8, bmp: Bitmaps.Bitmap,
                                       mapX: nat, mapY: nat, i: nat, j: nat, ch: nat, b: nat, k: nat)
    requires Bitmaps.Valid(bmp) && mapX + i < bmp.width && j <= ch && (j < ch ==> mapY + ch <= bmp.height)
    requires b < |data| && k < 8
    ensures (forall j': nat | j <= j' < ch :: !BlitWrites(width, x, y, i, j', b, k)) ==>
      BitAt(BlitRows(data, width, x, y, bmp, mapX, mapY, i, j, ch), b, k) == BitAt(data, b, k)
    ensures forall j0: nat | j <= j0 < ch && BlitWrites(width, x, y, i, j0, b, k) &&
                             (forall j': nat | j0 < j' < ch :: !BlitWrites(width, x, y, i, j', b, k)) ::
      BitAt(BlitRows(data, width, x, y, bmp, mapX, mapY, i, j, ch), b, k) == Bitmaps.PixelOn(bmp, mapX + i, mapY + j0)
    decreases ch - j
  {
    if j < ch {
      var on := Bitmaps.PixelOn(bmp, mapX + i, mapY + j);
      var next := PutPixel(data, width, U8(x + i), U8(y + j), on);
      assert BlitRows(data, width, x, y, bmp, mapX, mapY, i, j, ch)
          == BlitRows(next, width, x, y, bmp, mapX, mapY, i, j + 1, ch);
      PutPixelBit(data, width, U8(x + i), U8(y + j), on, b, k);
      BlitRowsBit(next, width, x, y, bmp, mapX, mapY, i, j + 1, ch, b, k);
      var final := BlitRows(data, width, x, y, bmp, mapX, mapY, i, j, ch);
      if !BlitWrites(width, x, y, i, j, b, k) {
        assert BitAt(next, b, k) == BitAt(data, b, k);
      } else {
        assert BitAt(next, b, k) == on;
        forall j0: nat | j <= j0 < ch && BlitWrites(width, x, y, i, j0, b, k) &&
                         (forall j': nat | j0 < j' < ch :: !BlitWrites(width, x, y, i, j', b, k))
          ensures BitAt(final, b, k) == Bitmaps.PixelOn(bmp, mapX + i, mapY + j0)
        {
          if j0 == j {
            assert BitAt(final, b, k) == BitAt(next, b, k);
          }
        }
      }
    }
  }

  lemma {:induction false} BlitColumnsBit(data: seq<bv8>, width: UInt8, x: UInt8, y: UInt8, bmp: Bitmaps.Bitmap,
                                          mapX: nat, mapY: nat, i: nat, cw: nat, ch: nat, b: nat, k: nat)
    requires Bitmaps.Valid(bmp) && i <= cw && (i < cw ==> mapX + cw <= bmp.width)
    requires ch > 0 ==> mapY + ch <= bmp.height
    requires b < |data| && k < 8
    ensures (forall i': nat, j': nat | i <= i' < cw && j' < ch :: !BlitWrites(width, x, y, i', j', b, k)) ==>
      BitAt(BlitColumns(data, width, x, y, bmp, mapX, mapY, i, cw, ch), b, k) == BitAt(data, b, k)
    ensures forall i0: nat, j0: nat | i <= i0 && LastBlitWrite(width, x, y, cw, ch, i0, j0, b, k) ::
      BitAt(BlitColumns(data, width, x, y, bmp, mapX, mapY, i, cw, ch), b, k) == Bitmaps.PixelOn(bmp, mapX + i0, mapY + j0)
    decreases cw - i
  {
    if i < cw {
      var next := BlitRows(data, width, x, y, bmp, mapX, mapY, i, 0, ch);
      var final := BlitColumns(data, width, x, y, bmp, mapX, mapY, i, cw, ch);
      assert final == BlitColumns(next, width, x, y, bmp, mapX, mapY, i + 1, cw, ch);
      BlitRowsBit(data, width, x, y, bmp, mapX, mapY, i, 0, ch, b, k);
      BlitColumnsBit(next, width, x, y, bmp, mapX, mapY, i + 1, cw, ch, b, k);
      forall i0: nat, j0: nat | i <= i0 && LastBlitWrite(width, x, y, cw, ch, i0, j0, b, k)
        ensures BitAt(final, b, k) == Bitmaps.PixelOn(bmp, mapX + i0, mapY + j0)
      {
        if i0 == i {
          assert forall i': nat, j': nat | i + 1 <= i' < cw && j' < ch :: !BlitWrites(width, x, y, i', j', b, k);
          assert BitAt(final, b, k) == BitAt(next, b, k);
          assert forall j': nat | j0 < j' < ch :: !BlitWrites(width, x, y, i, j', b, k);
        }
      }
    }
  }

  /**
   `draw_bitmap` for every placement, edge-crossing ones included: the blit
   writes source pixel (mapX + i, mapY + j) to destination (x + i, y + j) in
   uint8 arithmetic, column by column.  A bit that no write addresses keeps
   its value; any other bit ends equal to the source pixel of the last write
   that addresses it.  Writes to a column of 128 or more land in the next page
   row; the last write wins there too.
   */
  lemma DrawBitmapBits(fb: FrameBuffer, x: UInt8, y: UInt8, mapX: UInt8, mapY: UInt8,
                       mapWidth: UInt8, mapHeight: UInt8, bmp: Bitmaps.Bitmap)
    requires Valid(fb) && Bitmaps.Valid(bmp)
    ensures forall b: nat, k: nat | b < |fb.data| && k < 8 ::
      var cw := ClipExtent(mapX, mapWidth, bmp.width);
      var ch := ClipExtent(mapY, mapHeight, bmp.height);
      var after := DrawBitmap(fb, x, y, mapX, mapY, mapWidth, mapHeight, bmp).data;
      (Untouched(fb.width, x, y, cw, ch, b, k) ==> BitAt(after, b, k) == BitAt(fb.data, b, k)) &&
      (forall i: nat, j: nat | LastBlitWrite(fb.width, x, y, cw, ch, i, j, b, k) ::
         BitAt(after, b, k) == Bitmaps.PixelOn(bmp, mapX + i, mapY + j))
  {
    var cw := ClipExtent(mapX, mapWidth, bmp.width);
    var ch := ClipExtent(mapY, mapHeight, bmp.height);
    forall b: nat, k: nat | b < |fb.data| && k < 8
      ensures var after := DrawBitmap(fb, x, y, mapX, mapY, mapWidth, mapHeight, bmp).data;
        (Untouched(fb.width, x, y, cw, ch, b, k) ==> BitAt(after, b, k) == BitAt(fb.data, b, k)) &&
        (forall i: nat, j: nat | LastBlitWrite(fb.width, x, y, cw, ch, i, j, b, k) ::
           BitAt(after, b, k) == Bitmaps.PixelOn(bmp, mapX + i, mapY + j))
    {
      BlitColumnsBit(fb.data, fb.width, x, y, bmp, mapX, mapY, 0, cw, ch, b, k);
    }
  }
}
