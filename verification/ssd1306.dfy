/**
 `SSD1306`: the drawing engine for the 128 x 64 panel.  It owns one frame
 buffer, a flag recording that the buffer changed since it was last sent
 (`_framebuffer_has_updates`), the selected font size and an 8-bit render
 counter.  Every operation is a function from the display state to the next
 state; `render` and construction also return the bus transactions they send.
 */
module Ssd1306 {
  import opened Bits
  import opened PageLayout
  import FrameBuffers
  import Bitmaps
  import Fonts
  import DisplayController

  const SCREEN_WIDTH: UInt8 := 128
  const SCREEN_HEIGHT: UInt8 := 64

  datatype FontSize = Small | Medium | Large

  /** The three built-in fonts; their glyph data is an input of this model. */
  datatype FontSet = FontSet(small: Fonts.Font, medium: Fonts.Font, large: Fonts.Font)

  /** `_get_font()`: the font of the selected size. */
  function FontFor(fonts: FontSet, size: FontSize): (f: Fonts.Font)
    ensures size == Small ==> f == fonts.small
    ensures size == Medium ==> f == fonts.medium
    ensures size == Large ==> f == fonts.large
  {
    match size
    case Small => fonts.small
    case Medium => fonts.medium
    case Large => fonts.large
  }

  datatype Display = Display(fb: FrameBuffers.FrameBuffer, pending: bool, fontSize: FontSize, renderIteration: UInt8)

  /** The display owns exactly one 128 x 64 frame buffer. */
  predicate Valid(d: Display)
  {
    FrameBuffers.Valid(d.fb) && d.fb.width == SCREEN_WIDTH && d.fb.height == SCREEN_HEIGHT
  }

  lemma BufferIs1024Bytes(d: Display)
    requires Valid(d)
    ensures |d.fb.data| == 1024
  {
  }

  /** Pixel (px, py) of the panel is lit. */
  predicate Pixel(d: Display, px: nat, py: nat)
    requires Valid(d) && px < SCREEN_WIDTH && py < SCREEN_HEIGHT
  {
    Lit(d.fb.data, SCREEN_WIDTH, px, py)
  }

  /** Apart from the frame buffer and the pending flag, `r` is `d`. */
  predicate SameSettings(d: Display, r: Display)
  {
    r.fontSize == d.fontSize && r.renderIteration == d.renderIteration
  }

  /**
   The constructor: the controller, built with the default internal supply,
   sends its initialization sequence; the buffer is cleared, nothing is
   pending, the font size is MEDIUM and the render counter is 0.
   */
  function Create(): (result: (Display, seq<DisplayController.Transaction>))
    ensures Valid(result.0)
    ensures !result.0.pending && result.0.fontSize == Medium && result.0.renderIteration == 0
    ensures forall px: nat, py: nat | px < SCREEN_WIDTH && py < SCREEN_HEIGHT :: !Pixel(result.0, px, py)
    ensures result.1 == DisplayController.Initialize(false)
    ensures |result.1| == 26 && forall i | 0 <= i < 26 :: DisplayController.IsCommand(result.1[i])
    ensures result.1[9] == DisplayController.Command(0x14)
    ensures result.1[0] == DisplayController.Command(DisplayController.DISPLAYOFF)
  {
    var d := Display(FrameBuffers.New(SCREEN_WIDTH, SCREEN_HEIGHT, false), false, Medium, 0);
    (d, DisplayController.Initialize(false))
  }

  /** `fill()`: every pixel lit, an update pending. */
  function Fill(d: Display): (r: Display)
    requires Valid(d)
    ensures Valid(r) && SameSettings(d, r) && r.pending
    ensures forall px: nat, py: nat | px < SCREEN_WIDTH && py < SCREEN_HEIGHT :: Pixel(r, px, py)
  {
    d.(fb := FrameBuffers.Fill(d.fb), pending := true)
  }

  /** `clear()`: every pixel dark, an update pending. */
  function Clear(d: Display): (r: Display)
    requires Valid(d)
    ensures Valid(r) && SameSettings(d, r) && r.pending
    ensures forall px: nat, py: nat | px < SCREEN_WIDTH && py < SCREEN_HEIGHT :: !Pixel(r, px, py)
  {
    d.(fb := FrameBuffers.Clear(d.fb), pending := true)
  }

  /** Pixel (px, py) is stored in the same bit as (x, y). */
  predicate SameCell(px: nat, py: nat, x: nat, y: nat)
  {
    ByteIndex(SCREEN_WIDTH, px, py) == ByteIndex(SCREEN_WIDTH, x, y) && py % 8 == y % 8
  }

  /** On the panel, only (x, y) itself shares the bit of an on-panel pixel (x, y). */
  lemma SameCellOnScreen(px: nat, py: nat, x: nat, y: nat)
    requires px < SCREEN_WIDTH && x < SCREEN_WIDTH
    ensures SameCell(px, py, x, y) <==> px == x && py == y
  {
    if SameCell(px, py, x, y) {
      AddressInjective(SCREEN_WIDTH, px, py, x, y);
    }
  }

  /**
   `draw_pixel(x, y)`: lights the pixel whose bit (x, y) addresses (for
   x >= 128 that is a pixel of the next page row), nothing else; an update
   is pending.  The byte must lie in the buffer, as in the source.
   */
  function DrawPixel(d: Display, x: UInt8, y: UInt8): (r: Display)
    requires Valid(d) && InBuffer(d.fb.data, SCREEN_WIDTH, x, y)
    ensures Valid(r) && SameSettings(d, r) && r.pending
    ensures forall px: nat, py: nat | px < SCREEN_WIDTH && py < SCREEN_HEIGHT ::
      Pixel(r, px, py) == (SameCell(px, py, x, y) || Pixel(d, px, py))
  {
    d.(fb := FrameBuffers.DrawPixel(d.fb, x, y), pending := true)
  }

  /** `erase_pixel(x, y)`: darkens the pixel whose bit (x, y) addresses, nothing else. */
  function ErasePixel(d: Display, x: UInt8, y: UInt8): (r: Display)
    requires Valid(d) && InBuffer(d.fb.data, SCREEN_WIDTH, x, y)
    ensures Valid(r) && SameSettings(d, r) && r.pending
    ensures forall px: nat, py: nat | px < SCREEN_WIDTH && py < SCREEN_HEIGHT ::
      Pixel(r, px, py) == (!SameCell(px, py, x, y) && Pixel(d, px, py))
  {
    d.(fb := FrameBuffers.ErasePixel(d.fb, x, y), pending := true)
  }

  /**
   `render()`: the counter advances (modulo 256); when an update is pending
   the whole frame is sent, carrying exactly the buffer's bytes, and the flag
   is cleared; otherwise nothing is sent.
   */
  function Render(d: Display): (result: (Display, seq<DisplayController.Transaction>))
    requires Valid(d)
    ensures Valid(result.0) && result.0.fb == d.fb && result.0.fontSize == d.fontSize
    ensures !result.0.pending
    ensures result.0.renderIteration == (d.renderIteration + 1) % 256
    ensures d.pending ==> result.1 == DisplayController.DisplayFramebuffer(d.fb)
    ensures d.pending ==> |result.1| == 40 && DisplayController.Payloads(result.1) == FrameBuffers.GetData(d.fb)
    ensures !d.pending ==> result.1 == []
  {
    var r := d.(renderIteration := U8(d.renderIteration + 1), pending := false);
    if d.pending then
      DisplayController.FramePayloadsAreFrameBuffer(d.fb);
      (r, DisplayController.DisplayFramebuffer(d.fb))
    else (r, [])
  }

  /** A second render with nothing drawn in between sends nothing. */
  lemma RenderIdleSendsNothing(d: Display)
    requires Valid(d)
    ensures Render(Render(d).0).1 == []
  {
  }

  /** `n` renders in a row, their transactions concatenated. */
  function RenderTimes(d: Display, n: nat): (result: (Display, seq<DisplayController.Transaction>))
    requires Valid(d)
    ensures Valid(result.0)
    decreases n
  {
    if n == 0 then (d, [])
    else
      var (d1, log1) := Render(d);
      var (d2, log2) := RenderTimes(d1, n - 1);
      (d2, log1 + log2)
  }

  /**
   Rendering `n` times advances the counter by `n` modulo 256 and sends at
   most one frame: the first render's, when an update was pending.
   */
  lemma {:induction false} RenderTimesEffect(d: Display, n: nat)
    requires Valid(d)
    ensures RenderTimes(d, n).0.renderIteration == (d.renderIteration + n) % 256
    ensures RenderTimes(d, n).0.fb == d.fb
    ensures |RenderTimes(d, n).1| == if d.pending && n > 0 then 40 else 0
    decreases n
  {
    if n > 0 {
      var d1 := Render(d).0;
      RenderTimesEffect(d1, n - 1);
      assert !d1.pending;
      assert (d1.renderIteration + (n - 1)) % 256 == (d.renderIteration + n) % 256 by {
        assert d1.renderIteration + 256 * ((d.renderIteration + 1) / 256) == d.renderIteration + 1;
      }
    }
  }

  /** The inner loop of `draw_rect` / `erase_rect`: rows `cy .. yEnd - 1` of column `cx`. */
  function PaintRows(data: seq<bv8>, cx: nat, cy: nat, yEnd: nat, on: bool): (r: seq<bv8>)
    requires cy <= yEnd
    ensures |r| == |data|
    decreases yEnd - cy
  {
    if cy == yEnd then data else PaintRows(PutPixel(data, SCREEN_WIDTH, cx, cy, on), cx, cy + 1, yEnd, on)
  }

  /** The outer loop of `draw_rect` / `erase_rect`: columns `cx .. xEnd - 1`. */
  function PaintColumns(data: seq<bv8>, cx: nat, xEnd: nat, y: nat, yEnd: nat, on: bool): (r: seq<bv8>)
    requires cx <= xEnd && y <= yEnd
    ensures |r| == |data|
    decreases xEnd - cx
  {
    if cx == xEnd then data else PaintColumns(PaintRows(data, cx, y, yEnd, on), cx + 1, xEnd, y, yEnd, on)
  }

  lemma {:induction false} PaintRowsEffect(data: seq<bv8>, cx: nat, cy: nat, yEnd: nat, on: bool)
    requires |data| == 1024 && cy <= yEnd && (cy < yEnd ==> cx < SCREEN_WIDTH && yEnd <= SCREEN_HEIGHT)
    ensures forall px: nat, py: nat | px < SCREEN_WIDTH && py < SCREEN_HEIGHT ::
      Lit(PaintRows(data, cx, cy, yEnd, on), SCREEN_WIDTH, px, py)
        == if px == cx && cy <= py < yEnd then on else Lit(data, SCREEN_WIDTH, px, py)
    decreases yEnd - cy
  {
    if cy < yEnd {
      var next := PutPixel(data, SCREEN_WIDTH, cx, cy, on);
      PaintRowsEffect(next, cx, cy + 1, yEnd, on);
      forall px: nat, py: nat | px < SCREEN_WIDTH && py < SCREEN_HEIGHT
        ensures Lit(PaintRows(data, cx, cy, yEnd, on), SCREEN_WIDTH, px, py)
          == if px == cx && cy <= py < yEnd then on else Lit(data, SCREEN_WIDTH, px, py)
      {
        PutPixelAt(data, SCREEN_WIDTH, cx, cy, on, px, py);
      }
    }
  }

  lemma {:induction false} PaintColumnsEffect(data: seq<bv8>, cx: nat, xEnd: nat, y: nat, yEnd: nat, on: bool)
    requires |data| == 1024 && cx <= xEnd && y <= yEnd
    requires cx < xEnd && y < yEnd ==> xEnd <= SCREEN_WIDTH && yEnd <= SCREEN_HEIGHT
    ensures forall px: nat, py: nat | px < SCREEN_WIDTH && py < SCREEN_HEIGHT ::
      Lit(PaintColumns(data, cx, xEnd, y, yEnd, on), SCREEN_WIDTH, px, py)
        == if cx <= px < xEnd && y <= py < yEnd then on else Lit(data, SCREEN_WIDTH, px, py)
    decreases xEnd - cx
  {
    if cx < xEnd {
      PaintRowsEffect(data, cx, y, yEnd, on);
      PaintColumnsEffect(PaintRows(data, cx, y, yEnd, on), cx + 1, xEnd, y, yEnd, on);
    }
  }

  /** The `width` x `height` rectangle at (x, y), clipped to the panel, holds at least one pixel. */
  predicate Touches(x: int, y: int, width: int, height: int)
  {
    0 <= x < SCREEN_WIDTH && 0 <= y < SCREEN_HEIGHT && width > 0 && height > 0
  }

  /** Both loops of `draw_rect` / `erase_rect`, writing `on` into the clipped rectangle. */
  function PaintRect(d: Display, x: UInt8, y: UInt8, width: UInt8, height: UInt8, on: bool): (r: Display)
    requires Valid(d)
    ensures Valid(r) && SameSettings(d, r)
    ensures r.pending == (d.pending || Touches(x, y, width, height))
    ensures forall px: nat, py: nat | px < SCREEN_WIDTH && py < SCREEN_HEIGHT ::
      Pixel(r, px, py) == if FrameBuffers.InRect(x, y, width, height, px, py) then on else Pixel(d, px, py)
  {
    var cw := FrameBuffers.ClipExtent(x, width, SCREEN_WIDTH);
    var ch := FrameBuffers.ClipExtent(y, height, SCREEN_HEIGHT);
    PaintColumnsEffect(d.fb.data, x, x + cw, y, y + ch, on);
    var drawn := cw > 0 && ch > 0;
    d.(fb := d.fb.(data := PaintColumns(d.fb.data, x, x + cw, y, y + ch, on)), pending := d.pending || drawn)
  }

  /**
   `draw_rect(x, y, width, height)`: lights exactly the pixels with
   x <= px < min(128, x + width) and y <= py < min(64, y + height); the
   others keep their value.  An update is pending once a pixel was drawn.
   */
  function DrawRect(d: Display, x: UInt8, y: UInt8, width: UInt8, height: UInt8): (r: Display)
    requires Valid(d)
    ensures Valid(r) && SameSettings(d, r)
    ensures r.pending == (d.pending || Touches(x, y, width, height))
    ensures forall px: nat, py: nat | px < SCREEN_WIDTH && py < SCREEN_HEIGHT ::
      Pixel(r, px, py) == (FrameBuffers.InRect(x, y, width, height, px, py) || Pixel(d, px, py))
  {
    PaintRect(d, x, y, width, height, true)
  }

  /** `erase_rect(x, y, width, height)`: darkens exactly the clipped rectangle. */
  function EraseRect(d: Display, x: UInt8, y: UInt8, width: UInt8, height: UInt8): (r: Display)
    requires Valid(d)
    ensures Valid(r) && SameSettings(d, r)
    ensures r.pending == (d.pending || Touches(x, y, width, height))
    ensures forall px: nat, py: nat | px < SCREEN_WIDTH && py < SCREEN_HEIGHT ::
      Pixel(r, px, py) == (!FrameBuffers.InRect(x, y, width, height, px, py) && Pixel(d, px, py))
  {
    PaintRect(d, x, y, width, height, false)
  }

  /**
   `draw_rect_outline(x, y, width, height, thickness)`: four bars, the top
   and left of length `width` / `height`, the right and bottom starting at
   `x + width` / `y + height` and extended by `thickness`; every uint8 sum
   wraps modulo 256.  An update is pending once one of the bars drew a pixel.
   */
  function DrawRectOutline(d: Display, x: UInt8, y: UInt8, width: UInt8, height: UInt8, thickness: UInt8): (r: Display)
    requires Valid(d)
    ensures Valid(r) && SameSettings(d, r)
    ensures forall px: nat, py: nat | px < SCREEN_WIDTH && py < SCREEN_HEIGHT ::
      Pixel(r, px, py) == (
        FrameBuffers.InRect(x, y, width, thickness, px, py) ||
        FrameBuffers.InRect(x, y, thickness, height, px, py) ||
        FrameBuffers.InRect(U8(x + width), y, thickness, U8(height + thickness), px, py) ||
        FrameBuffers.InRect(x, U8(y + height), U8(width + thickness), thickness, px, py) ||
        Pixel(d, px, py))
    ensures r.pending == (d.pending ||
      Touches(x, y, width, thickness) ||
      Touches(x, y, thickness, height) ||
      Touches(U8(x + width), y, thickness, U8(height + thickness)) ||
      Touches(x, U8(y + height), U8(width + thickness), thickness))
  {
    var top := DrawRect(d, x, y, width, thickness);
    var left := DrawRect(top, x, y, thickness, height);
    var right := DrawRect(left, U8(x + width), y, thickness, U8(height + thickness));
    DrawRect(right, x, U8(y + height), U8(width + thickness), thickness)
  }

  /**
   Without wrap-around the outline is a frame: the rectangle of size
   (width + thickness) x (height + thickness) at (x, y), less the hole of
   size (width - thickness) x (height - thickness) at (x + thickness, y + thickness).
   */
  lemma OutlineIsFrame(d: Display, x: UInt8, y: UInt8, width: UInt8, height: UInt8, thickness: UInt8)
    requires Valid(d)
    requires x + width < 256 && y + height < 256 && width + thickness < 256 && height + thickness < 256
    ensures forall px: nat, py: nat | px < SCREEN_WIDTH && py < SCREEN_HEIGHT ::
      Pixel(DrawRectOutline(d, x, y, width, height, thickness), px, py) == (
        (FrameBuffers.InRect(x, y, width + thickness, height + thickness, px, py) &&
         !FrameBuffers.InRect(x + thickness, y + thickness, width - thickness, height - thickness, px, py)) ||
        Pixel(d, px, py))
  {
  }

  /**
   The outline covers (width + thickness) x (height + thickness) pixels, not
   width x height: its far corner lies `thickness` pixels beyond the box
   the arguments describe.
   */
  lemma OutlineOverExtends(d: Display, x: UInt8, y: UInt8, width: UInt8, height: UInt8, thickness: UInt8)
    requires Valid(d) && thickness > 0
    requires x + width + thickness <= SCREEN_WIDTH && y + height + thickness <= SCREEN_HEIGHT
    ensures Pixel(DrawRectOutline(d, x, y, width, height, thickness), x + width + thickness - 1, y + height + thickness - 1)
  {
  }

  /**
   The effect of an opaque blit of the `cw` x `ch` bitmap region at
   (mapX, mapY) onto the panel at (x, y): pixels of the destination
   rectangle show their source pixel, lit or not, and the rest are kept.
   */
  predicate Shows(before: Display, after: Display, x: int, y: int, cw: int, ch: int,
                  bmp: Bitmaps.Bitmap, mapX: nat, mapY: nat)
    requires Valid(before) && Valid(after) && Bitmaps.Valid(bmp)
    requires cw > 0 ==> mapX + cw <= bmp.width
    requires ch > 0 ==> mapY + ch <= bmp.height
  {
    forall px: nat, py: nat | px < SCREEN_WIDTH && py < SCREEN_HEIGHT ::
      Pixel(after, px, py) ==
        if FrameBuffers.InRect(x, y, cw, ch, px, py) then Bitmaps.PixelOn(bmp, mapX + px - x, mapY + py - y)
        else Pixel(before, px, py)
  }

  /**
   `draw_bitmap(x, y, map_x, map_y, map_width, map_height, bitmap)`: the
   frame buffer blit, and an update is pending.  When the region, clipped to
   the bitmap, lands on the panel, the panel shows it at (x, y).
   */
  function DrawBitmapRegion(d: Display, x: UInt8, y: UInt8, mapX: UInt8, mapY: UInt8,
                            mapWidth: UInt8, mapHeight: UInt8, bmp: Bitmaps.Bitmap): (r: Display)
    requires Valid(d) && Bitmaps.Valid(bmp)
    ensures Valid(r) && SameSettings(d, r) && r.pending
    ensures x + FrameBuffers.ClipExtent(mapX, mapWidth, bmp.width) <= SCREEN_WIDTH &&
            y + FrameBuffers.ClipExtent(mapY, mapHeight, bmp.height) <= SCREEN_HEIGHT ==>
      Shows(d, r, x, y, FrameBuffers.ClipExtent(mapX, mapWidth, bmp.width),
            FrameBuffers.ClipExtent(mapY, mapHeight, bmp.height), bmp, mapX, mapY)
  {
    var r := d.(fb := FrameBuffers.DrawBitmap(d.fb, x, y, mapX, mapY, mapWidth, mapHeight, bmp), pending := true);
    var cw := FrameBuffers.ClipExtent(mapX, mapWidth, bmp.width);
    var ch := FrameBuffers.ClipExtent(mapY, mapHeight, bmp.height);
    if x + cw <= SCREEN_WIDTH && y + ch <= SCREEN_HEIGHT then
      BlitShows(d, x, y, mapX, mapY, mapWidth, mapHeight, bmp);
      r
    else r
  }

  /** A region blit that lands on the panel shows the region at (x, y). */
  lemma BlitShows(d: Display, x: UInt8, y: UInt8, mapX: UInt8, mapY: UInt8,
                  mapWidth: UInt8, mapHeight: UInt8, bmp: Bitmaps.Bitmap)
    requires Valid(d) && Bitmaps.Valid(bmp)
    requires x + FrameBuffers.ClipExtent(mapX, mapWidth, bmp.width) <= SCREEN_WIDTH
    requires y + FrameBuffers.ClipExtent(mapY, mapHeight, bmp.height) <= SCREEN_HEIGHT
    ensures var r := d.(fb := FrameBuffers.DrawBitmap(d.fb, x, y, mapX, mapY, mapWidth, mapHeight, bmp), pending := true);
      Valid(r) &&
      Shows(d, r, x, y, FrameBuffers.ClipExtent(mapX, mapWidth, bmp.width),
            FrameBuffers.ClipExtent(mapY, mapHeight, bmp.height), bmp, mapX, mapY)
  {
    var r := d.(fb := FrameBuffers.DrawBitmap(d.fb, x, y, mapX, mapY, mapWidth, mapHeight, bmp), pending := true);
    BufferIs1024Bytes(d);
    FrameBuffers.DrawBitmapEffect(d.fb, x, y, mapX, mapY, mapWidth, mapHeight, bmp);
    forall px: nat, py: nat | px < SCREEN_WIDTH && py < SCREEN_HEIGHT
      ensures InBuffer(d.fb.data, SCREEN_WIDTH, px, py)
    {
      FrameBuffers.VisibleInBuffer(d.fb.data, SCREEN_WIDTH, 8, px, py);
    }
  }

  /**
   The effect of a blit of the `cw` x `ch` bitmap region at (mapX, mapY) to
   (x, y) for every placement, edge-crossing ones included.  Write (i, j)
   stores source pixel (mapX + i, mapY + j) in the bit of destination
   (x + i, y + j), uint8 sums, which for a column of 128 or more is the bit of
   a pixel of the next page row (see `SameCell`).  A panel pixel whose bit no
   write reaches keeps its value; any other shows the source pixel of the last
   write, in loop order, that reaches it.
   */
  predicate BlitCells(before: Display, after: Display, x: UInt8, y: UInt8, cw: nat, ch: nat,
                      bmp: Bitmaps.Bitmap, mapX: nat, mapY: nat)
    requires Valid(before) && Valid(after) && Bitmaps.Valid(bmp)
    requires cw > 0 ==> mapX + cw <= bmp.width
    requires ch > 0 ==> mapY + ch <= bmp.height
  {
    forall px: nat, py: nat | px < SCREEN_WIDTH && py < SCREEN_HEIGHT ::
      (FrameBuffers.Untouched(SCREEN_WIDTH, x, y, cw, ch, ByteIndex(SCREEN_WIDTH, px, py), py % 8) ==>
         Pixel(after, px, py) == Pixel(before, px, py)) &&
      (forall i: nat, j: nat | i < cw && j < ch && FrameBuffers.LastBlitWrite(SCREEN_WIDTH, x, y, cw, ch, i, j, ByteIndex(SCREEN_WIDTH, px, py), py % 8) ::
         Pixel(after, px, py) == Bitmaps.PixelOn(bmp, mapX + i, mapY + j))
  }

  /** `draw_bitmap` with a region: its effect on the panel for every placement. */
  lemma DrawBitmapRegionCells(d: Display, x: UInt8, y: UInt8, mapX: UInt8, mapY: UInt8,
                              mapWidth: UInt8, mapHeight: UInt8, bmp: Bitmaps.Bitmap)
    requires Valid(d) && Bitmaps.Valid(bmp)
    ensures BlitCells(d, DrawBitmapRegion(d, x, y, mapX, mapY, mapWidth, mapHeight, bmp), x, y,
                      FrameBuffers.ClipExtent(mapX, mapWidth, bmp.width),
                      FrameBuffers.ClipExtent(mapY, mapHeight, bmp.height), bmp, mapX, mapY)
  {
    var cw := FrameBuffers.ClipExtent(mapX, mapWidth, bmp.width);
    var ch := FrameBuffers.ClipExtent(mapY, mapHeight, bmp.height);
    var r := DrawBitmapRegion(d, x, y, mapX, mapY, mapWidth, mapHeight, bmp);
    assert r.fb.data == FrameBuffers.DrawBitmap(d.fb, x, y, mapX, mapY, mapWidth, mapHeight, bmp).data;
    BufferIs1024Bytes(d);
    FrameBuffers.DrawBitmapBits(d.fb, x, y, mapX, mapY, mapWidth, mapHeight, bmp);
    forall px: nat, py: nat | px < SCREEN_WIDTH && py < SCREEN_HEIGHT
      ensures (FrameBuffers.Untouched(SCREEN_WIDTH, x, y, cw, ch, ByteIndex(SCREEN_WIDTH, px, py), py % 8) ==>
                 Pixel(r, px, py) == Pixel(d, px, py)) &&
              (forall i: nat, j: nat | i < cw && j < ch &&
                 FrameBuffers.LastBlitWrite(SCREEN_WIDTH, x, y, cw, ch, i, j, ByteIndex(SCREEN_WIDTH, px, py), py % 8) ::
                 Pixel(r, px, py) == Bitmaps.PixelOn(bmp, mapX + i, mapY + j))
    {
      FrameBuffers.VisibleInBuffer(d.fb.data, SCREEN_WIDTH, 8, px, py);
    }
  }

  /**
   A blit crossing the right edge continues in the next page row: the second
   column of a 2 x 1 bitmap drawn at (127, 0) goes to byte 128, which is
   panel pixel (0, 8).
   */
  lemma EdgeBlitWrapsToNextPage(d: Display, bmp: Bitmaps.Bitmap)
    requires Valid(d) && Bitmaps.Valid(bmp) && bmp.width == 2 && bmp.height == 1
    ensures Pixel(DrawBitmapRegion(d, 127, 0, 0, 0, 2, 1, bmp), 0, 8) == Bitmaps.PixelOn(bmp, 1, 0)
  {
    DrawBitmapRegionCells(d, 127, 0, 0, 0, 2, 1, bmp);
    assert FrameBuffers.LastBlitWrite(SCREEN_WIDTH, 127, 0, 2, 1, 1, 0, ByteIndex(SCREEN_WIDTH, 0, 8), 0);
  }

  /** `draw_bitmap(x, y, bitmap)`: the whole bitmap with its top-left corner at (x, y). */
  function DrawBitmap(d: Display, x: UInt8, y: UInt8, bmp: Bitmaps.Bitmap): (r: Display)
    requires Valid(d) && Bitmaps.Valid(bmp)
    ensures Valid(r) && SameSettings(d, r) && r.pending
    ensures BlitCells(d, r, x, y, bmp.width, bmp.height, bmp, 0, 0)
    ensures x + bmp.width <= SCREEN_WIDTH && y + bmp.height <= SCREEN_HEIGHT ==>
      Shows(d, r, x, y, bmp.width, bmp.height, bmp, 0, 0)
  {
    DrawBitmapRegionCells(d, x, y, 0, 0, bmp.width, bmp.height, bmp);
    DrawBitmapRegion(d, x, y, 0, 0, bmp.width, bmp.height, bmp)
  }

  /**
   `draw_bitmap_centered(x, y, bitmap)`: the whole bitmap moved up and left
   by half its size (uint8 arithmetic), so that its middle pixel
   (width / 2, height / 2) lands on (x, y).
   */
  function DrawBitmapCentered(d: Display, x: UInt8, y: UInt8, bmp: Bitmaps.Bitmap): (r: Display)
    requires Valid(d) && Bitmaps.Valid(bmp)
    ensures Valid(r) && SameSettings(d, r) && r.pending
    ensures BlitCells(d, r, U8(x - bmp.width / 2), U8(y - bmp.height / 2), bmp.width, bmp.height, bmp, 0, 0)
    ensures x >= bmp.width / 2 && y >= bmp.height / 2 &&
            x - bmp.width / 2 + bmp.width <= SCREEN_WIDTH && y - bmp.height / 2 + bmp.height <= SCREEN_HEIGHT ==>
      Shows(d, r, x - bmp.width / 2, y - bmp.height / 2, bmp.width, bmp.height, bmp, 0, 0)
    ensures x >= bmp.width / 2 && y >= bmp.height / 2 && bmp.width > 0 && bmp.height > 0 &&
            x - bmp.width / 2 + bmp.width <= SCREEN_WIDTH && y - bmp.height / 2 + bmp.height <= SCREEN_HEIGHT ==>
      Pixel(r, x, y) == Bitmaps.PixelOn(bmp, bmp.width / 2, bmp.height / 2)
  {
    DrawBitmapRegionCells(d, U8(x - bmp.width / 2), U8(y - bmp.height / 2), 0, 0, bmp.width, bmp.height, bmp);
    DrawBitmapRegion(d, U8(x - bmp.width / 2), U8(y - bmp.height / 2), 0, 0, bmp.width, bmp.height, bmp)
  }

  /**
   `draw_bitmap_centered(x, y, map_x, map_y, map_width, map_height, bitmap)`:
   the region blit, offset by half the size of the WHOLE bitmap, not of the
   region.
   */
  function DrawBitmapRegionCentered(d: Display, x: UInt8, y: UInt8, mapX: UInt8, mapY: UInt8,
                                    mapWidth: UInt8, mapHeight: UInt8, bmp: Bitmaps.Bitmap): (r: Display)
    requires Valid(d) && Bitmaps.Valid(bmp)
    ensures Valid(r) && SameSettings(d, r) && r.pending
    ensures BlitCells(d, r, U8(x - bmp.width / 2), U8(y - bmp.height / 2), FrameBuffers.ClipExtent(mapX, mapWidth, bmp.width),
                      FrameBuffers.ClipExtent(mapY, mapHeight, bmp.height), bmp, mapX, mapY)
    ensures x >= bmp.width / 2 && y >= bmp.height / 2 &&
            x - bmp.width / 2 + FrameBuffers.ClipExtent(mapX, mapWidth, bmp.width) <= SCREEN_WIDTH &&
            y - bmp.height / 2 + FrameBuffers.ClipExtent(mapY, mapHeight, bmp.height) <= SCREEN_HEIGHT ==>
      Shows(d, r, x - bmp.width / 2, y - bmp.height / 2, FrameBuffers.ClipExtent(mapX, mapWidth, bmp.width),
            FrameBuffers.ClipExtent(mapY, mapHeight, bmp.height), bmp, mapX, mapY)
  {
    DrawBitmapRegionCells(d, U8(x - bmp.width / 2), U8(y - bmp.height / 2), mapX, mapY, mapWidth, mapHeight, bmp);
    DrawBitmapRegion(d, U8(x - bmp.width / 2), U8(y - bmp.height / 2), mapX, mapY, mapWidth, mapHeight, bmp)
  }

  /** `set_font_size(size)`: only the selected size changes. */
  function SetFontSize(d: Display, size: FontSize): (r: Display)
    ensures r.fontSize == size && r.fb == d.fb && r.pending == d.pending && r.renderIteration == d.renderIteration
  {
    d.(fontSize := size)
  }

  /**
   `blink_section(frequency, period, filled, unfilled)`: whether the filled
   callback runs, for the current render counter.  `period` must be non-zero.
   */
  function BlinkSection(d: Display, frequency: UInt8, period: UInt8): (filled: bool)
    requires period > 0
    ensures frequency >= period ==> filled
    ensures frequency == 0 ==> !filled
    ensures d.renderIteration < frequency ==> filled
  {
    d.renderIteration % period < frequency
  }

  /** How many of `n` consecutive renders, starting at `d`, see the filled branch. */
  function FilledCount(d: Display, n: nat, frequency: UInt8, period: UInt8): nat
    requires Valid(d) && period > 0
    decreases n
  {
    if n == 0 then 0
    else (if BlinkSection(d, frequency, period) then 1 else 0) + FilledCount(Render(d).0, n - 1, frequency, period)
  }

  /** The number of t with a <= t < b and t < f. */
  function Below(f: int, a: int, b: int): int
  {
    if f <= a then 0 else if f >= b then b - a else f - a
  }

  lemma ModOfMod256(a: nat, p: nat)
    requires p > 0 && 256 % p == 0
    ensures (a % 256) % p == a % p
  {
    var m := 256 / p;
    assert 256 == p * m;
    var q, r := a / 256, a % 256;
    assert a == p * (m * q) + r by {
      assert a == 256 * q + r;
      assert 256 * q == p * (m * q);
    }
    DivUnique(r, p, r / p, r % p);
    assert a == p * (m * q + r / p) + r % p;
    DivUnique(a, p, m * q + r / p, r % p);
  }

  lemma ModStep(i: nat, p: nat)
    requires p > 0 && i % p + 1 < p
    ensures (i + 1) % p == i % p + 1
  {
    DivUnique(i + 1, p, i / p, i % p + 1);
  }

  /**
   For a period dividing 256, so that the wrap of the counter keeps the
   phase, the `period` renders of one cycle pick the filled branch exactly
   min(frequency, period) times: `frequency` is the number of filled frames
   per cycle.
   */
  lemma {:induction false} BlinkDutyCycle(d: Display, n: nat, frequency: UInt8, period: UInt8)
    requires Valid(d) && period > 0 && 256 % period == 0
    requires d.renderIteration % period + n <= period
    ensures FilledCount(d, n, frequency, period)
      == Below(frequency, d.renderIteration % period, d.renderIteration % period + n)
    decreases n
  {
    if n > 0 {
      var d1 := Render(d).0;
      var i := d.renderIteration;
      if n > 1 {
        ModOfMod256(i + 1, period);
        ModStep(i, period);
        assert d1.renderIteration % period == i % period + 1;
      }
      if n == 1 {
        assert FilledCount(d1, 0, frequency, period) == 0;
      } else {
        BlinkDutyCycle(d1, n - 1, frequency, period);
      }
    }
  }

  /** A full cycle from the start of a period: `frequency` filled frames, at most `period`. */
  lemma BlinkFullCycle(d: Display, frequency: UInt8, period: UInt8)
    requires Valid(d) && period > 0 && 256 % period == 0 && d.renderIteration % period == 0
    ensures FilledCount(d, period, frequency, period) == if frequency < period then frequency else period
  {
    BlinkDutyCycle(d, period, frequency, period);
  }

  /** For a period not dividing 256 the counter's wrap breaks the phase: period 3 repeats phase 0. */
  lemma BlinkWrapRepeatsPhase(d: Display)
    requires Valid(d) && d.renderIteration == 255
    ensures BlinkSection(d, 1, 3) && BlinkSection(Render(d).0, 1, 3)
  {
  }
}
