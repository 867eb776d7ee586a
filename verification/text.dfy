/**
 Text output of the SSD1306 engine: `draw_char` (glyph lookup in the
 current font's atlas and a bitmap blit), `draw_string` for text and for
 integers, and their centred forms.  A string is laid out left to right in
 glyph cells; a glyph that would cross the right edge of the panel starts a
 new text row at the string's first column.
 */
module Text {
  import opened Bits
  import PageLayout
  import Bitmaps
  import Fonts
  import FrameBuffers
  import Decimal
  import Ssd1306

  /** The ASCII code of ' ', the first glyph of a full font. */
  const SPACE: UInt8 := 32

  /* ---------------------------------------------------------------- glyphs */

  /**
   The glyph number `draw_char` looks up for `chr`: `chr - ' ' + offset`,
   and `'0' - ' '` less for a number-only font, each result kept in an
   unsigned `char`.
   */
  function GlyphIndex(f: Fonts.Font, chr: UInt8): (idx: UInt8)
    ensures (chr - SPACE + f.glyphOffset - (if f.numberOnly then Decimal.ZERO - SPACE else 0) - idx) % 256 == 0
  {
    var shifted := U8(chr - SPACE + f.glyphOffset);
    if f.numberOnly then U8(shifted - (Decimal.ZERO - SPACE)) else shifted
  }

  /** In a full font the printable characters from ' ' on are numbered from the glyph offset. */
  lemma PrintableGlyphIndex(f: Fonts.Font, chr: UInt8)
    requires !f.numberOnly && SPACE <= chr && chr - SPACE + f.glyphOffset < 256
    ensures GlyphIndex(f, chr) == chr - SPACE + f.glyphOffset
  {
  }

  /** In a number-only font the digit '0' + k is glyph k after the offset. */
  lemma DigitGlyphIndex(f: Fonts.Font, k: nat)
    requires f.numberOnly && k < 10 && k + f.glyphOffset < 256
    ensures GlyphIndex(f, Decimal.ZERO + k) == k + f.glyphOffset
  {
  }

  /** `font_map_width / glyph_width`: how many glyphs one atlas row holds. */
  function GlyphsPerRow(f: Fonts.Font): (n: nat)
    requires Fonts.Usable(f)
    ensures 1 <= n && n * f.glyphWidth <= f.mapWidth < (n + 1) * f.glyphWidth
  {
    var n := f.mapWidth / f.glyphWidth;
    FloorDiv(f.mapWidth, f.glyphWidth);
    n
  }

  /** `q = a / b` is the largest `q` with `q * b <= a`. */
  lemma FloorDiv(a: nat, b: nat)
    requires b > 0
    ensures (a / b) * b <= a < (a / b + 1) * b
  {
    assert a == (a / b) * b + a % b;
    assert (a / b + 1) * b == (a / b) * b + b;
  }

  /** `j * b` divided by `b` leaves quotient `j`, remainder 0. */
  lemma MulDiv(j: nat, b: nat)
    requires b > 0
    ensures (j * b) / b == j && (j * b) % b == 0
  {
    DivUnique(j * b, b, j, 0);
  }

  /**
   The top-left corner (glyph_x, glyph_y) in the atlas of glyph `idx`:
   column `idx % per_row` and row `idx / per_row` scaled by the glyph size,
   both stored as `uint8_t`.  The column never wraps and always ends inside
   the atlas width the font declares.
   */
  function GlyphCell(f: Fonts.Font, idx: UInt8): (c: (UInt8, UInt8))
    requires Fonts.Usable(f)
    ensures c.0 + f.glyphWidth <= f.mapWidth
  {
    var n := GlyphsPerRow(f);
    var col := idx % n;
    var x := col * f.glyphWidth;
    PageLayout.MulMono(col + 1, n, f.glyphWidth);
    MulSucc(col, f.glyphWidth);
    (x, U8(idx / n * f.glyphHeight))
  }

  /** The cell's x is a whole number of glyph widths: the glyph's column in the atlas. */
  lemma GlyphColumn(f: Fonts.Font, idx: UInt8)
    requires Fonts.Usable(f)
    ensures var c := GlyphCell(f, idx);
      c.0 % f.glyphWidth == 0 && c.0 / f.glyphWidth == idx % GlyphsPerRow(f)
  {
    MulDiv(idx % GlyphsPerRow(f), f.glyphWidth);
  }

  /**
   When the glyph's row does not wrap the `uint8_t` glyph_y, the atlas cell
   gives back the glyph number: row * per_row + column.  Distinct glyphs
   therefore sit in distinct cells.
   */
  lemma GlyphCellIdentifiesGlyph(f: Fonts.Font, idx: UInt8)
    requires Fonts.Usable(f) && f.glyphHeight > 0
    requires (idx / GlyphsPerRow(f)) * f.glyphHeight < 256
    ensures var c := GlyphCell(f, idx);
      c.1 % f.glyphHeight == 0 && (c.1 / f.glyphHeight) * GlyphsPerRow(f) + c.0 / f.glyphWidth == idx
  {
    var n := GlyphsPerRow(f);
    GlyphColumn(f, idx);
    MulDiv(idx / n, f.glyphHeight);
  }

  /** The glyph for `chr` lies wholly inside the font's atlas bitmap. */
  predicate GlyphFits(f: Fonts.Font, chr: UInt8)
    requires Fonts.Usable(f)
  {
    var c := GlyphCell(f, GlyphIndex(f, chr));
    c.0 + f.glyphWidth <= f.atlas.width && c.1 + f.glyphHeight <= f.atlas.height
  }

  /** Pixel (dx, dy) of the glyph `chr`, read from the atlas. */
  predicate GlyphPixel(f: Fonts.Font, chr: UInt8, dx: nat, dy: nat)
    requires Fonts.Usable(f) && GlyphFits(f, chr) && dx < f.glyphWidth && dy < f.glyphHeight
  {
    var c := GlyphCell(f, GlyphIndex(f, chr));
    Bitmaps.PixelOn(f.atlas, c.0 + dx, c.1 + dy)
  }

  /** The font `draw_char` uses: the one of the display's selected size. */
  function CurrentFont(d: Ssd1306.Display, fonts: Ssd1306.FontSet): Fonts.Font
  {
    Ssd1306.FontFor(fonts, d.fontSize)
  }

  /** A display whose current font `draw_char` can use. */
  predicate Ready(d: Ssd1306.Display, fonts: Ssd1306.FontSet)
  {
    Ssd1306.Valid(d) && Fonts.Usable(CurrentFont(d, fonts))
  }

  /**
   The glyph `chr` of font `f` drawn opaquely at (x, y): its cell shows the
   glyph, lit or not, and every other pixel is kept.
   */
  predicate ShowsGlyph(before: Ssd1306.Display, after: Ssd1306.Display, f: Fonts.Font, chr: UInt8, x: int, y: int)
    requires Ssd1306.Valid(before) && Ssd1306.Valid(after) && Fonts.Usable(f) && GlyphFits(f, chr)
  {
    forall px: nat, py: nat | px < Ssd1306.SCREEN_WIDTH && py < Ssd1306.SCREEN_HEIGHT ::
      Ssd1306.Pixel(after, px, py) ==
        if FrameBuffers.InRect(x, y, f.glyphWidth, f.glyphHeight, px, py)
        then GlyphPixel(f, chr, px - x, py - y)
        else Ssd1306.Pixel(before, px, py)
  }

  /**
   `draw_char(x, y, chr)`: the glyph's atlas cell blitted at (x, y) through
   `draw_bitmap`.  When the glyph lies in the atlas and its cell on the
   panel, the panel shows the glyph there and nothing else changes.
   */
  function DrawChar(d: Ssd1306.Display, fonts: Ssd1306.FontSet, x: UInt8, y: UInt8, chr: UInt8): (r: Ssd1306.Display)
    requires Ready(d, fonts)
    ensures Ready(r, fonts) && Ssd1306.SameSettings(d, r) && r.pending
  {
    var f := CurrentFont(d, fonts);
    var c := GlyphCell(f, GlyphIndex(f, chr));
    Ssd1306.DrawBitmapRegion(d, x, y, c.0, c.1, f.glyphWidth, f.glyphHeight, f.atlas)
  }

  /** A glyph of the atlas drawn with its cell on the panel shows there, and nothing else changes. */
  lemma DrawCharShows(d: Ssd1306.Display, fonts: Ssd1306.FontSet, x: UInt8, y: UInt8, chr: UInt8)
    requires Ready(d, fonts)
    requires var f := CurrentFont(d, fonts);
      GlyphFits(f, chr) && x + f.glyphWidth <= Ssd1306.SCREEN_WIDTH && y + f.glyphHeight <= Ssd1306.SCREEN_HEIGHT
    ensures ShowsGlyph(d, DrawChar(d, fonts, x, y, chr), CurrentFont(d, fonts), chr, x, y)
  {
    var f := CurrentFont(d, fonts);
    var c := GlyphCell(f, GlyphIndex(f, chr));
    var r := Ssd1306.DrawBitmapRegion(d, x, y, c.0, c.1, f.glyphWidth, f.glyphHeight, f.atlas);
    assert Ssd1306.Shows(d, r, x, y, f.glyphWidth, f.glyphHeight, f.atlas, c.0, c.1);
  }

  /**
   A glyph drawn at any (x, y), its cell crossing the panel edge or not: the
   atlas cell is blitted by the rule of `Ssd1306.BlitCells`.
   */
  lemma DrawCharCells(d: Ssd1306.Display, fonts: Ssd1306.FontSet, x: UInt8, y: UInt8, chr: UInt8)
    requires Ready(d, fonts)
    ensures var f := CurrentFont(d, fonts);
      var c := GlyphCell(f, GlyphIndex(f, chr));
      Ssd1306.BlitCells(d, DrawChar(d, fonts, x, y, chr), x, y,
                        FrameBuffers.ClipExtent(c.0, f.glyphWidth, f.atlas.width),
                        FrameBuffers.ClipExtent(c.1, f.glyphHeight, f.atlas.height), f.atlas, c.0, c.1)
  {
    var f := CurrentFont(d, fonts);
    var c := GlyphCell(f, GlyphIndex(f, chr));
    Ssd1306.DrawBitmapRegionCells(d, x, y, c.0, c.1, f.glyphWidth, f.glyphHeight, f.atlas);
  }

  /* ---------------------------------------------------------------- layout */

  /** The text cursor (cur_x, cur_y) of `draw_string`. */
  datatype Cursor = Cursor(x: UInt8, y: UInt8)

  /**
   The cursor after one character of a string started at column `x0`: one
   glyph to the right (a `uint8_t` sum), or back to `x0` one glyph row down
   when a further glyph would cross the right edge of the panel.
   */
  function Advance(c: Cursor, x0: UInt8, gw: UInt8, gh: UInt8): Cursor
  {
    var nx := U8(c.x + gw);
    if nx + gw > Ssd1306.SCREEN_WIDTH then Cursor(x0, U8(c.y + gh)) else Cursor(nx, c.y)
  }

  /** The cursor after `k` characters. */
  function AdvanceBy(c: Cursor, x0: UInt8, gw: UInt8, gh: UInt8, k: nat): Cursor
    decreases k
  {
    if k == 0 then c else AdvanceBy(Advance(c, x0, gw, gh), x0, gw, gh, k - 1)
  }

  /** Glyphs per text row of a string started at column `x0`: the most that fit before the right edge. */
  function PerRow(x0: UInt8, gw: UInt8): (n: nat)
    requires gw > 0 && x0 + gw <= Ssd1306.SCREEN_WIDTH
    ensures n >= 1 && x0 + n * gw <= Ssd1306.SCREEN_WIDTH < x0 + (n + 1) * gw
  {
    FloorDiv(Ssd1306.SCREEN_WIDTH - x0, gw);
    (Ssd1306.SCREEN_WIDTH - x0) / gw
  }

  lemma DivMono(a: nat, b: nat, n: nat)
    requires a <= b && n > 0
    ensures a / n <= b / n
  {
    FloorDiv(a, n);
    FloorDiv(b, n);
    if a / n > b / n {
      PageLayout.MulMono(b / n + 1, a / n, n);
      assert false;
    }
  }

  /**
   Where character `k` of a string started at (x0, y0) is drawn: column
   `k % per_row` of text row `k / per_row`.  Its glyph never crosses the
   right edge of the panel.
   */
  function LayoutAt(x0: UInt8, y0: UInt8, gw: UInt8, gh: UInt8, k: nat): (c: Cursor)
    requires gw > 0 && x0 + gw <= Ssd1306.SCREEN_WIDTH
    ensures c.x + gw <= Ssd1306.SCREEN_WIDTH
  {
    var n := PerRow(x0, gw);
    var col := k % n;
    PageLayout.MulMono(col + 1, n, gw);
    assert (col + 1) * gw == col * gw + gw;
    Cursor(x0 + col * gw, U8(y0 + k / n * gh))
  }

  /** One advance moves the cursor from slot `k` of the layout to slot `k + 1`. */
  lemma LayoutStep(x0: UInt8, y0: UInt8, gw: UInt8, gh: UInt8, k: nat)
    requires gw > 0 && x0 + gw <= Ssd1306.SCREEN_WIDTH
    ensures Advance(LayoutAt(x0, y0, gw, gh, k), x0, gw, gh) == LayoutAt(x0, y0, gw, gh, k + 1)
  {
    var n := PerRow(x0, gw);
    var col, row := k % n, k / n;
    var c := LayoutAt(x0, y0, gw, gh, k);
    assert c == Cursor(x0 + col * gw, U8(y0 + row * gh));
    assert k == n * row + col;
    MulSucc(col, gw);
    if col + 1 < n {
      DivUnique(k + 1, n, row, col + 1);
      MulSucc(col + 1, gw);
      PageLayout.MulMono(col + 2, n, gw);
    } else {
      MulSucc(row, n);
      DivUnique(k + 1, n, row + 1, 0);
      MulSucc(n - 1, gw);
      MulSucc(row, gh);
      U8Absorbs(y0 + row * gh, gh);
    }
  }

  /**
   The cursor of `draw_string` after `k` characters, in closed form: `k`
   characters after slot `j` is slot `j + k`.
   */
  lemma {:induction false} LayoutClosedForm(x0: UInt8, y0: UInt8, gw: UInt8, gh: UInt8, j: nat, k: nat)
    requires gw > 0 && x0 + gw <= Ssd1306.SCREEN_WIDTH
    ensures AdvanceBy(LayoutAt(x0, y0, gw, gh, j), x0, gw, gh, k) == LayoutAt(x0, y0, gw, gh, j + k)
    decreases k
  {
    if k > 0 {
      LayoutStep(x0, y0, gw, gh, j);
      LayoutClosedForm(x0, y0, gw, gh, j + 1, k - 1);
    }
  }

  /**
   A string started at (x0, y0) puts character `k` at column
   x0 + (k % per_row) * gw of text row y0 + (k / per_row) * gh (as `uint8_t`).
   */
  lemma StringLayout(x0: UInt8, y0: UInt8, gw: UInt8, gh: UInt8, k: nat)
    requires gw > 0 && x0 + gw <= Ssd1306.SCREEN_WIDTH
    ensures var c := AdvanceBy(Cursor(x0, y0), x0, gw, gh, k);
      c.x == x0 + k % PerRow(x0, gw) * gw && c.y == U8(y0 + k / PerRow(x0, gw) * gh)
  {
    assert LayoutAt(x0, y0, gw, gh, 0) == Cursor(x0, y0);
    LayoutClosedForm(x0, y0, gw, gh, 0, k);
  }

  /**
   The character slot of a string started at (x0, y0) that covers pixel
   (px, py), or -1 when it is left of, above or right of every slot.
   */
  function SlotOf(x0: UInt8, y0: UInt8, gw: UInt8, gh: UInt8, px: int, py: int): int
    requires gw > 0 && gh > 0 && x0 + gw <= Ssd1306.SCREEN_WIDTH
  {
    var n := PerRow(x0, gw);
    if px < x0 || py < y0 || px >= x0 + n * gw then -1
    else (py - y0) / gh * n + (px - x0) / gw
  }

  /** `a / b == q` exactly when `a` lies in [q * b, q * b + b). */
  lemma DivBracket(a: int, b: int, q: int)
    requires b > 0 && q * b <= a < q * b + b
    ensures a / b == q && a % b == a - q * b
  {
    DivUnique(a, b, q, a - q * b);
  }

  /** Offsets in slot `k`'s cell give slot number `k`. */
  lemma CellToSlotArith(a: int, b: int, gw: int, gh: int, n: int, k: nat)
    requires gw > 0 && gh > 0 && n > 0
    requires k % n * gw <= a < k % n * gw + gw && k / n * gh <= b < k / n * gh + gh
    ensures b / gh * n + a / gw == k
  {
    DivBracket(a, gw, k % n);
    DivBracket(b, gh, k / n);
  }

  /** Slot number `k` puts the offsets in slot `k`'s cell. */
  lemma SlotToCellArith(a: int, b: int, gw: int, gh: int, n: int, k: nat)
    requires gw > 0 && gh > 0 && n > 0 && 0 <= a < n * gw && 0 <= b
    requires b / gh * n + a / gw == k
    ensures k % n * gw <= a < k % n * gw + gw && k / n * gh <= b < k / n * gh + gh
  {
    var col, row := a / gw, b / gh;
    FloorDiv(a, gw);
    FloorDiv(b, gh);
    if col >= n {
      PageLayout.MulMono(n, col, gw);
      assert false;
    }
    DivUnique(k, n, row, col);
    assert (col + 1) * gw == col * gw + gw;
    assert (row + 1) * gh == row * gh + gh;
  }

  /** Offsets (a, b) from the string's origin lie in slot `k`'s cell exactly when their slot number is `k`. */
  lemma CoverArith(a: int, b: int, gw: int, gh: int, n: int, k: nat)
    requires gw > 0 && gh > 0 && n > 0
    ensures var cx, cy := k % n * gw, k / n * gh;
      (cx <= a < cx + gw && cy <= b < cy + gh) <==> (0 <= a < n * gw && 0 <= b && b / gh * n + a / gw == k)
    ensures var cx, cy := k % n * gw, k / n * gh;
      cx <= a < cx + gw && cy <= b < cy + gh ==> a - cx == a % gw && b - cy == b % gh
  {
    var cx, cy := k % n * gw, k / n * gh;
    PageLayout.MulMono(k % n + 1, n, gw);
    assert (k % n + 1) * gw == cx + gw;
    if cx <= a < cx + gw && cy <= b < cy + gh {
      CellToSlotArith(a, b, gw, gh, n, k);
      DivBracket(a, gw, k % n);
      DivBracket(b, gh, k / n);
    }
    if 0 <= a < n * gw && 0 <= b && b / gh * n + a / gw == k {
      SlotToCellArith(a, b, gw, gh, n, k);
    }
  }

  /** Slot `k`'s corner, when its text row does not wrap the `uint8_t` cursor. */
  lemma LayoutAtExact(x0: UInt8, y0: UInt8, gw: UInt8, gh: UInt8, k: nat)
    requires gw > 0 && x0 + gw <= Ssd1306.SCREEN_WIDTH
    requires y0 + (k / PerRow(x0, gw) + 1) * gh <= 256
    ensures var n := PerRow(x0, gw);
      LayoutAt(x0, y0, gw, gh, k).x == x0 + k % n * gw && LayoutAt(x0, y0, gw, gh, k).y == y0 + k / n * gh
  {
    var n := PerRow(x0, gw);
    var y := y0 + k / n * gh;
    assert 0 <= y < 256 by {
      assert (k / n + 1) * gh == k / n * gh + gh;
    }
    assert LayoutAt(x0, y0, gw, gh, k).y == U8(y);
  }

  /**
   Slot `k`'s glyph cell is exactly the set of pixels whose slot is `k`,
   as long as its text row does not wrap the `uint8_t` cursor; inside it a
   pixel's offset in the glyph is its offset modulo the glyph size.
   */
  lemma SlotCoversCell(x0: UInt8, y0: UInt8, gw: UInt8, gh: UInt8, k: nat, px: int, py: int)
    requires gw > 0 && gh > 0 && x0 + gw <= Ssd1306.SCREEN_WIDTH
    requires y0 + (k / PerRow(x0, gw) + 1) * gh <= 256
    ensures var c := LayoutAt(x0, y0, gw, gh, k);
      FrameBuffers.InRect(c.x, c.y, gw, gh, px, py) <==> SlotOf(x0, y0, gw, gh, px, py) == k
    ensures var c := LayoutAt(x0, y0, gw, gh, k);
      SlotOf(x0, y0, gw, gh, px, py) == k ==> px - c.x == (px - x0) % gw && py - c.y == (py - y0) % gh
  {
    LayoutAtExact(x0, y0, gw, gh, k);
    CoverArith(px - x0, py - y0, gw, gh, PerRow(x0, gw), k);
  }

  /* --------------------------------------------------------------- strings */

  /**
   The loop of `draw_string` from cursor `c`, for a string started at
   column `x0`: each character drawn at the cursor, then the cursor
   advanced.  Returns the display and the final cursor, which depends only
   on how many characters were drawn.
   */
  function DrawChars(d: Ssd1306.Display, fonts: Ssd1306.FontSet, x0: UInt8, c: Cursor, s: seq<UInt8>)
    : (r: (Ssd1306.Display, Cursor))
    requires Ready(d, fonts)
    ensures Ready(r.0, fonts) && Ssd1306.SameSettings(d, r.0)
    ensures r.0.pending == (d.pending || |s| > 0)
    ensures r.1 == AdvanceBy(c, x0, CurrentFont(d, fonts).glyphWidth, CurrentFont(d, fonts).glyphHeight, |s|)
    decreases |s|
  {
    if |s| == 0 then (d, c)
    else
      var f := CurrentFont(d, fonts);
      DrawChars(DrawChar(d, fonts, c.x, c.y, s[0]), fonts, x0, Advance(c, x0, f.glyphWidth, f.glyphHeight), s[1..])
  }

  /** Drawing `s + t` is drawing `s`, then `t` from where `s` left the cursor. */
  lemma {:induction false} DrawCharsAppend(d: Ssd1306.Display, fonts: Ssd1306.FontSet, x0: UInt8, c: Cursor,
                                           s: seq<UInt8>, t: seq<UInt8>)
    requires Ready(d, fonts)
    ensures var p := DrawChars(d, fonts, x0, c, s);
      DrawChars(d, fonts, x0, c, s + t) == DrawChars(p.0, fonts, x0, p.1, t)
    decreases |s|
  {
    if |s| == 0 {
      assert s + t == t;
    } else {
      var f := CurrentFont(d, fonts);
      assert (s + t)[0] == s[0] && (s + t)[1..] == s[1..] + t;
      DrawCharsAppend(DrawChar(d, fonts, c.x, c.y, s[0]), fonts, x0, Advance(c, x0, f.glyphWidth, f.glyphHeight), s[1..], t);
    }
  }

  /** The last text row of `m` characters from slot `j` on lies on the panel. */
  predicate RowsOnPanel(x0: UInt8, y0: UInt8, gw: UInt8, gh: UInt8, j: nat, m: nat)
    requires gw > 0 && x0 + gw <= Ssd1306.SCREEN_WIDTH
  {
    m > 0 ==> y0 + ((j + m - 1) / PerRow(x0, gw) + 1) * gh <= Ssd1306.SCREEN_HEIGHT
  }

  /** When the last text row is on the panel, so is the first. */
  lemma FirstRowOnPanel(y0: int, gh: nat, j: nat, m: nat, n: nat)
    requires m > 0 && n > 0 && y0 + ((j + m - 1) / n + 1) * gh <= Ssd1306.SCREEN_HEIGHT
    ensures y0 + j / n * gh + gh <= Ssd1306.SCREEN_HEIGHT
  {
    DivMono(j, j + m - 1, n);
    PageLayout.MulMono(j / n + 1, (j + m - 1) / n + 1, gh);
    assert (j / n + 1) * gh == j / n * gh + gh;
  }

  /** The font can lay out `s` from column `x0`: glyphs of some height, the first fits across, all in the atlas. */
  predicate Printable(f: Fonts.Font, x0: UInt8, s: seq<UInt8>)
  {
    Fonts.Usable(f) && f.glyphHeight > 0 && x0 + f.glyphWidth <= Ssd1306.SCREEN_WIDTH &&
    forall i | 0 <= i < |s| :: GlyphFits(f, s[i])
  }

  /**
   `after` is `before` with `s` drawn from slot `j` of the layout at
   (x0, y0): a pixel in slot `j + i` shows glyph `s[i]` at its offset in the
   slot, and a pixel outside those slots keeps its value.
   */
  predicate DrawnFrom(before: Ssd1306.Display, after: Ssd1306.Display, f: Fonts.Font, x0: UInt8, y0: UInt8,
                      j: nat, s: seq<UInt8>)
    requires Ssd1306.Valid(before) && Ssd1306.Valid(after) && Printable(f, x0, s)
  {
    forall px: nat, py: nat | px < Ssd1306.SCREEN_WIDTH && py < Ssd1306.SCREEN_HEIGHT ::
      Ssd1306.Pixel(after, px, py) ==
        var k := SlotOf(x0, y0, f.glyphWidth, f.glyphHeight, px, py);
        if j <= k < j + |s| then GlyphPixel(f, s[k - j], (px - x0) % f.glyphWidth, (py - y0) % f.glyphHeight)
        else Ssd1306.Pixel(before, px, py)
  }

  /** One glyph drawn at slot `j`, then the rest from slot `j + 1`: the whole string is drawn from slot `j`. */
  lemma DrawnFromStep(d: Ssd1306.Display, d1: Ssd1306.Display, r: Ssd1306.Display, f: Fonts.Font,
                      x0: UInt8, y0: UInt8, j: nat, s: seq<UInt8>)
    requires Ssd1306.Valid(d) && Ssd1306.Valid(d1) && Ssd1306.Valid(r) && Printable(f, x0, s) && |s| > 0
    requires y0 + (j / PerRow(x0, f.glyphWidth) + 1) * f.glyphHeight <= 256
    requires var c := LayoutAt(x0, y0, f.glyphWidth, f.glyphHeight, j); ShowsGlyph(d, d1, f, s[0], c.x, c.y)
    requires DrawnFrom(d1, r, f, x0, y0, j + 1, s[1..])
    ensures DrawnFrom(d, r, f, x0, y0, j, s)
  {
    var gw, gh := f.glyphWidth, f.glyphHeight;
    var c := LayoutAt(x0, y0, gw, gh, j);
    forall px: nat, py: nat | px < Ssd1306.SCREEN_WIDTH && py < Ssd1306.SCREEN_HEIGHT
      ensures Ssd1306.Pixel(r, px, py) ==
        var k := SlotOf(x0, y0, gw, gh, px, py);
        if j <= k < j + |s| then GlyphPixel(f, s[k - j], (px - x0) % gw, (py - y0) % gh)
        else Ssd1306.Pixel(d, px, py)
    {
      var k := SlotOf(x0, y0, gw, gh, px, py);
      SlotCoversCell(x0, y0, gw, gh, j, px, py);
      if j + 1 <= k < j + |s| {
        assert s[1..][k - (j + 1)] == s[k - j];
      }
    }
  }

  /**
   Drawing `s` from slot `j` when every glyph is in the atlas and every text
   row on the panel shows each glyph in its own slot: no later glyph
   overwrites an earlier one, and pixels outside the slots are kept.
   */
  lemma {:induction false} DrawCharsEffect(d: Ssd1306.Display, fonts: Ssd1306.FontSet, f: Fonts.Font,
                                           x0: UInt8, y0: UInt8, j: nat, s: seq<UInt8>)
    requires Ready(d, fonts) && f == CurrentFont(d, fonts) && Printable(f, x0, s)
    requires RowsOnPanel(x0, y0, f.glyphWidth, f.glyphHeight, j, |s|)
    ensures DrawnFrom(d, DrawChars(d, fonts, x0, LayoutAt(x0, y0, f.glyphWidth, f.glyphHeight, j), s).0, f, x0, y0, j, s)
    decreases |s|
  {
    var gw, gh := f.glyphWidth, f.glyphHeight;
    var c := LayoutAt(x0, y0, gw, gh, j);
    var r := DrawChars(d, fonts, x0, c, s).0;
    if |s| == 0 {
      assert DrawnFrom(d, r, f, x0, y0, j, s);
    } else {
      assert RowsOnPanel(x0, y0, gw, gh, j + 1, |s| - 1) by {
        assert j + 1 + (|s| - 1) - 1 == j + |s| - 1;
      }
      assert Printable(f, x0, s[1..]) by {
        forall i | 0 <= i < |s[1..]| ensures GlyphFits(f, s[1..][i]) {
          assert s[1..][i] == s[i + 1];
        }
      }
      var d1 := FirstGlyph(d, fonts, x0, y0, j, s);
      LayoutStep(x0, y0, gw, gh, j);
      var r1 := DrawChars(d1, fonts, x0, LayoutAt(x0, y0, gw, gh, j + 1), s[1..]).0;
      assert r1 == r;
      DrawCharsEffect(d1, fonts, f, x0, y0, j + 1, s[1..]);
      DrawnFromStep(d, d1, r, f, x0, y0, j, s);
    }
  }

  /** The first glyph of `s`, drawn at slot `j`, shows in that slot's cell. */
  lemma FirstGlyph(d: Ssd1306.Display, fonts: Ssd1306.FontSet, x0: UInt8, y0: UInt8, j: nat, s: seq<UInt8>)
    returns (d1: Ssd1306.Display)
    requires Ready(d, fonts) && Printable(CurrentFont(d, fonts), x0, s) && |s| > 0
    requires RowsOnPanel(x0, y0, CurrentFont(d, fonts).glyphWidth, CurrentFont(d, fonts).glyphHeight, j, |s|)
    ensures var f := CurrentFont(d, fonts);
      var c := LayoutAt(x0, y0, f.glyphWidth, f.glyphHeight, j);
      d1 == DrawChar(d, fonts, c.x, c.y, s[0]) && Ready(d1, fonts) && CurrentFont(d1, fonts) == f &&
      y0 + (j / PerRow(x0, f.glyphWidth) + 1) * f.glyphHeight <= 256 &&
      ShowsGlyph(d, d1, f, s[0], c.x, c.y)
  {
    var f := CurrentFont(d, fonts);
    var gw, gh := f.glyphWidth, f.glyphHeight;
    var n := PerRow(x0, gw);
    FirstRowOnPanel(y0, gh, j, |s|, n);
    assert (j / n + 1) * gh == j / n * gh + gh;
    LayoutAtExact(x0, y0, gw, gh, j);
    var c := LayoutAt(x0, y0, gw, gh, j);
    assert GlyphFits(f, s[0]);
    d1 := DrawChar(d, fonts, c.x, c.y, s[0]);
    DrawCharShows(d, fonts, c.x, c.y, s[0]);
  }

  /** `draw_string(x, y, str)`: the characters laid out from (x, y). */
  function DrawString(d: Ssd1306.Display, fonts: Ssd1306.FontSet, x: UInt8, y: UInt8, s: seq<UInt8>): (r: Ssd1306.Display)
    requires Ready(d, fonts)
    ensures Ready(r, fonts) && Ssd1306.SameSettings(d, r) && r.pending == (d.pending || |s| > 0)
  {
    DrawChars(d, fonts, x, Cursor(x, y), s).0
  }

  /**
   What `draw_string(x, y, str)` shows when the first glyph fits across the
   panel, every glyph is in the atlas and every text row is on the panel:
   pixel (px, py) in slot k < |str| shows glyph str[k] at offset
   ((px - x) % gw, (py - y) % gh); every other pixel is kept.
   */
  lemma DrawStringEffect(d: Ssd1306.Display, fonts: Ssd1306.FontSet, x: UInt8, y: UInt8, s: seq<UInt8>)
    requires Ready(d, fonts) && Printable(CurrentFont(d, fonts), x, s)
    requires RowsOnPanel(x, y, CurrentFont(d, fonts).glyphWidth, CurrentFont(d, fonts).glyphHeight, 0, |s|)
    ensures DrawnFrom(d, DrawString(d, fonts, x, y, s), CurrentFont(d, fonts), x, y, 0, s)
  {
    var f := CurrentFont(d, fonts);
    assert LayoutAt(x, y, f.glyphWidth, f.glyphHeight, 0) == Cursor(x, y);
    DrawCharsEffect(d, fonts, f, x, y, 0, s);
  }

  /** Up to `m` glyphs per text row when `m` of them fit before the right edge. */
  lemma PerRowAtLeast(x0: UInt8, gw: UInt8, m: nat)
    requires gw > 0 && x0 + gw <= Ssd1306.SCREEN_WIDTH && x0 + m * gw <= Ssd1306.SCREEN_WIDTH
    ensures PerRow(x0, gw) >= m
  {
    var n := PerRow(x0, gw);
    if m > n {
      PageLayout.MulMono(n + 1, m, gw);
      assert false;
    }
  }

  /** An offset inside the first `m` glyph columns lies in column (a / gw) < m. */
  lemma ColumnBelow(a: int, gw: int, m: int)
    requires gw > 0 && 0 <= a < m * gw
    ensures 0 <= a / gw < m
  {
    var q := a / gw;
    FloorDiv(a, gw);
    if q >= m {
      PageLayout.MulMono(m, q, gw);
    }
  }

  /** Offsets inside the block of the first `m` slots of text row 0 give slot a / gw < m. */
  lemma BlockToSlotArith(a: int, b: int, gw: int, gh: int, n: int, m: int)
    requires gw > 0 && gh > 0 && n >= m >= 0 && m * gw <= n * gw
    requires 0 <= a < m * gw && 0 <= b < gh
    ensures a < n * gw && b / gh * n + a / gw == a / gw < m && b % gh == b
  {
    DivBracket(b, gh, 0);
    ColumnBelow(a, gw, m);
  }

  /** Slot numbers below `m <= per_row` lie in text row 0, within the first `m` columns. */
  lemma SlotToBlockArith(a: int, b: int, gw: int, gh: int, n: int, m: int)
    requires gw > 0 && gh > 0 && n >= m >= 0 && 0 <= a && 0 <= b
    requires 0 <= b / gh * n + a / gw < m
    ensures a < m * gw && b < gh
  {
    var row, col := b / gh, a / gw;
    FloorDiv(a, gw);
    FloorDiv(b, gh);
    if row >= 1 {
      PageLayout.MulMono(1, row, n);
      assert false;
    }
    PageLayout.MulMono(col + 1, m, gw);
    assert (col + 1) * gw == col * gw + gw;
  }

  /**
   A string of `m` glyphs that fits on one text row occupies the block
   [x0, x0 + m * gw) x [y0, y0 + gh): a pixel's slot is below `m` exactly
   when it lies in that block, and then the slot is (px - x0) / gw.
   */
  lemma SingleRowSlots(x0: UInt8, y0: UInt8, gw: UInt8, gh: UInt8, m: nat, px: int, py: int)
    requires gw > 0 && gh > 0 && x0 + gw <= Ssd1306.SCREEN_WIDTH && x0 + m * gw <= Ssd1306.SCREEN_WIDTH
    ensures var k := SlotOf(x0, y0, gw, gh, px, py);
      (0 <= k < m) <==> FrameBuffers.InRect(x0, y0, m * gw, gh, px, py)
    ensures var k := SlotOf(x0, y0, gw, gh, px, py);
      0 <= k < m ==> k == (px - x0) / gw && (py - y0) % gh == py - y0
  {
    BlockHasSlot(x0, y0, gw, gh, m, px, py);
    SlotInBlock(x0, y0, gw, gh, m, px, py);
  }

  /** A pixel of the one-row block has a slot below `m`. */
  lemma BlockHasSlot(x0: UInt8, y0: UInt8, gw: UInt8, gh: UInt8, m: nat, px: int, py: int)
    requires gw > 0 && gh > 0 && x0 + gw <= Ssd1306.SCREEN_WIDTH && x0 + m * gw <= Ssd1306.SCREEN_WIDTH
    ensures FrameBuffers.InRect(x0, y0, m * gw, gh, px, py) ==> 0 <= SlotOf(x0, y0, gw, gh, px, py) < m
  {
    if FrameBuffers.InRect(x0, y0, m * gw, gh, px, py) {
      var n := PerRow(x0, gw);
      var a, b := px - x0, py - y0;
      assert a < n * gw && 0 <= b / gh * n + a / gw < m by {
        PerRowAtLeast(x0, gw, m);
        PageLayout.MulMono(m, n, gw);
        BlockToSlotArith(a, b, gw, gh, n, m);
      }
    }
  }

  /** A slot below `m` lies in the one-row block, in column (px - x0) / gw of text row 0. */
  lemma SlotInBlock(x0: UInt8, y0: UInt8, gw: UInt8, gh: UInt8, m: nat, px: int, py: int)
    requires gw > 0 && gh > 0 && x0 + gw <= Ssd1306.SCREEN_WIDTH && x0 + m * gw <= Ssd1306.SCREEN_WIDTH
    ensures var k := SlotOf(x0, y0, gw, gh, px, py);
      0 <= k < m ==> FrameBuffers.InRect(x0, y0, m * gw, gh, px, py) &&
                     k == (px - x0) / gw && (py - y0) % gh == py - y0
  {
    var n := PerRow(x0, gw);
    var a, b := px - x0, py - y0;
    if 0 <= a < n * gw && 0 <= b && 0 <= b / gh * n + a / gw < m {
      PerRowAtLeast(x0, gw, m);
      PageLayout.MulMono(m, n, gw);
      SlotToBlockArith(a, b, gw, gh, n, m);
      BlockToSlotArith(a, b, gw, gh, n, m);
    }
  }

  /**
   `draw_string_centered(x, y, str)`: `draw_string` moved left by half the
   text width (`str.size() * glyph_w` stored as `uint8_t`) and up by half the
   glyph height, `uint8_t` arithmetic throughout.
   */
  function DrawStringCentered(d: Ssd1306.Display, fonts: Ssd1306.FontSet, x: UInt8, y: UInt8, s: seq<UInt8>)
    : (r: Ssd1306.Display)
    requires Ready(d, fonts)
    ensures Ready(r, fonts) && Ssd1306.SameSettings(d, r) && r.pending == (d.pending || |s| > 0)
  {
    var f := CurrentFont(d, fonts);
    var width := U8(|s| * f.glyphWidth);
    DrawString(d, fonts, U8(x - width / 2), U8(y - f.glyphHeight / 2), s)
  }

  /**
   `after` is `before` with the one-row text block of `s` at (left, top):
   column c of the block shows glyph s[c / gw] at offset c % gw, and every
   pixel outside the block is kept.
   */
  predicate ShowsRow(before: Ssd1306.Display, after: Ssd1306.Display, f: Fonts.Font, left: int, top: int, s: seq<UInt8>)
    requires Ssd1306.Valid(before) && Ssd1306.Valid(after) && Fonts.Usable(f)
    requires forall i | 0 <= i < |s| :: GlyphFits(f, s[i])
  {
    forall px: nat, py: nat | px < Ssd1306.SCREEN_WIDTH && py < Ssd1306.SCREEN_HEIGHT ::
      Ssd1306.Pixel(after, px, py) ==
        if FrameBuffers.InRect(left, top, |s| * f.glyphWidth, f.glyphHeight, px, py)
        then ColumnBelow(px - left, f.glyphWidth, |s|);
             GlyphPixel(f, s[(px - left) / f.glyphWidth], (px - left) % f.glyphWidth, py - top)
        else Ssd1306.Pixel(before, px, py)
  }

  /** The centring arithmetic does not wrap when the block lands on the panel. */
  lemma CenteredOrigin(x: UInt8, y: UInt8, w: nat, gh: UInt8)
    requires x >= w / 2 && x - w / 2 + w <= Ssd1306.SCREEN_WIDTH
    requires y >= gh / 2
    ensures U8(x - U8(w) / 2) == x - w / 2 && U8(y - gh / 2) == y - gh / 2
  {
  }

  /** A block of `m` glyphs that fits across and down the panel is one text row on the panel. */
  lemma OneRowOnPanel(x0: UInt8, y0: UInt8, gw: UInt8, gh: UInt8, m: nat)
    requires gw > 0 && m > 0 && x0 + m * gw <= Ssd1306.SCREEN_WIDTH && y0 + gh <= Ssd1306.SCREEN_HEIGHT
    ensures x0 + gw <= Ssd1306.SCREEN_WIDTH && PerRow(x0, gw) >= m
    ensures RowsOnPanel(x0, y0, gw, gh, 0, m)
  {
    PageLayout.MulMono(1, m, gw);
    PerRowAtLeast(x0, gw, m);
    DivBracket(m - 1, PerRow(x0, gw), 0);
  }

  /** A string drawn from slot 0 that fits on one text row is a one-row text block. */
  lemma RowDrawn(d: Ssd1306.Display, r: Ssd1306.Display, f: Fonts.Font, x0: UInt8, y0: UInt8, s: seq<UInt8>)
    requires Ssd1306.Valid(d) && Ssd1306.Valid(r) && Printable(f, x0, s)
    requires x0 + |s| * f.glyphWidth <= Ssd1306.SCREEN_WIDTH
    requires DrawnFrom(d, r, f, x0, y0, 0, s)
    ensures ShowsRow(d, r, f, x0, y0, s)
  {
    forall px: nat, py: nat | px < Ssd1306.SCREEN_WIDTH && py < Ssd1306.SCREEN_HEIGHT
      ensures Ssd1306.Pixel(r, px, py) ==
          if FrameBuffers.InRect(x0, y0, |s| * f.glyphWidth, f.glyphHeight, px, py)
          then ColumnBelow(px - x0, f.glyphWidth, |s|);
               GlyphPixel(f, s[(px - x0) / f.glyphWidth], (px - x0) % f.glyphWidth, py - y0)
          else Ssd1306.Pixel(d, px, py)
    {
      SingleRowSlots(x0, y0, f.glyphWidth, f.glyphHeight, |s|, px, py);
    }
  }

  /** With no wrap in the centring arithmetic, a centred string is a string drawn from the block's corner. */
  lemma CenteredIsShifted(d: Ssd1306.Display, fonts: Ssd1306.FontSet, f: Fonts.Font, x: UInt8, y: UInt8, s: seq<UInt8>,
                          w: nat)
    requires Ready(d, fonts) && f == CurrentFont(d, fonts) && w == |s| * f.glyphWidth
    requires x >= w / 2 && x - w / 2 + w <= Ssd1306.SCREEN_WIDTH
    requires y >= f.glyphHeight / 2
    ensures DrawStringCentered(d, fonts, x, y, s) == DrawString(d, fonts, x - w / 2, y - f.glyphHeight / 2, s)
  {
    CenteredOrigin(x, y, w, f.glyphHeight);
  }

  /**
   A centred string whose one-row block lands on the panel: the block of
   width |str| * gw and height gh has its left edge at x - width / 2 and
   its top at y - gh / 2.
   */
  lemma CenteredStringEffect(d: Ssd1306.Display, fonts: Ssd1306.FontSet, x: UInt8, y: UInt8, s: seq<UInt8>)
    requires Ready(d, fonts) && |s| > 0
    requires var f := CurrentFont(d, fonts);
      f.glyphHeight > 0 && (forall i | 0 <= i < |s| :: GlyphFits(f, s[i])) &&
      x >= |s| * f.glyphWidth / 2 && x - |s| * f.glyphWidth / 2 + |s| * f.glyphWidth <= Ssd1306.SCREEN_WIDTH &&
      y >= f.glyphHeight / 2 && y - f.glyphHeight / 2 + f.glyphHeight <= Ssd1306.SCREEN_HEIGHT
    ensures var f := CurrentFont(d, fonts);
      ShowsRow(d, DrawStringCentered(d, fonts, x, y, s), f,
               x - |s| * f.glyphWidth / 2, y - f.glyphHeight / 2, s)
  {
    var f := CurrentFont(d, fonts);
    var left: UInt8, top: UInt8 := x - |s| * f.glyphWidth / 2, y - f.glyphHeight / 2;
    assert DrawStringCentered(d, fonts, x, y, s) == DrawString(d, fonts, left, top, s) by {
      CenteredIsShifted(d, fonts, f, x, y, s, |s| * f.glyphWidth);
    }
    assert ShowsRow(d, DrawString(d, fonts, left, top, s), f, left, top, s) by {
      OneRowOnPanel(left, top, f.glyphWidth, f.glyphHeight, |s|);
      DrawStringEffect(d, fonts, left, top, s);
      RowDrawn(d, DrawString(d, fonts, left, top, s), f, left, top, s);
    }
  }

  /* --------------------------------------------------------------- numbers */

  /** One more character of `s`: drawing its first `i + 1` characters draws `s[i]` where the first `i` left the cursor. */
  lemma DrawCharsStep(d: Ssd1306.Display, fonts: Ssd1306.FontSet, f: Fonts.Font, x0: UInt8, c: Cursor,
                      s: seq<UInt8>, i: nat)
    requires Ready(d, fonts) && f == CurrentFont(d, fonts) && i < |s|
    ensures var p := DrawChars(d, fonts, x0, c, s[..i]);
      DrawChars(d, fonts, x0, c, s[..i + 1])
      == (DrawChar(p.0, fonts, p.1.x, p.1.y, s[i]), Advance(p.1, x0, f.glyphWidth, f.glyphHeight))
  {
    DrawCharsAppend(d, fonts, x0, c, s[..i], [s[i]]);
    assert s[..i + 1] == s[..i] + [s[i]];
    var p := DrawChars(d, fonts, x0, c, s[..i]);
    assert CurrentFont(p.0, fonts) == f;
    assert [s[i]][1..] == [];
  }

  /** One step of the digit loop: draws digit `i` of `num`, the one the divisor `10^(n-1-i)` selects, and extends the drawn prefix of its decimal text by one. */
  method DrawDigit(d: Ssd1306.Display, fonts: Ssd1306.FontSet, f: Fonts.Font, x: UInt8, y: UInt8, num: int, i: nat,
                   div: nat, r: Ssd1306.Display, cur: Cursor)
    returns (r': Ssd1306.Display, cur': Cursor)
    requires Ready(d, fonts) && f == CurrentFont(d, fonts) && num >= 1
    requires |Decimal.DecimalText(num)| == Decimal.DigitCount(num)
    requires i < Decimal.DigitCount(num) && div == Decimal.Pow10(Decimal.DigitCount(num) - 1 - i)
    requires r == DrawChars(d, fonts, x, Cursor(x, y), Decimal.DecimalText(num)[..i]).0
    requires cur == DrawChars(d, fonts, x, Cursor(x, y), Decimal.DecimalText(num)[..i]).1
    ensures r' == DrawChars(d, fonts, x, Cursor(x, y), Decimal.DecimalText(num)[..i + 1]).0
    ensures cur' == DrawChars(d, fonts, x, Cursor(x, y), Decimal.DecimalText(num)[..i + 1]).1
  {
    Decimal.DigitAt(num, i);
    DrawCharsStep(d, fonts, f, x, Cursor(x, y), Decimal.DecimalText(num), i);
    r' := DrawChar(r, fonts, cur.x, cur.y, Decimal.ZERO + num / div % 10);
    cur' := Advance(cur, x, f.glyphWidth, f.glyphHeight);
  }

  /**
   `draw_string(x, y, num)` for 1 <= num <= 99999: the digit count, then
   one digit per step from the most significant, each drawn like a
   character of a string.  It draws exactly what `draw_string` draws for
   the decimal text of `num`.
   */
  method DrawNumber(d: Ssd1306.Display, fonts: Ssd1306.FontSet, x: UInt8, y: UInt8, num: int)
    returns (r: Ssd1306.Display)
    requires Ready(d, fonts) && 1 <= num <= 99999
    ensures r == DrawString(d, fonts, x, y, Decimal.DecimalText(num))
  {
    var f := CurrentFont(d, fonts);
    ghost var text := Decimal.DecimalText(num);
    Decimal.DecimalLength(num);
    var remaining := Decimal.DigitCount(num);
    var div := Decimal.Pow10(remaining - 1);
    var cur := Cursor(x, y);
    r := d;
    var i := 0;
    while remaining > 0
      invariant 0 <= remaining <= |text| && i == |text| - remaining
      invariant remaining > 0 ==> div == Decimal.Pow10(remaining - 1)
      invariant r == DrawChars(d, fonts, x, Cursor(x, y), text[..i]).0
      invariant cur == DrawChars(d, fonts, x, Cursor(x, y), text[..i]).1
      decreases remaining
    {
      r, cur := DrawDigit(d, fonts, f, x, y, num, i, div, r, cur);
      if remaining > 1 {
        Decimal.Pow10Down(remaining - 1);
      }
      div := div / 10;
      remaining := remaining - 1;
      i := i + 1;
    }
    assert text[..i] == text;
  }

  /**
   `draw_string_centered(x, y, num)`: the text width is the digit count
   times the glyph width (as `uint8_t`); it draws what the centred string
   form draws for the decimal text of `num`.
   */
  method DrawNumberCentered(d: Ssd1306.Display, fonts: Ssd1306.FontSet, x: UInt8, y: UInt8, num: int)
    returns (r: Ssd1306.Display)
    requires Ready(d, fonts) && 1 <= num <= 99999
    ensures r == DrawStringCentered(d, fonts, x, y, Decimal.DecimalText(num))
  {
    var f := CurrentFont(d, fonts);
    var width := U8(Decimal.DigitCount(num) * f.glyphWidth);
    Decimal.DecimalLength(num);
    r := DrawNumber(d, fonts, U8(x - width / 2), U8(y - f.glyphHeight / 2), num);
  }
}
