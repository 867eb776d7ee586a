# ssd1306_pico in Dafny

A model of the drawing core of `ssd1306_pico`, a C++ driver for 128 x 64
SSD1306 OLED panels on the Raspberry Pi Pico. It covers five parts:

- the page-addressed frame buffer and bitmaps;
- the fonts and their glyph atlases;
- the `SSD1306` drawing engine: pixels, rectangles, outlines, Bresenham lines,
  bitmap blits, characters, strings, numbers, formatted text, blinking and
  rendering;
- the display controller that turns all of this into I2C transactions.

Every operation is a pure function or method from one immutable state to
the next. Operations that touch the bus also return the transactions they
send, in order.

Layout of the project, one module per source concept:

| file | module | models |
|---|---|---|
| bits.dfy | `Bits` | `uint8_t`/`int8_t` conversions, bit masks of a byte |
| page_layout.dfy | `PageLayout` | the page addressing law: pixel (x, y) is bit `y % 8` of byte `x + (y / 8) * width` |
| framebuffer.dfy | `FrameBuffers` | `FrameBuffer<WIDTH, HEIGHT>`, including the bitmap blit |
| bitmap.dfy | `Bitmaps` | `Bitmap` |
| font.dfy | `Fonts` | `Font` |
| display_controller.dfy | `DisplayController` | `DisplayController<WIDTH, HEIGHT>`: commands, data transfers, initialization, frame streaming |
| ssd1306.dfy | `Ssd1306` | the `SSD1306` state, render, pixels, rectangles, bitmaps, font size, blinking |
| line.dfy | `Lines` | `draw_line` |
| decimal.dfy | `Decimal` | `get_digit_count` and decimal digit text |
| text.dfy | `Text` | `draw_char`, `draw_string` (text and integer), the centred forms |
| formatted.dfy | `FormattedText` | `draw_string_formatted` |

Integer widths are modelled explicitly:

- coordinates and characters are `UInt8` (0..255), and every `uint8_t`
  addition or subtraction the source performs goes through `U8`, which wraps
  modulo 256;
- the line-drawing error term goes through `I8`, which wraps as `int8_t`;
- the render counter wraps at 256.

`char` is unsigned, as on the Pico's ARM target. The frame buffer is a
sequence of `bv8`.

The loop in `draw_line` stops as soon as the current point equals the end
point, before drawing it, so the end point is never plotted: a line from
(0, 0) to (10, 0) lights 10 pixels. `Lines.DrawLine` states this.

Two behaviours of the code are stated as properties rather than corrected.

- `draw_rect_outline` draws its right and bottom bands past `width` and
  `height`, so the outline covers `(width + thickness) x (height + thickness)`
  pixels. See `Ssd1306.OutlineIsFrame` and `Ssd1306.OutlineOverExtends`.
- The render counter is 8-bit. A blink period that does not divide 256
  loses its rhythm at the wrap. See `Ssd1306.BlinkWrapRepeatsPhase`.

## Model

| member | source | states |
|---|---|---|
| Bits.U8 | src/ssd1306_pico.cpp:194-203 | a value kept as `uint8_t`: unchanged when it is in 0..255, otherwise congruent to it modulo 256 |
| Bits.I8 | src/ssd1306_pico.cpp:101-118 | a value kept as `int8_t`: unchanged in -128..127, otherwise congruent to it modulo 256 and in that range |
| Bits.U8Absorbs | src/ssd1306_pico.cpp:216-226 | wrapping after every `uint8_t` addition equals wrapping once at the end |
| Bits.SetBit | src/framebuffer.hpp:66-69 | OR-ing the mask `1 << k` sets bit k and keeps the other seven bits |
| Bits.ClearBit | src/framebuffer.hpp:77-80 | AND-ing the mask `0xFF - (1 << k)` clears bit k and keeps the other seven bits |
| PageLayout.SetPixel | src/framebuffer.hpp:61-70 | exactly the bit of (x, y) (byte `x + (y / 8) * width`, bit `y % 8`) becomes set; every other bit of the buffer keeps its value |
| PageLayout.ClearPixel | src/framebuffer.hpp:72-81 | exactly the bit of (x, y) becomes clear; every other bit keeps its value |
| PageLayout.AddressInjective | src/framebuffer.hpp:63-67 | two pixels in columns below the width with the same byte and bit are the same pixel |
| PageLayout.SetPixelIdempotent | src/framebuffer.hpp:61-70 | drawing a pixel twice leaves the buffer as drawing it once |
| PageLayout.ClearPixelIdempotent | src/framebuffer.hpp:72-81 | erasing a pixel twice leaves the buffer as erasing it once |
| PageLayout.ClearAfterSet | src/framebuffer.hpp:61-81 | erase after draw on the same pixel is just the erase: the last write wins |
| PageLayout.SetAfterClear | src/framebuffer.hpp:61-81 | draw after erase on the same pixel is just the draw: the last write wins |
| PageLayout.PutPixelBit | src/framebuffer.hpp:61-81 | one pixel write, wherever it lands, changes only the bit its byte index and `y % 8` name, to the written value |
| PageLayout.PutPixelEffect | src/framebuffer.hpp:100-103 | one copied bitmap pixel changes exactly that panel pixel, to the copied value |
| FrameBuffers.New | src/framebuffer.hpp:33-39 | a new buffer has `WIDTH * (HEIGHT / 8)` bytes, all lit when `filled` and all dark otherwise |
| FrameBuffers.FromData | src/framebuffer.hpp:41-44 | the buffer built from raw data returns exactly the first `WIDTH * (HEIGHT / 8)` bytes of the source through `get_data` |
| FrameBuffers.GetData | src/framebuffer.hpp:46-49 | the raw bytes of a valid buffer, `WIDTH * (HEIGHT / 8)` of them; `FrameBuffers.GetDataRoundTrip` shows they determine the buffer |
| FrameBuffers.GetDataRoundTrip | src/framebuffer.hpp:41-49 | rebuilding a buffer from its own `get_data` gives the same buffer |
| FrameBuffers.Fill | src/framebuffer.hpp:51-54 | every pixel lit, dimensions unchanged |
| FrameBuffers.Clear | src/framebuffer.hpp:56-59 | every pixel dark, dimensions unchanged |
| FrameBuffers.DrawPixel | src/framebuffer.hpp:61-70 | only the addressed bit is set; all others unchanged |
| FrameBuffers.ErasePixel | src/framebuffer.hpp:72-81 | only the addressed bit is cleared; all others unchanged |
| FrameBuffers.ClipExtent | src/framebuffer.hpp:91-94 | the number of columns (rows) the blit loop visits: the requested size, cut at the bitmap edge, zero when the start lies outside it |
| FrameBuffers.DrawBitmap | src/framebuffer.hpp:83-108 | the blit keeps the buffer valid and its dimensions; what it writes is stated by `FrameBuffers.DrawBitmapBits` for every placement and by `FrameBuffers.DrawBitmapEffect` when the target fits |
| FrameBuffers.BlitRowsEffect | src/framebuffer.hpp:93-104 | the inner loop copies rows `j..ch` of one bitmap column to one panel column, lit or erased as the bitmap pixel is, and changes nothing else |
| FrameBuffers.BlitColumnsEffect | src/framebuffer.hpp:91-107 | the outer loop copies the remaining columns of the region; pixels outside the target rectangle keep their values |
| FrameBuffers.DrawBitmapEffect | src/framebuffer.hpp:83-108 | when the clipped target rectangle lies inside the surface: after `draw_bitmap`, every pixel of that rectangle equals the bitmap pixel at the same offset from (map_x, map_y), dark ones included, and every other pixel is unchanged |
| FrameBuffers.BlitRowsBit | src/framebuffer.hpp:93-104 | for any placement, after the inner loop over one column a bit that none of its writes addresses is unchanged, and any other bit holds the source pixel of the last write to it |
| FrameBuffers.BlitColumnsBit | src/framebuffer.hpp:91-107 | for any placement, after the outer loop a bit that no write addresses is unchanged, and any other bit holds the source pixel of the last write to it in loop order |
| FrameBuffers.DrawBitmapBits | src/framebuffer.hpp:83-108 | for every placement, edge-crossing ones included: destination (x + i, y + j) is taken in `uint8_t`, and a column of 128 or more addresses a byte of the next page row. A bit no write reaches is unchanged; any other bit equals the source pixel of the last write, in loop order, that reaches it |
| Bitmaps.New | src/bitmap.cpp:8-15 | `width * height` bytes, all 0xFF when filled, else all 0x00 |
| Bitmaps.FromData | src/bitmap.cpp:17-21 | the first `width * height` source bytes are copied |
| Bitmaps.FromDataRoundTrip | src/bitmap.cpp:17-21 | rebuilding a bitmap from its own data gives the same bitmap |
| Bitmaps.Copy | src/bitmap.cpp:23-27 | the copy has the same dimensions and the same bytes |
| Bitmaps.Fill | src/bitmap.cpp:31 | all bytes 0xFF, dimensions unchanged |
| Bitmaps.Clear | src/bitmap.cpp:33 | all bytes 0x00, dimensions unchanged |
| Bitmaps.DrawPixel | src/bitmap.cpp:35-43 | only the addressed bit is set; all others unchanged |
| Bitmaps.ErasePixel | src/bitmap.cpp:45-53 | only the addressed bit is cleared; all others unchanged |
| Bitmaps.PixelInBuffer | src/bitmap.cpp:35-43 | every pixel inside the bitmap's dimensions has its byte inside the allocation |
| Fonts.NewFont | src/font.cpp:7-13 | the font keeps every constructor argument and a copy of the atlas bitmap |
| Fonts.NumberOnlyDefaultsToFalse | src/font.hpp:10-12 | a font built without the last argument is not number-only |
| Ssd1306.FontFor | src/ssd1306_pico.cpp:174-187 | the SMALL, MEDIUM and LARGE sizes select the small, medium and large font |
| Ssd1306.Create | src/ssd1306_pico.cpp:19-22 | construction sends exactly the internal-supply initialization sequence of `DisplayController.Initialize`: 26 commands, display off first and the charge pump setting 0x14 at position 9. It leaves a dark panel, nothing pending, the MEDIUM font and render counter 0 |
| Ssd1306.Fill | src/ssd1306_pico.cpp:24-28 | every panel pixel lit, the buffer marked changed, the settings unchanged |
| Ssd1306.Clear | src/ssd1306_pico.cpp:30-34 | every panel pixel dark, the buffer marked changed, the settings unchanged |
| Ssd1306.Render | src/ssd1306_pico.cpp:36-45 | the counter advances modulo 256; a changed buffer is sent as the frame of `DisplayController.DisplayFramebuffer`, page-addressing commands included: 40 transactions whose data bytes are the buffer, in order. The buffer is then unmarked; an unchanged buffer sends nothing |
| Ssd1306.RenderIdleSendsNothing | src/ssd1306_pico.cpp:36-45 | a second render with no drawing in between sends no transaction |
| Ssd1306.RenderTimesEffect | src/ssd1306_pico.cpp:36-45 | n renders advance the counter by n modulo 256, leave the buffer alone and send one frame at most |
| Ssd1306.DrawPixel | src/ssd1306_pico.cpp:62-66 | exactly the panel pixel (x, y) becomes lit; the buffer is marked changed |
| Ssd1306.ErasePixel | src/ssd1306_pico.cpp:68-72 | exactly the panel pixel (x, y) becomes dark; the buffer is marked changed |
| Ssd1306.SameCellOnScreen | src/framebuffer.hpp:63-67 | on the panel, two coordinates address the same bit only when they are the same pixel |
| Ssd1306.PaintRowsEffect | src/ssd1306_pico.cpp:78-81 | the inner rectangle loop paints one column from row cy down to yEnd and nothing else |
| Ssd1306.PaintColumnsEffect | src/ssd1306_pico.cpp:76-82 | the outer rectangle loop paints the columns cx..xEnd over rows y..yEnd and nothing else |
| Ssd1306.DrawRect | src/ssd1306_pico.cpp:74-83 | every panel pixel inside the rectangle becomes lit (the rectangle is clipped at the panel edge) and every other pixel is unchanged; the buffer is marked changed exactly when the loop draws something |
| Ssd1306.EraseRect | src/ssd1306_pico.cpp:365-374 | every panel pixel inside the rectangle becomes dark and every other pixel is unchanged; marked changed exactly when the loop erases something |
| Ssd1306.DrawRectOutline | src/ssd1306_pico.cpp:85-91 | the lit pixels are the old ones plus the four bands, with their corners computed in `uint8_t`; the buffer is marked changed exactly when it was already, or one of the four bands reaches a panel pixel |
| Ssd1306.OutlineIsFrame | src/ssd1306_pico.cpp:85-91 | without wrap-around the outline is the `(width + thickness) x (height + thickness)` rectangle minus its interior |
| Ssd1306.OutlineOverExtends | src/ssd1306_pico.cpp:85-91 | with positive thickness the pixel `(x + width + thickness - 1, y + height + thickness - 1)` is lit: the frame reaches past `width` and `height` |
| Ssd1306.DrawBitmapRegion | src/ssd1306_pico.cpp:143-147 | when the clipped region fits on the panel it shows the bitmap region there and nothing else changes; the buffer is marked changed |
| Ssd1306.BlitShows | src/framebuffer.hpp:83-108 | when the clipped region fits on the panel, the frame-buffer blit, seen on the panel, shows that region and leaves the rest |
| Ssd1306.DrawBitmapRegionCells | src/ssd1306_pico.cpp:143-147 | for every placement, edge-crossing ones included: a panel pixel whose bit no write reaches is unchanged, and any other shows the source pixel of the last write to its bit. Columns of 128 or more land in the next page row |
| Ssd1306.EdgeBlitWrapsToNextPage | src/framebuffer.hpp:89-107 | the second column of a 2 x 1 bitmap drawn at (127, 0) appears at panel pixel (0, 8) |
| Ssd1306.DrawBitmap | src/ssd1306_pico.cpp:149-152 | the whole bitmap blitted at (x, y) for every placement, with the per-bit rule of `Ssd1306.BlitCells`; when it fits, it is shown with its top-left corner at (x, y) and nothing else changes |
| Ssd1306.DrawBitmapCentered | src/ssd1306_pico.cpp:154-157 | the blit at (x - width / 2, y - height / 2) in `uint8_t`, for every placement; when it fits without wrap, the bitmap is shown there and its centre pixel lands on (x, y) |
| Ssd1306.DrawBitmapRegionCentered | src/ssd1306_pico.cpp:159-162 | the region blit at an origin shifted by half of the whole bitmap's size, not the region's, in `uint8_t`, for every placement; when it fits, the region is shown there |
| Ssd1306.SetFontSize | src/ssd1306_pico.cpp:164-167 | the font size changes and nothing else |
| Ssd1306.BlinkSection | src/ssd1306_pico.cpp:376-382 | the filled branch is taken always when the frequency reaches the period, never when it is 0, and while the counter is below the frequency; `Ssd1306.BlinkDutyCycle` and `Ssd1306.BlinkFullCycle` count the filled calls over a period |
| Ssd1306.BlinkDutyCycle | src/ssd1306_pico.cpp:376-382 | over n consecutive renders inside one period, the filled branch is taken once for every counter phase below the frequency |
| Ssd1306.BlinkFullCycle | src/ssd1306_pico.cpp:376-382 | over one whole period that divides 256, the filled branch is taken `min(frequency, period)` times |
| Ssd1306.BlinkWrapRepeatsPhase | src/ssd1306_pico.cpp:376-382 | with period 3 the filled branch is taken at counter 255 and again at counter 0 after the wrap: a period that does not divide 256 loses its rhythm |
| DisplayController.Command | src/display_controller.hpp:45-49 | a command is the two bytes 0x80 and the command |
| DisplayController.Data | src/display_controller.hpp:51-60 | a data transfer is 0x40 followed by the payload |
| DisplayController.Commands | src/display_controller.hpp:45-49 | each command byte becomes its own transaction, in order |
| DisplayController.CommandsCarryNoData | src/display_controller.hpp:45-49 | commands never carry frame data |
| DisplayController.Initialize | src/display_controller.hpp:63-100 | 26 single-command transactions: display off first and on last; charge pump, contrast and precharge chosen by the supply |
| DisplayController.InitSupplyDependence | src/display_controller.hpp:63-100 | the two supply variants differ in exactly the commands at positions 9, 17 and 19 |
| DisplayController.FramePagesLayout | src/display_controller.hpp:107-115 | pages p..7 are streamed in order, five transactions each |
| DisplayController.DisplayFramebuffer | src/display_controller.hpp:103-116 | for each page: column high, column low and page address commands, then the two 64-byte halves of that page's row of the buffer |
| DisplayController.FramePagesPayloads | src/display_controller.hpp:107-115 | the data bytes of pages p..7 are the buffer from byte 128 * p on |
| DisplayController.FramePayloadsAreFrameBuffer | src/display_controller.hpp:103-116 | the data bytes sent for a frame are exactly the 1024 buffer bytes, in order |
| DisplayController.SetInversion | src/display_controller.hpp:119-125 | one command: invert when asked, normal otherwise |
| DisplayController.SetDimming | src/display_controller.hpp:128-139 | the contrast command followed by 0 when dimming |
| DisplayController.DimmingIsContrast | src/display_controller.hpp:128-146 | dimming is `set_contrast(0)`, and undimming is `set_contrast` of the supply's initial contrast |
| DisplayController.UndimRestoresInitContrast | src/display_controller.hpp:128-139 | undimming re-sends exactly the contrast pair `initialize` sent |
| DisplayController.SetContrast | src/display_controller.hpp:142-146 | the contrast command followed by the given value |
| Lines.DrawLine | src/ssd1306_pico.cpp:93-121 | on-panel lines: the pixels lit are the old ones plus `max(dx, dy)` plotted points. These start at the start point and never include the end point. Consecutive points (and the last and the end point) are king-adjacent. All lie in the bounding box. The major coordinate advances one step per point, and the minor coordinate stays within half a pixel of the ideal line. A horizontal line is the row of pixels from the start |
| Lines.ShapeOfFinishedLine | src/ssd1306_pico.cpp:104-120 | a point sequence with the loop's shape and `max(dx, dy)` points has the closeness, ordering and bounding-box properties above |
| Lines.AdvanceKeepsTracing | src/ssd1306_pico.cpp:104-120 | one loop iteration keeps the error-term invariant, counts one more plotted point and moves to a king-adjacent pixel |
| Lines.XMajorStep | src/ssd1306_pico.cpp:108-119 | for a mostly horizontal line, one step keeps the error in 0..dx and never overtakes the end row |
| Lines.YMajorStep | src/ssd1306_pico.cpp:108-119 | for a mostly vertical line, one step keeps the error in -dy..0 and never overtakes the end column |
| Lines.LineCloseness | src/ssd1306_pico.cpp:101 | the error bound means each plotted point is within half a pixel of the exact line |
| Lines.ErrorStep | src/ssd1306_pico.cpp:108-119 | for spans up to 127 the `int8_t` error update does not wrap |
| Lines.TowardStep | src/ssd1306_pico.cpp:113-118 | stepping by ±1 in `uint8_t` moves one pixel toward the end |
| Lines.PlotAllEffect | src/ssd1306_pico.cpp:106 | plotting a list of on-panel points lights exactly those pixels in addition to the old ones |
| Lines.TracingDone | src/ssd1306_pico.cpp:104 | when the loop stops, `max(dx, dy)` points were plotted |
| Decimal.DigitCount | src/util.hpp:8-10 | the digit count n of num >= 1 satisfies 10^(n-1) <= num < 10^n |
| Decimal.DigitCountUnique | src/util.hpp:8-10 | that bracket determines the digit count |
| Decimal.DecimalText | src/ssd1306_pico.cpp:243-272 | the text is non-empty, all digits, with no leading zero |
| Decimal.DecimalRoundTrip | src/ssd1306_pico.cpp:243-272 | reading the decimal text back gives the number |
| Decimal.DecimalLength | src/util.hpp:8-10 | the text has `get_digit_count(num)` characters |
| Decimal.DigitAt | src/ssd1306_pico.cpp:255-262 | character i of the text is the digit `(num / 10^(n-1-i)) % 10` the loop computes |
| Text.GlyphIndex | src/ssd1306_pico.cpp:194-196 | the glyph number is congruent modulo 256 to `chr - ' ' + offset`, less `'0' - ' '` for a number-only font, as stored in an unsigned `char`; `Text.PrintableGlyphIndex` and `Text.DigitGlyphIndex` give its exact value without wrap |
| Text.PrintableGlyphIndex | src/ssd1306_pico.cpp:194 | for a full font, the glyph index is the character minus ' ' plus the glyph offset |
| Text.DigitGlyphIndex | src/ssd1306_pico.cpp:194-196 | for a number-only font, digit k maps to glyph `k + offset` |
| Text.GlyphsPerRow | src/ssd1306_pico.cpp:201 | the atlas row holds the largest number of whole glyphs that fit its width |
| Text.GlyphCell | src/ssd1306_pico.cpp:201-203 | a glyph's cell lies within the atlas width |
| Text.GlyphColumn | src/ssd1306_pico.cpp:203 | the cell's column is the glyph index modulo glyphs per row, on a glyph boundary |
| Text.GlyphCellIdentifiesGlyph | src/ssd1306_pico.cpp:201-203 | the cell's row and column give back the glyph index: distinct glyphs have distinct cells |
| Text.DrawChar | src/ssd1306_pico.cpp:189-206 | the font and counter are unchanged and the buffer is marked changed |
| Text.DrawCharShows | src/ssd1306_pico.cpp:189-206 | when the cell fits on the panel, each pixel of the glyph cell at (x, y) equals the glyph's atlas pixel, and every other pixel is unchanged |
| Text.DrawCharCells | src/ssd1306_pico.cpp:189-206 | for every (x, y), edge-crossing cells included, the glyph's atlas cell is blitted by the per-bit rule of `Ssd1306.BlitCells` |
| Text.PerRow | src/ssd1306_pico.cpp:220-225 | the number of glyphs that fit in a text row started at x0 before the wrap check fires |
| Text.LayoutAt | src/ssd1306_pico.cpp:218-228 | every layout slot's cell fits inside the panel width |
| Text.LayoutStep | src/ssd1306_pico.cpp:220-226 | one character advances the cursor from slot k to slot k + 1 |
| Text.LayoutClosedForm | src/ssd1306_pico.cpp:218-228 | k characters advance the cursor by k slots |
| Text.StringLayout | src/ssd1306_pico.cpp:208-229 | character k is drawn at column `x0 + (k mod n) * glyph_w` and row `y0 + (k div n) * glyph_h` (as `uint8_t`), n being the glyphs per row |
| Text.SlotCoversCell | src/ssd1306_pico.cpp:218-228 | a pixel lies in the cell of slot k exactly when its slot number is k |
| Text.DrawCharsAppend | src/ssd1306_pico.cpp:218-228 | drawing s + t is drawing s, then t from where s left the cursor |
| Text.DrawCharsEffect | src/ssd1306_pico.cpp:218-228 | on-panel printable text: every pixel in slot k shows glyph k of the text, and pixels outside all slots keep their values |
| Text.DrawString | src/ssd1306_pico.cpp:208-229 | the settings are unchanged, and the buffer is marked changed when the text is non-empty |
| Text.DrawStringEffect | src/ssd1306_pico.cpp:208-229 | the same per-slot picture for `draw_string` from (x, y) |
| Text.DrawCharsStep | src/ssd1306_pico.cpp:218-228 | drawing one more character draws it at the cursor the previous ones left |
| Text.DrawStringCentered | src/ssd1306_pico.cpp:231-241 | the settings are unchanged, and the buffer is marked changed when the text is non-empty |
| Text.CenteredOrigin | src/ssd1306_pico.cpp:238-240 | when the centred row fits on the panel, the `uint8_t` width and origin do not wrap |
| Text.CenteredIsShifted | src/ssd1306_pico.cpp:231-241 | centred text is `draw_string` from (x - width / 2, y - glyph_h / 2) |
| Text.CenteredStringEffect | src/ssd1306_pico.cpp:231-241 | when the centred row fits, the panel shows the row of glyphs with its left edge at x - width / 2 and its top at y - glyph_h / 2 |
| Text.RowDrawn | src/ssd1306_pico.cpp:208-229 | text on one row shows glyph k in the k-th cell of the row |
| Text.SingleRowSlots | src/ssd1306_pico.cpp:218-228 | for text on one row, a pixel has a slot below m exactly when it lies in the row's m-glyph block |
| Text.DrawDigit | src/ssd1306_pico.cpp:257-268 | one iteration of the digit loop draws the next character of the decimal text where the previous ones left the cursor |
| Text.DrawNumber | src/ssd1306_pico.cpp:243-272 | for 1 <= num <= 99999, draws exactly what `draw_string` draws for the decimal text of num |
| Text.DrawNumberCentered | src/ssd1306_pico.cpp:274-284 | draws exactly what the centred string form draws for the decimal text of num |
| FormattedText.CString | src/ssd1306_pico.cpp:351-352 | the string read from a `%s` argument is its prefix before the first NUL |
| FormattedText.Staged | src/ssd1306_pico.cpp:289 | the staging buffer keeps the first 100 characters of the text |
| FormattedText.FieldText | src/ssd1306_pico.cpp:335-355 | the field text is the staged C string for `%s` and the staged rendered text otherwise, never more than 100 characters |
| FormattedText.Wrap | src/ssd1306_pico.cpp:305-310 | the cursor moves to column x and one glyph row down exactly when the next glyph would pass the right edge |
| FormattedText.RowBelow | src/ssd1306_pico.cpp:305-310 | after a full-width row the wrap check runs before '\n', so the next row lies two glyph rows down; otherwise one |
| FormattedText.StepAt | src/ssd1306_pico.cpp:301-361 | one iteration consumes at least one format character; the arguments left still match the rest of the format; the settings are unchanged and a pending change stays pending |
| FormattedText.Interpret | src/ssd1306_pico.cpp:301-362 | the settings are unchanged and a pending change stays pending |
| FormattedText.DrawStringFormatted | src/ssd1306_pico.cpp:286-363 | the settings are unchanged and a pending change stays pending |
| FormattedText.FormattedIsExpandedString | src/ssd1306_pico.cpp:286-363 | a one-line format whose expansion fits in the row draws exactly what `draw_string` draws for the expanded text |
| FormattedText.PlainExpandsToItself | src/ssd1306_pico.cpp:313-318 | text without '%' or '\n' needs no argument and expands to itself |
| FormattedText.PlainFormattedIsString | src/ssd1306_pico.cpp:301-318 | plain text draws as `draw_string` does, except that it starts one glyph row lower when x leaves no room for a glyph |
| FormattedText.FieldAlone | src/ssd1306_pico.cpp:327-355 | a lone `%d`, `%i`, `%x`, `%f` or `%s` draws its field text as `draw_string` does |
| FormattedText.IntegerFieldIsNumber | src/ssd1306_pico.cpp:335-340 | `%d` or `%i` with decimal rendering draws what the integer `draw_string` draws |
| FormattedText.NothingDrawn | src/ssd1306_pico.cpp:301-361 | a format that expands to nothing leaves the display unchanged |
| FormattedText.InterpretOneRow | src/ssd1306_pico.cpp:301-361 | a one-line format that fits draws its expansion glyph by glyph along the row |
| FormattedText.InterpretPlainAppend | src/ssd1306_pico.cpp:301-318 | plain text followed by more text is processed as the plain part, then the rest from where it stopped |
| FormattedText.PlainRowCursor | src/ssd1306_pico.cpp:313-317 | plain text that fits the row leaves the cursor `glyph_w` per character to the right |
| FormattedText.PlainLine | src/ssd1306_pico.cpp:301-318 | plain text that fits the row is drawn as `draw_string` draws it |
| FormattedText.NewlineStep | src/ssd1306_pico.cpp:323-326 | '\n' moves the cursor to column x, one glyph row below where the wrap check left it |
| FormattedText.NewlineAfterRow | src/ssd1306_pico.cpp:305-326 | '\n' after n glyphs from x continues at column x on the row below, or two rows below after a full row |
| FormattedText.PlainLineThen | src/ssd1306_pico.cpp:301-318 | a plain row followed by more: the row is drawn as `draw_string` draws it and the rest continues just to its right |
| FormattedText.LineThenNewline | src/ssd1306_pico.cpp:301-326 | a plain row, '\n', then more: the row is drawn as `draw_string` draws it and the rest starts at column x on the next row (or two rows down after a full row) |

## Left out

- `draw_circle`: it computes its points in floating point (`cos`, `sin`, `float` to `uint8_t`). Only the `draw_line` calls it makes are modelled, in `Lines.DrawLine`.
- `etl::to_string`, used for `%d`, `%i`, `%x` and `%f`, is a parameter `render` that returns the converted text. The staging-buffer truncation to 100 characters is modelled; the ETL conversion itself is not.
- The variadic arguments are a list of tagged values; `va_arg` reading a value of the wrong type is excluded by `FormattedText.ArgsMatch`.
- A format that ends in a lone '%' reads past the end of the view. That is undefined behaviour, and `FormattedText.ArgsMatch` excludes it.
- The I2C peripheral, GPIO set-up, bus speed, address and the return value of `i2c_write_blocking` are left out. The bus is modelled as the ordered list of transactions written to it.
- The register constants (`SETSTARTLINE` 0x40, `INVERTDISPLAY` 0xA7, `DISPLAYON` 0xAF and the rest) are defined in `register_defines.hpp`, which this model does not include. Their values are taken from the SSD1306 datasheet's command table.
- The three built-in fonts are parameters (`Ssd1306.FontSet`), because `default_fonts.hpp` is not part of this model.
- Writes whose byte would lie outside the frame buffer are undefined behaviour in the source. In the blits, glyphs and lines they leave the buffer unchanged. The public pixel operations require their pixel to be inside the buffer. Writes to a column of 128 or more whose byte lies inside the buffer land in the next page row, as in the source; `FrameBuffers.DrawBitmapBits` and `Ssd1306.BlitCells` state this for the blits.
- `Lines.DrawLine`: modelled for lines whose horizontal and vertical spans are at most 127. Wider spans overflow the source's `int8_t` error term. Every line between two on-panel points has spans within this bound.
- `Decimal.DigitCount`, `Decimal.Pow10`, `Text.DrawNumber`: `get_digit_count` computes `(uint8_t)std::log10(value) + 1` and `draw_string` builds its divisor as `(int16_t)std::pow(10, digits - 1)`, both in double. The model takes `log10` and `pow` to be exact at powers of ten. C++ does not guarantee this: a `log10(1000)` that returned 2.999... would give 3 digits, and 1000 would be drawn as "000". Floating point is not modelled.
- `Text.DrawNumber`, `Text.DrawNumberCentered`: modelled for 1 <= num <= 99999. Zero and negative numbers reach `log10` of a non-positive value, and six or more digits overflow the `int16_t` divisor.
- `DisplayController.DisplayFramebuffer`: stated for the 128 x 64 buffer the driver instantiates; other template sizes are not modelled.
- `get_screen_width`, `get_screen_height`, `get_font_size` and `get_display_controller` are plain accessors, modelled as the constants `Ssd1306.SCREEN_WIDTH` and `Ssd1306.SCREEN_HEIGHT` and as fields of the state.
- `blink_section` takes two `etl::delegate` callbacks. `Ssd1306.BlinkSection` returns which of the two it would call.
- `Ssd1306.BlinkSection`: requires a non-zero period. With period 0 the source computes `_render_iteration % 0`, which is undefined behaviour.
- `Fonts.Usable`: the text operations require fonts with a non-zero glyph width and an atlas at least one glyph wide. Otherwise `font_map_width / glyph_w` or `chr % chars_per_row` in `draw_char` divides by zero, which is undefined behaviour.
- `Text.DrawChar`: its effect on the panel is stated by `Text.DrawCharShows` for glyph cells that fit on the panel. For every other (x, y) it is stated by `Text.DrawCharCells`, through the per-bit blit rule.
- `Text.DrawString`, `Text.DrawStringCentered`: their pictures are stated by `Text.DrawStringEffect` and `Text.CenteredStringEffect` for text whose rows stay on the panel.
- `FormattedText.Interpret`, `FormattedText.DrawStringFormatted`: their pictures are stated for one-line formats, for plain rows and for plain rows followed by '\n'. General multi-line formats with fields are modelled but have no closed-form picture.
