/**
 `Font`: immutable glyph-set metadata plus its own copy of the glyph atlas.
 Every member of the source class is a const getter; here the getters are
 the datatype's fields, fixed by the one constructor.
 */
module Fonts {
  import opened Bits
  import Bitmaps

  datatype Font = Font(
    glyphWidth: UInt8,
    glyphHeight: UInt8,
    glyphOffset: UInt8,
    mapWidth: UInt8,
    mapHeight: UInt8,
    atlas: Bitmaps.Bitmap,
    numberOnly: bool)

  /**
   `Font(glyph_width, glyph_height, glyph_offset, font_map_width,
   font_map_height, buffer, is_number_only = false)`: stores the arguments
   unchanged and deep-copies the atlas bitmap.
   */
  function NewFont(glyphWidth: UInt8, glyphHeight: UInt8, glyphOffset: UInt8,
                   mapWidth: UInt8, mapHeight: UInt8, buffer: Bitmaps.Bitmap,
                   numberOnly: bool := false): (f: Font)
    requires Bitmaps.Valid(buffer)
    ensures f.glyphWidth == glyphWidth && f.glyphHeight == glyphHeight && f.glyphOffset == glyphOffset
    ensures f.mapWidth == mapWidth && f.mapHeight == mapHeight
    ensures f.numberOnly == numberOnly
    ensures Bitmaps.Valid(f.atlas)
    ensures f.atlas.width == buffer.width && f.atlas.height == buffer.height && f.atlas.data == buffer.data
  {
    Font(glyphWidth, glyphHeight, glyphOffset, mapWidth, mapHeight, Bitmaps.Copy(buffer), numberOnly)
  }

  /** A font omitting the last constructor argument is not number-only. */
  lemma NumberOnlyDefaultsToFalse(glyphWidth: UInt8, glyphHeight: UInt8, glyphOffset: UInt8,
                                  mapWidth: UInt8, mapHeight: UInt8, buffer: Bitmaps.Bitmap)
    requires Bitmaps.Valid(buffer)
    ensures !NewFont(glyphWidth, glyphHeight, glyphOffset, mapWidth, mapHeight, buffer).numberOnly
  {
  }

  /**
   A font `draw_char` can use: its atlas is a valid bitmap and at least one
   glyph fits across the atlas, so `font_map_width / glyph_width` is a
   non-zero divisor.
   */
  predicate Usable(f: Font)
  {
    Bitmaps.Valid(f.atlas) && f.glyphWidth > 0 && f.mapWidth / f.glyphWidth > 0
  }
}
