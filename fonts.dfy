/** The two read-only font resources the text paths consume. Their contents
    (the built-in table and the GFX font headers) are not part of this model:
    every operation takes them as values and states what it needs of them. */
module Fonts {
  import opened IntOps

  /** The built-in font: a fixed height, the widest glyph, one width per
      character from code 32 on, and `maxWidth` column bytes per character
      (bit `cy` of a column byte is the pixel in row `cy`). */
  datatype BuiltinFont = BuiltinFont(height: int, maxWidth: int, widths: seq<int>, data: seq<bv8>)

  predicate FontWF(f: BuiltinFont)
  {
    // rows are tested with `1U << cy`, which is only defined below 32
    0 <= f.height <= 32 && 0 <= f.maxWidth < 256 && |f.widths| > 0 &&
    (forall i | 0 <= i < |f.widths| :: 0 <= f.widths[i] <= f.maxWidth) &&
    |f.widths| * f.maxWidth <= |f.data|
  }

  /** The characters the built-in font can draw: `char_index = c - 32` must
      index the width table, and `c` must be a non-negative (7-bit) `char`. */
  predicate ValidChar(f: BuiltinFont, c: char)
  {
    32 <= c as int < 128 && c as int - 32 < |f.widths|
  }

  function CharIndex(c: char): int { c as int - 32 }

  function CharWidth(f: BuiltinFont, c: char): (w: int)
    requires FontWF(f) && ValidChar(f, c)
    ensures 0 <= w <= f.maxWidth
  {
    f.widths[CharIndex(c)]
  }

  /** Column `cx` of character `c`: byte `char_index * max_width + cx` of the
      table. */
  function ColumnByte(f: BuiltinFont, c: char, cx: int): bv8
    requires FontWF(f) && ValidChar(f, c) && 0 <= cx < CharWidth(f, c)
  {
    var idx := CharIndex(c);
    MulMono(idx + 1, |f.widths|, f.maxWidth);
    f.data[idx * f.maxWidth + cx]
  }

  /** `(1U << cy) & column`: rows 8 and beyond of a one-byte column are never
      set. */
  predicate RowBit(column: bv8, cy: int)
  {
    0 <= cy < 8 && Bit(column, cy)
  }

  /** The byte with only bit `i` set. */
  function Mask(i: int): bv8
    requires 0 <= i < 8
  {
    [1, 2, 4, 8, 16, 32, 64, 128][i]
  }

  /** Bit `i` of `b` is set. */
  predicate Bit(b: bv8, i: int)
    requires 0 <= i < 8
  {
    b & Mask(i) != 0
  }

  /** `b` shifted left `i` times, one place at a time. */
  function ShiftLeft(b: bv8, i: nat): bv8
  {
    if i == 0 then b else ShiftLeft(b, i - 1) << 1
  }

  /** One record of a GFX glyph table. */
  datatype GfxGlyph = GfxGlyph(bitmapOffset: int, width: int, height: int,
                               xAdvance: int, xOffset: int, yOffset: int)

  /** A GFX font: the concatenated glyph bitmaps, the glyph records, the
      covered character codes `first..last` and the line height. */
  datatype GfxFont = GfxFont(bitmap: seq<bv8>, glyphs: seq<GfxGlyph>,
                             first: int, last: int, yAdvance: int)

  /** Number of bitmap bytes a glyph uses: its pixels run on from row to row
      with no padding, eight to a byte. */
  function GlyphBytes(g: GfxGlyph): int { (g.width * g.height + 7) / 8 }

  predicate GlyphWF(bitmap: seq<bv8>, g: GfxGlyph)
  {
    0 <= g.bitmapOffset < 65536 && 0 <= g.width < 256 && 0 <= g.height < 256 &&
    0 <= g.xAdvance < 256 && -128 <= g.xOffset < 128 && -128 <= g.yOffset < 128 &&
    g.bitmapOffset + GlyphBytes(g) <= |bitmap|
  }

  /** The code range the renderer accepts: `c >= first && c <= (uint8_t)last`. */
  predicate InRange(f: GfxFont, c: int)
  {
    f.first <= c <= f.last % 256
  }

  predicate GfxFontWF(f: GfxFont)
  {
    0 <= f.first < 65536 && 0 <= f.last < 65536 && 0 <= f.yAdvance < 256 &&
    (forall i | 0 <= i < |f.glyphs| :: GlyphWF(f.bitmap, f.glyphs[i])) &&
    (f.last % 256 >= f.first ==> f.last % 256 - f.first < |f.glyphs|)
  }

  /** The glyph record of an in-range code, counted from `first` as the GFX
      font format lays the table out. */
  function GlyphIndex(f: GfxFont, c: int): (i: int)
    requires GfxFontWF(f) && InRange(f, c)
    ensures 0 <= i < |f.glyphs| && GlyphWF(f.bitmap, f.glyphs[i])
  {
    c - f.first
  }

  /** The record the renderer actually reads, `glyph[c - 32]`. */
  function GlyphIndexAsWritten(c: int): int { c - 32 }

  /** For a font that starts at the space character the two lookups agree. */
  lemma GlyphIndexAgreesFromSpace(f: GfxFont, c: int)
    requires GfxFontWF(f) && InRange(f, c) && f.first == 32
    ensures GlyphIndexAsWritten(c) == GlyphIndex(f, c)
  {
  }

  /** A digits-only font (codes '0'..'9', ten records): drawing '0' reads
      record 16, past the end of the table, where record 0 was meant. */
  lemma GlyphIndexAsWrittenOverruns()
    ensures var g := GfxGlyph(0, 0, 0, 0, 0, 0);
            var f := GfxFont([], seq(10, _ => g), 48, 57, 0);
            GfxFontWF(f) && InRange(f, 48) &&
            GlyphIndex(f, 48) == 0 && GlyphIndexAsWritten(48) >= |f.glyphs|
  {
    var g := GfxGlyph(0, 0, 0, 0, 0, 0);
    var f := GfxFont([], seq(10, _ => g), 48, 57, 0);
    assert GlyphWF(f.bitmap, g);
  }

  /** Pixel `k` (row-major) of a glyph: bit `7 - k % 8` of bitmap byte
      `bitmapOffset + k / 8`. */
  predicate GlyphPixel(f: GfxFont, g: GfxGlyph, k: int)
    requires GlyphWF(f.bitmap, g) && 0 <= k < g.width * g.height
  {
    Bit(f.bitmap[g.bitmapOffset + k / 8], 7 - k % 8)
  }

  /** Glyph pixel (dx, dy), row-major: pixel `dx + dy * width`. */
  predicate GlyphPixelAt(f: GfxFont, g: GfxGlyph, dx: int, dy: int)
    requires GlyphWF(f.bitmap, g) && 0 <= dx < g.width && 0 <= dy < g.height
  {
    IdxInRange(g.width, g.height, dx, dy);
    GlyphPixel(f, g, Idx(g.width, dx, dy))
  }

  /** Shifting left by one moves bit `j - 1` to bit `j`. */
  lemma BitAfterShiftOne(c: bv8, j: int)
    requires 1 <= j < 8
    ensures Bit(c << 1, j) == Bit(c, j - 1)
  {
  }

  /** After `bits` has been shifted left `i` times, its bit `j` is bit
      `j - i` of the byte it was loaded from; in particular its top bit is
      bit `7 - i`. */
  lemma {:induction false} TopBitAfterShift(b: bv8, i: int, j: int)
    requires 0 <= i <= j < 8
    ensures Bit(ShiftLeft(b, i), j) == Bit(b, j - i)
  {
    if i > 0 {
      BitAfterShiftOne(ShiftLeft(b, i - 1), j);
      TopBitAfterShift(b, i - 1, j - 1);
    }
  }
}
