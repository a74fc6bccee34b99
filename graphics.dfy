/** The `PicoGraphics` canvas: a frame buffer of pens owned by the caller,
    the clip, the current pen and the fonts, and the drawing operations that
    overwrite buffer cells in place. Every drawing method states the whole
    new buffer: each cell of the canvas holds the pen exactly when the
    operation's reference definition covers it, and keeps its old value
    otherwise. */
module Graphics {
  import opened IntOps
  import opened Geometry
  import opened Pens
  import opened Fonts
  import opened Sorting
  import opened Raster
  import opened TextLayout
  import opened Wrappers

  /** Pixel (x, y) is drawn by `character(c, p, scale)`: it lies in the clip,
      in the `scale x scale` block of column `cx` and row `cy` of the glyph,
      and bit `cy` of column byte `cx` is set. */
  predicate CharCovers(clip: Rect, f: BuiltinFont, c: char, p: Point, scale: int, x: int, y: int)
    requires FontWF(f)
  {
    ValidChar(f, c) && scale >= 1 && Contains(clip, Point(x, y)) &&
    var cx, cy := (x - p.x) / scale, (y - p.y) / scale;
    0 <= cx < CharWidth(f, c) && 0 <= cy < f.height && RowBit(ColumnByte(f, c, cx), cy)
  }

  /** Pixel (x, y) is drawn by a glyph-table glyph drawn at (gx, gy) with the
      given sizes: it lies in the clip, in the block of a set bitmap pixel,
      blocks being placed from the glyph's x and y offsets. */
  predicate GlyphCovers(clip: Rect, f: GfxFont, g: GfxGlyph, gx: int, gy: int, sx: int, sy: int, x: int, y: int)
  {
    GlyphWF(f.bitmap, g) && sx >= 1 && sy >= 1 && Contains(clip, Point(x, y)) &&
    var dx, dy := (x - gx) / sx - g.xOffset, (y - gy) / sy - g.yOffset;
    0 <= dx < g.width && 0 <= dy < g.height && GlyphPixelAt(f, g, dx, dy)
  }

  /** The row-major number of the glyph pixel whose block holds (x, y). */
  function GlyphPixelNo(g: GfxGlyph, gx: int, gy: int, sx: int, sy: int, x: int, y: int): int
    requires sx >= 1 && sy >= 1
  {
    Idx(g.width, (x - gx) / sx - g.xOffset, (y - gy) / sy - g.yOffset)
  }

  /** Pixel (x, y) belongs to a set glyph pixel numbered in `[lo, hi)`. */
  ghost predicate GlyphDrawnBetween(clip: Rect, f: GfxFont, g: GfxGlyph, gx: int, gy: int, sx: int, sy: int, lo: int, hi: int, x: int, y: int)
  {
    GlyphCovers(clip, f, g, gx, gy, sx, sy, x, y) && lo <= GlyphPixelNo(g, gx, gy, sx, sy, x, y) < hi
  }

  /** The bit-stream state of `customFontDrawChar` before glyph pixel `k`:
      the `uint8_t` counter `bit` is `k` modulo 256, `bo` has passed every
      byte loaded so far, and inside a byte `bits` holds it shifted left by
      the pixels already used. */
  predicate StreamAt(f: GfxFont, g: GfxGlyph, k: int, bit: int, bo: int, bits: bv8)
  {
    GlyphWF(f.bitmap, g) && 0 <= k <= g.width * g.height &&
    bit == k % 256 && bo == g.bitmapOffset + (k + 7) / 8 &&
    (k % 8 != 0 ==> g.bitmapOffset + k / 8 < |f.bitmap| && bits == ShiftLeft(f.bitmap[g.bitmapOffset + k / 8], k % 8))
  }

  /** One step of the bit stream: the byte is loaded when the counter is a
      multiple of eight, its top bit is glyph pixel `k`, and shifting it
      left gives the state before pixel `k + 1`. */
  lemma StreamNext(f: GfxFont, g: GfxGlyph, k: int, bit: int, bo: int, bits: bv8)
    requires StreamAt(f, g, k, bit, bo, bits) && k < g.width * g.height
    ensures bit % 8 == 0 ==> bo < |f.bitmap|
    ensures var b := if bit % 8 == 0 then f.bitmap[bo] else bits;
      (b & 0x80 != 0) == GlyphPixel(f, g, k) &&
      StreamAt(f, g, k + 1, (bit + 1) % 256, if bit % 8 == 0 then bo + 1 else bo, b << 1)
  {
    var i := g.bitmapOffset + k / 8;
    assert i < |f.bitmap| && (bit % 8 == 0 ==> bo == i) && bit % 8 == k % 8 by {
      BitCount(k);
      ByteOfPixel(k, g.width * g.height);
    }
    var byte := f.bitmap[i];
    var b := if bit % 8 == 0 then f.bitmap[bo] else bits;
    assert b == ShiftLeft(byte, k % 8);
    assert (b & 0x80 != 0) == GlyphPixel(f, g, k) by {
      TopBitAfterShift(byte, k % 8, 7);
    }
    StreamAdvance(f, g, k, bit, bo, byte);
  }

  /** The counter, byte position and shifted byte after pixel `k`. */
  lemma StreamAdvance(f: GfxFont, g: GfxGlyph, k: int, bit: int, bo: int, byte: bv8)
    requires GlyphWF(f.bitmap, g) && 0 <= k < g.width * g.height
    requires bit == k % 256 && bo == g.bitmapOffset + (k + 7) / 8
    requires g.bitmapOffset + k / 8 < |f.bitmap| && byte == f.bitmap[g.bitmapOffset + k / 8]
    ensures StreamAt(f, g, k + 1, (bit + 1) % 256, if bit % 8 == 0 then bo + 1 else bo, ShiftLeft(byte, k % 8) << 1)
  {
    BitCount(k);
  }

  /** The glyph record `customFontDrawChar` uses for code `c`. */
  function GlyphOf(f: GfxFont, c: int): GfxGlyph
    requires GfxFontWF(f) && InRange(f, c)
  {
    f.glyphs[GlyphIndex(f, c)]
  }

  predicate GlyphDrawCovers(clip: Rect, f: GfxFont, d: GlyphDraw, scale: int, x: int, y: int)
    requires GfxFontWF(f)
  {
    InRange(f, d.c) && GlyphCovers(clip, f, GlyphOf(f, d.c), d.x, d.y, scale, scale, x, y)
  }

  /** Some glyph of `ds` draws pixel (x, y). */
  ghost predicate DrawsCover(clip: Rect, f: GfxFont, ds: seq<GlyphDraw>, scale: int, x: int, y: int)
    requires GfxFontWF(f)
  {
    exists m :: 0 <= m < |ds| && GlyphDrawCovers(clip, f, ds[m], scale, x, y)
  }

  /** Some character of `pl`, offset by `p`, draws pixel (x, y). */
  ghost predicate PlacementsCover(clip: Rect, f: BuiltinFont, scale: int, p: Point, pl: seq<Placement>, x: int, y: int)
    requires FontWF(f)
  {
    exists m :: 0 <= m < |pl| && CharCovers(clip, f, pl[m].c, Point(p.x + pl[m].at.x, p.y + pl[m].at.y), scale, x, y)
  }

  lemma DrawsCoverAppend(clip: Rect, f: GfxFont, ds: seq<GlyphDraw>, d: GlyphDraw, scale: int, x: int, y: int)
    requires GfxFontWF(f)
    ensures DrawsCover(clip, f, ds + [d], scale, x, y) <==>
      DrawsCover(clip, f, ds, scale, x, y) || GlyphDrawCovers(clip, f, d, scale, x, y)
  {
    var all := ds + [d];
    if DrawsCover(clip, f, all, scale, x, y) {
      var m :| 0 <= m < |all| && GlyphDrawCovers(clip, f, all[m], scale, x, y);
      if m < |ds| { assert all[m] == ds[m]; }
    }
    if DrawsCover(clip, f, ds, scale, x, y) {
      var m :| 0 <= m < |ds| && GlyphDrawCovers(clip, f, ds[m], scale, x, y);
      assert all[m] == ds[m];
    }
    if GlyphDrawCovers(clip, f, d, scale, x, y) {
      assert all[|ds|] == d;
    }
  }

  lemma PlacementsCoverAppend(clip: Rect, f: BuiltinFont, scale: int, p: Point, pl: seq<Placement>, q: Placement, x: int, y: int)
    requires FontWF(f)
    ensures PlacementsCover(clip, f, scale, p, pl + [q], x, y) <==>
      PlacementsCover(clip, f, scale, p, pl, x, y) ||
      CharCovers(clip, f, q.c, Point(p.x + q.at.x, p.y + q.at.y), scale, x, y)
  {
    var all := pl + [q];
    if PlacementsCover(clip, f, scale, p, all, x, y) {
      var m :| 0 <= m < |all| && CharCovers(clip, f, all[m].c, Point(p.x + all[m].at.x, p.y + all[m].at.y), scale, x, y);
      if m < |pl| { assert all[m] == pl[m]; }
    }
    if PlacementsCover(clip, f, scale, p, pl, x, y) {
      var m :| 0 <= m < |pl| && CharCovers(clip, f, pl[m].c, Point(p.x + pl[m].at.x, p.y + pl[m].at.y), scale, x, y);
      assert all[m] == pl[m];
    }
    if CharCovers(clip, f, q.c, Point(p.x + q.at.x, p.y + q.at.y), scale, x, y) {
      assert all[|pl|] == q;
    }
  }

  lemma Regroup(a: seq<Span>, b: seq<Span>, c: seq<Span>)
    ensures a + (b + c) == (a + b) + c
  {
  }

  lemma PlacementsCoverConcat(clip: Rect, f: BuiltinFont, scale: int, p: Point, a: seq<Placement>, b: seq<Placement>)
    requires FontWF(f)
    ensures forall x, y :: PlacementsCover(clip, f, scale, p, a + b, x, y) <==>
      PlacementsCover(clip, f, scale, p, a, x, y) || PlacementsCover(clip, f, scale, p, b, x, y)
  {
    forall x, y ensures PlacementsCover(clip, f, scale, p, a + b, x, y) <==>
      PlacementsCover(clip, f, scale, p, a, x, y) || PlacementsCover(clip, f, scale, p, b, x, y)
    {
      if PlacementsCover(clip, f, scale, p, a + b, x, y) {
        PlacementsCoverSplit(clip, f, scale, p, a, b, x, y);
      }
      if PlacementsCover(clip, f, scale, p, a, x, y) || PlacementsCover(clip, f, scale, p, b, x, y) {
        PlacementsCoverJoin(clip, f, scale, p, a, b, x, y);
      }
    }
  }

  lemma PlacementsCoverSplit(clip: Rect, f: BuiltinFont, scale: int, p: Point, a: seq<Placement>, b: seq<Placement>, x: int, y: int)
    requires FontWF(f) && PlacementsCover(clip, f, scale, p, a + b, x, y)
    ensures PlacementsCover(clip, f, scale, p, a, x, y) || PlacementsCover(clip, f, scale, p, b, x, y)
  {
    var all := a + b;
    var m :| 0 <= m < |all| && CharCovers(clip, f, all[m].c, Point(p.x + all[m].at.x, p.y + all[m].at.y), scale, x, y);
    if m < |a| { assert all[m] == a[m]; } else { assert all[m] == b[m - |a|]; }
  }

  lemma PlacementsCoverJoin(clip: Rect, f: BuiltinFont, scale: int, p: Point, a: seq<Placement>, b: seq<Placement>, x: int, y: int)
    requires FontWF(f)
    requires PlacementsCover(clip, f, scale, p, a, x, y) || PlacementsCover(clip, f, scale, p, b, x, y)
    ensures PlacementsCover(clip, f, scale, p, a + b, x, y)
  {
    var all := a + b;
    if PlacementsCover(clip, f, scale, p, a, x, y) {
      var m :| 0 <= m < |a| && CharCovers(clip, f, a[m].c, Point(p.x + a[m].at.x, p.y + a[m].at.y), scale, x, y);
      assert all[m] == a[m];
    } else {
      var m :| 0 <= m < |b| && CharCovers(clip, f, b[m].c, Point(p.x + b[m].at.x, p.y + b[m].at.y), scale, x, y);
      assert all[|a| + m] == b[m];
    }
  }

  /** The `s x s` block at block column `cx` from `x0` holds exactly the
      columns whose floor quotient is `cx`. */
  lemma BlockCell(x0: int, s: int, cx: int, x: int)
    requires s >= 1
    ensures (x0 + cx * s <= x < x0 + cx * s + s) <==> (x - x0) / s == cx
  {
    BlockDiv(x - x0, cx, s);
  }

  /** The rectangle `character` tests against the clip before drawing. */
  function CharBox(f: BuiltinFont, c: char, p: Point, scale: int): Rect
    requires FontWF(f) && ValidChar(f, c)
  {
    Rect(p.x, p.y, CharWidth(f, c) * scale, f.height * scale)
  }

  /** A pixel of a block column inside the glyph lies inside the glyph's
      scaled extent. */
  lemma BlockWithin(x0: int, s: int, n: int, x: int)
    requires s >= 1 && 0 <= (x - x0) / s < n
    ensures x0 <= x < x0 + n * s
  {
    var cx := (x - x0) / s;
    BlockDiv(x - x0, cx, s);
    MulMono(0, cx, s);
    MulMono(cx + 1, n, s);
  }

  /** Every pixel a character draws lies in its box, so the early return
      on a box that misses the clip loses nothing. */
  lemma CharCoversInBox(clip: Rect, f: BuiltinFont, c: char, p: Point, scale: int, x: int, y: int)
    requires FontWF(f) && CharCovers(clip, f, c, p, scale, x, y)
    ensures Contains(Intersection(clip, CharBox(f, c, p, scale)), Point(x, y))
  {
    BlockWithin(p.x, scale, CharWidth(f, c), x);
    BlockWithin(p.y, scale, f.height, y);
  }

  /** Pixel (x, y) is drawn by `line(p1, p2)`: the half-open run from the
      smaller to the larger end for horizontal and vertical lines, the
      stepped pixels otherwise; always inside the clip. */
  ghost predicate LineCovers(clip: Rect, p1: Point, p2: Point, x: int, y: int)
  {
    Contains(clip, Point(x, y)) &&
    if p1.y == p2.y then y == p1.y && Min(p1.x, p2.x) <= x < Max(p1.x, p2.x)
    else if p1.x == p2.x then x == p1.x && Min(p1.y, p2.y) <= y < Max(p1.y, p2.y)
    else Point(x, y) in LinePoints(p1, p2)
  }

  class PicoGraphics {
    /** The canvas, `(0, 0, width, height)`. */
    const bounds: Rect
    /** The caller's buffer; cell (x, y) is element `x + y * bounds.w`. */
    const frameBuffer: array<Pen>
    /** The `static int32_t nodes[64]` scratch array of `polygon`. */
    const nodes: array<int>
    var clip: Rect
    var pen: Pen
    var font: BuiltinFont
    /** The glyph-table font in use, if any (`nullptr` when `None`). */
    var gfxFont: Option<GfxFont>

    /** The fixed shape of the canvas and its arrays. */
    predicate Shape()
    {
      bounds.x == 0 && bounds.y == 0 && bounds.w >= 0 && bounds.h >= 0 &&
      frameBuffer.Length == bounds.w * bounds.h && nodes.Length == 64 &&
      frameBuffer as object != nodes as object
    }

    /** The canvas invariant: the clip never extends past the canvas, and
        the fonts in use are well formed. */
    ghost predicate Valid()
      reads this
    {
      Shape() && Within(clip, bounds) && FontWF(font) &&
      (gfxFont.Some? ==> GfxFontWF(gfxFont.value))
    }

    predicate InCanvas(x: int, y: int)
    {
      0 <= x < bounds.w && 0 <= y < bounds.h
    }

    ghost function Cell(x: int, y: int): Pen
      requires Shape() && InCanvas(x, y)
      reads frameBuffer
    {
      IdxInRange(bounds.w, bounds.h, x, y);
      frameBuffer[Idx(bounds.w, x, y)]
    }

    lemma ClipInCanvas(x: int, y: int)
      requires Valid() && Contains(clip, Point(x, y))
      ensures InCanvas(x, y)
    {
    }

    /** The initial font is `font6` in the source, whose table is not part
        of this model; the caller passes it. */
    constructor (width: int, height: int, buffer: array<Pen>, defaultFont: BuiltinFont)
      requires 0 <= width < 65536 && 0 <= height < 65536 && buffer.Length == width * height
      requires FontWF(defaultFont)
      ensures Valid()
      ensures bounds == Rect(0, 0, width, height) && clip == bounds
      ensures frameBuffer == buffer && font == defaultFont && gfxFont == None && fresh(nodes)
    {
      bounds := Rect(0, 0, width, height);
      frameBuffer := buffer;
      nodes := new int[64];
      clip := Rect(0, 0, width, height);
      pen := 0;
      font := defaultFont;
      gfxFont := None;
    }

    method SetFont(f: BuiltinFont)
      requires Valid() && FontWF(f)
      modifies this
      ensures Valid() && font == f
      ensures clip == old(clip) && pen == old(pen) && gfxFont == old(gfxFont)
    {
      font := f;
    }

    /** `set_pen(r, g, b)`: the packed, byte-swapped colour. */
    method SetPenRGB(r: bv8, g: bv8, b: bv8)
      requires Valid()
      modifies this
      ensures Valid() && pen == CreatePen(r, g, b)
      ensures clip == old(clip) && font == old(font) && gfxFont == old(gfxFont)
    {
      pen := CreatePen(r, g, b);
    }

    method SetPen(p: Pen)
      requires Valid()
      modifies this
      ensures Valid() && pen == p
      ensures clip == old(clip) && font == old(font) && gfxFont == old(gfxFont)
    {
      pen := p;
    }

    /** `set_clip`: the clip becomes the part of `r` on the canvas, so it
        stays within the canvas whatever `r` is. */
    method SetClip(r: Rect)
      requires Valid()
      modifies this
      ensures Valid() && clip == Intersection(bounds, r)
      ensures forall q :: Contains(clip, q) <==> Contains(bounds, q) && Contains(r, q)
      ensures pen == old(pen) && font == old(font) && gfxFont == old(gfxFont)
    {
      clip := Intersection(bounds, r);
    }

    method RemoveClip()
      requires Valid()
      modifies this
      ensures Valid() && clip == bounds
      ensures pen == old(pen) && font == old(font) && gfxFont == old(gfxFont)
    {
      clip := bounds;
    }

    /** `customFontSetFont(font)`: text now uses the glyph table. */
    method CustomFontSetFont(f: GfxFont)
      requires Valid() && GfxFontWF(f)
      modifies this
      ensures Valid() && gfxFont == Some(f)
      ensures clip == old(clip) && pen == old(pen) && font == old(font)
    {
      gfxFont := Some(f);
    }

    /** `customFontSetFont()`: text goes back to the built-in font. */
    method CustomFontClear()
      requires Valid()
      modifies this
      ensures Valid() && gfxFont == None
      ensures clip == old(clip) && pen == old(pen) && font == old(font)
    {
      gfxFont := None;
    }

    /** `*ptr(x, y) = pen`: one cell changes. */
    method Store(x: int, y: int)
      requires Shape() && InCanvas(x, y)
      modifies frameBuffer
      ensures forall a, b | InCanvas(a, b) :: Cell(a, b) == if a == x && b == y then pen else old(Cell(a, b))
    {
      IdxInRange(bounds.w, bounds.h, x, y);
      IdxInjective(bounds.w);
      frameBuffer[Idx(bounds.w, x, y)] := pen;
    }

    method Pixel(p: Point)
      requires Valid()
      modifies frameBuffer
      ensures forall x, y | InCanvas(x, y) ::
        Cell(x, y) == if x == p.x && y == p.y && Contains(clip, p) then pen else old(Cell(x, y))
    {
      if !Contains(clip, p) {
        return;
      }
      Store(p.x, p.y);
    }

    /** `pixel_span(p, l)`: the cells of the span `p.x <= x < p.x + l` on row
        `p.y` that lie in the clip. The loop runs while the count is
        positive, where the source's `while(l--)` runs on a negative one. */
    method PixelSpan(p: Point, l: int)
      requires Valid()
      modifies frameBuffer
      ensures forall x, y | InCanvas(x, y) ::
        Cell(x, y) == if SpanCovers(clip, Span(p.x, p.y, l), x, y) then pen else old(Cell(x, y))
    {
      if p.x + l < clip.x || p.x >= clip.x + clip.w || p.y < clip.y || p.y >= clip.y + clip.h {
        return;
      }
      var x1, n := p.x, l;
      if x1 < clip.x {
        n := n + (x1 - clip.x);
        x1 := clip.x;
      }
      if x1 + n >= clip.x + clip.w {
        n := clip.x + clip.w - x1;
      }
      ghost var end := x1 + Max(n, 0);
      assert forall a :: SpanCovers(clip, Span(p.x, p.y, l), a, p.y) <==> x1 <= a < end;
      var x := x1;
      while n > 0
        invariant x1 <= x <= end && x + Max(n, 0) == end
        invariant x < end ==> clip.x <= x1 && end <= clip.x + clip.w
        invariant forall a, b | InCanvas(a, b) ::
          Cell(a, b) == if b == p.y && x1 <= a < x then pen else old(Cell(a, b))
      {
        Store(x, p.y);
        x := x + 1;
        n := n - 1;
      }
    }

    /** `rectangle(r)`: exactly the cells of `r` inside the clip. */
    method Rectangle(r: Rect)
      requires Valid()
      modifies frameBuffer
      ensures forall x, y | InCanvas(x, y) ::
        Cell(x, y) == if Contains(r, Point(x, y)) && Contains(clip, Point(x, y)) then pen else old(Cell(x, y))
    {
      var clipped := Intersection(r, clip);
      if Empty(clipped) {
        EmptyIffNoPoint(clipped);
        return;
      }
      var row := 0;
      while row < clipped.h
        invariant 0 <= row <= clipped.h
        invariant forall x, y | InCanvas(x, y) ::
          Cell(x, y) == if Contains(clipped, Point(x, y)) && y < clipped.y + row then pen else old(Cell(x, y))
      {
        var i := 0;
        while i < clipped.w
          invariant 0 <= i <= clipped.w
          invariant forall x, y | InCanvas(x, y) ::
            Cell(x, y) == if Contains(clipped, Point(x, y)) && (y < clipped.y + row || (y == clipped.y + row && x < clipped.x + i))
                          then pen else old(Cell(x, y))
        {
          ClipInCanvas(clipped.x + i, clipped.y + row);
          Store(clipped.x + i, clipped.y + row);
          i := i + 1;
        }
        row := row + 1;
      }
    }

    /** `clear()`: the whole clip, as `rectangle(clip)`. */
    method Clear()
      requires Valid()
      modifies frameBuffer
      ensures forall x, y | InCanvas(x, y) ::
        Cell(x, y) == if Contains(clip, Point(x, y)) then pen else old(Cell(x, y))
    {
      Rectangle(clip);
    }

    /** The span at row offset `off` from `cy` and, unless the offset is
        zero, its mirror image: the pairs of `pixel_span` calls of
        `circle`. */
    method SpanPair(x: int, cy: int, off: int, len: int)
      requires Valid()
      modifies frameBuffer
      ensures forall a, b | InCanvas(a, b) ::
        Cell(a, b) == if SpansCover(clip, RowPair(x, cy, off, len), a, b) then pen else old(Cell(a, b))
    {
      PixelSpan(Point(x, cy + off), len);
      SpansCoverAppend(clip, [], Span(x, cy + off, len));
      assert [] + [Span(x, cy + off, len)] == [Span(x, cy + off, len)];
      if off != 0 {
        PixelSpan(Point(x, cy - off), len);
        SpansCoverAppend(clip, [Span(x, cy + off, len)], Span(x, cy - off, len));
        assert RowPair(x, cy, off, len) == [Span(x, cy + off, len)] + [Span(x, cy - off, len)];
      } else {
        assert RowPair(x, cy, off, len) == [] + [Span(x, cy + off, len)];
      }
    }

    /** `circle(p, radius)`: the spans of the midpoint circle, clipped. The
        early return tests the circle's bounding square, `2 * radius + 1`
        wide, where the source tests one `2 * radius` wide. */
    method Circle(p: Point, radius: int)
      requires Valid()
      modifies frameBuffer
      ensures forall x, y | InCanvas(x, y) ::
        Cell(x, y) == if SpansCover(clip, CircleSpans(p, radius), x, y) then pen else old(Cell(x, y))
    {
      if !Intersects(CircleBox(p, radius), clip) {
        forall x, y ensures !SpansCover(clip, CircleSpans(p, radius), x, y) {
          CircleBoxCulls(clip, p, radius, x, y);
        }
        return;
      }
      ghost var orig := frameBuffer[..];
      var ox, oy, err := radius, 0, -radius;
      ghost var emitted: seq<Span> := [];
      NoSpansPainted(orig);
      while ox >= oy
        invariant oy >= 0
        invariant CircleSpans(p, radius) == emitted + CircleSpansFrom(p, ox, oy, err)
        invariant SpansPainted(orig, emitted)
        decreases if ox >= oy then ox - oy + 1 else 0
      {
        ox, oy, err, emitted := CircleStep(orig, p, ox, oy, err, emitted);
      }
      assert emitted + CircleSpansFrom(p, ox, oy, err) == emitted;
      forall x, y | InCanvas(x, y)
        ensures Cell(x, y) == if SpansCover(clip, emitted, x, y) then pen else old(Cell(x, y))
      {
        IdxInRange(bounds.w, bounds.h, x, y);
      }
    }

    /** One pass of the loop of `circle`: the two row pairs at `oy`, and
        the column pairs at `ox` when the error term moves `ox` in. */
    method CircleStep(ghost orig: seq<Pen>, p: Point, ox0: int, oy0: int, err0: int, ghost emitted: seq<Span>)
        returns (ox: int, oy: int, err: int, ghost emitted': seq<Span>)
      requires Valid() && ox0 >= oy0 >= 0 && SpansPainted(orig, emitted)
      modifies frameBuffer
      ensures oy == oy0 + 1 && ox <= ox0 && SpansPainted(orig, emitted')
      ensures emitted + CircleSpansFrom(p, ox0, oy0, err0) == emitted' + CircleSpansFrom(p, ox, oy, err)
    {
      ox, oy, err := ox0, oy0, err0;
      var lastOy := oy;
      err := err + oy;
      oy := oy + 1;
      err := err + oy;
      ghost var rows := RowPair(p.x - ox, p.y, lastOy, ox * 2 + 1);
      emitted' := PaintPair(orig, p.x - ox, p.y, lastOy, ox * 2 + 1, emitted);
      if err >= 0 && ox != lastOy {
        ghost var cols := RowPair(p.x - lastOy, p.y, ox, lastOy * 2 + 1);
        emitted' := PaintPair(orig, p.x - lastOy, p.y, ox, lastOy * 2 + 1, emitted');
        err := err - ox;
        ox := ox - 1;
        err := err - ox;
        assert CircleSpansFrom(p, ox0, oy0, err0) == rows + cols + CircleSpansFrom(p, ox, oy, err);
        Regroup(emitted, rows + cols, CircleSpansFrom(p, ox, oy, err));
        assert emitted' == emitted + (rows + cols);
      } else {
        assert CircleSpansFrom(p, ox0, oy0, err0) == rows + CircleSpansFrom(p, ox, oy, err);
        Regroup(emitted, rows, CircleSpansFrom(p, ox, oy, err));
      }
    }

    /** `SpanPair`, with the spans it paints added to those painted before. */
    method PaintPair(ghost orig: seq<Pen>, x: int, cy: int, off: int, len: int, ghost emitted: seq<Span>)
        returns (ghost emitted': seq<Span>)
      requires Valid() && SpansPainted(orig, emitted)
      modifies frameBuffer
      ensures emitted' == emitted + RowPair(x, cy, off, len) && SpansPainted(orig, emitted')
    {
      SpanPair(x, cy, off, len);
      SpansCoverConcat(clip, emitted, RowPair(x, cy, off, len));
      emitted' := emitted + RowPair(x, cy, off, len);
    }

    /** The cells of the canvas are those of `orig`, with `spans` painted
        over them. */
    ghost predicate SpansPainted(orig: seq<Pen>, spans: seq<Span>)
      requires Shape()
      reads this, frameBuffer
    {
      |orig| == frameBuffer.Length &&
      forall x, y | InCanvas(x, y) ::
        IdxInRange(bounds.w, bounds.h, x, y);
        Cell(x, y) == if SpansCover(clip, spans, x, y) then pen else orig[Idx(bounds.w, x, y)]
    }

    lemma NoSpansPainted(orig: seq<Pen>)
      requires Shape() && orig == frameBuffer[..]
      ensures SpansPainted(orig, [])
    {
      forall x, y | InCanvas(x, y)
        ensures 0 <= Idx(bounds.w, x, y) < |orig|
        ensures Cell(x, y) == orig[Idx(bounds.w, x, y)]
      {
        IdxInRange(bounds.w, bounds.h, x, y);
      }
    }

    /** `line(p1, p2)`: horizontal and vertical lines are half-open runs;
        other lines are stepped. */
    method Line(p1: Point, p2: Point)
      requires Valid()
      modifies frameBuffer
      ensures forall x, y | InCanvas(x, y) ::
        Cell(x, y) == if LineCovers(clip, p1, p2, x, y) then pen else old(Cell(x, y))
    {
      if p1.y == p2.y {
        var start := Max(clip.x, Min(p1.x, p2.x));
        var end := Min(clip.x + clip.w, Max(p1.x, p2.x));
        PixelSpan(Point(start, p1.y), end - start);
        return;
      }
      if p1.x == p2.x {
        VerticalLine(p1, p2);
        return;
      }
      SteppedLine(p1, p2);
    }

    /** The vertical case of `line`: the cells of column `p1.x` from the
        smaller y up to, not including, the larger one, inside the clip. The
        column is tested against the clip and a negative count draws
        nothing, where the source does neither. */
    method VerticalLine(p1: Point, p2: Point)
      requires Valid() && p1.x == p2.x
      modifies frameBuffer
      ensures forall x, y | InCanvas(x, y) ::
        Cell(x, y) == if LineCovers(clip, p1, p2, x, y) then pen else old(Cell(x, y))
    {
      var start := Max(clip.y, Min(p1.y, p2.y));
      var length := Min(clip.y + clip.h, Max(p1.y, p2.y)) - start;
      if clip.x <= p1.x < clip.x + clip.w {
        ghost var end := start + Max(length, 0);
        var y := start;
        while length > 0
          invariant start <= y <= end && y + Max(length, 0) == end
          invariant forall a, b | InCanvas(a, b) ::
            Cell(a, b) == if a == p1.x && start <= b < y then pen else old(Cell(a, b))
        {
          ClipInCanvas(p1.x, y);
          Store(p1.x, y);
          y := y + 1;
          length := length - 1;
        }
      }
    }

    /** The general case of `line`: `max(|dx|, |dy|)` clip-tested pixels, the
        shallow branch taken exactly when `|dx| > |dy|`. */
    method SteppedLine(p1: Point, p2: Point)
      requires Valid() && GeneralLine(p1, p2)
      modifies frameBuffer
      ensures forall x, y | InCanvas(x, y) ::
        Cell(x, y) == if Point(x, y) in LinePoints(p1, p2) && Contains(clip, Point(x, y)) then pen else old(Cell(x, y))
    {
      var dx := p2.x - p1.x;
      var dy := p2.y - p1.y;
      if Abs(dx) > Abs(dy) {
        var s := Abs(dx);
        ShallowRun(p1.x, p1.y * 65536, Sign(dx), TruncDiv(dy * 65536, s), s);
      } else {
        var s := Abs(dy);
        SteepRun(p1.y, p1.x * 65536, Sign(dy), TruncDiv(dx * 65536, s), s);
      }
    }

    /** The loop of a shallow line: one pixel per column, the row kept in
        16.16 fixed point. */
    method ShallowRun(x0: int, y0: int, sx: int, sy: int, s0: nat)
      requires Valid()
      modifies frameBuffer
      ensures forall a, b | InCanvas(a, b) ::
        Cell(a, b) == if Point(a, b) in Walk(x0, y0, sx, sy, s0, false) && Contains(clip, Point(a, b))
                      then pen else old(Cell(a, b))
    {
      var x, y, s := x0, y0, s0;
      ghost var drawn: seq<Point> := [];
      while s > 0
        invariant Walk(x0, y0, sx, sy, s0, false) == drawn + Walk(x, y, sx, sy, s, false)
        invariant forall a, b | InCanvas(a, b) ::
          Cell(a, b) == if Point(a, b) in drawn && Contains(clip, Point(a, b)) then pen else old(Cell(a, b))
      {
        Pixel(Point(x, Asr16(y)));
        drawn := drawn + [Point(x, Asr16(y))];
        y := y + sy;
        x := x + sx;
        s := s - 1;
      }
      assert drawn + Walk(x, y, sx, sy, s, false) == drawn;
    }

    /** The loop of a steep line: one pixel per row, the column kept in
        16.16 fixed point. */
    method SteepRun(y0: int, x0: int, sy: int, sx: int, s0: nat)
      requires Valid()
      modifies frameBuffer
      ensures forall a, b | InCanvas(a, b) ::
        Cell(a, b) == if Point(a, b) in Walk(y0, x0, sy, sx, s0, true) && Contains(clip, Point(a, b))
                      then pen else old(Cell(a, b))
    {
      var x, y, s := x0, y0, s0;
      ghost var drawn: seq<Point> := [];
      while s > 0
        invariant Walk(y0, x0, sy, sx, s0, true) == drawn + Walk(y, x, sy, sx, s, true)
        invariant forall a, b | InCanvas(a, b) ::
          Cell(a, b) == if Point(a, b) in drawn && Contains(clip, Point(a, b)) then pen else old(Cell(a, b))
      {
        Pixel(Point(Asr16(x), y));
        drawn := drawn + [Point(Asr16(x), y)];
        y := y + sy;
        x := x + sx;
        s := s - 1;
      }
      assert drawn + Walk(y, x, sy, sx, s, true) == drawn;
    }

    /** `triangle(p1, p2, p3)`: the pixels of the clipped bounding box at
        which all three biased edge functions of the counter-clockwise
        vertex order are non-negative. */
    method Triangle(p1: Point, p2: Point, p3: Point)
      requires Valid()
      modifies frameBuffer
      ensures forall x, y | InCanvas(x, y) ::
        Cell(x, y) == if TriangleCovers(clip, p1, p2, p3, x, y) then pen else old(Cell(x, y))
    {
      var tb := Intersection(clip, FromCorners(
        Point(Min(p1.x, Min(p2.x, p3.x)), Min(p1.y, Min(p2.y, p3.y))),
        Point(Max(p1.x, Max(p2.x, p3.x)), Max(p1.y, Max(p2.y, p3.y)))));
      assert tb == TriangleBox(clip, p1, p2, p3);
      if Empty(tb) {
        EmptyIffNoPoint(tb);
        return;
      }
      var q1, q2, q3 := p1, p2, p3;
      if Orient2d(p1, p2, p3) < 0 {
        q1, q3 := p3, p1;
      }
      assert (q1, q2, q3) == Wound(p1, p2, p3);
      TriangleFill(tb, q1, q2, q3);
      forall a, b ensures TriangleCovers(clip, p1, p2, p3, a, b) <==>
        Contains(tb, Point(a, b)) && InsideEdges(q1, q2, q3, Point(a, b))
      {
      }
    }

    /** The two loops of `triangle` over the clipped box `tb`, with the edge
        values of the wound vertices kept incrementally. */
    method TriangleFill(tb: Rect, q1: Point, q2: Point, q3: Point)
      requires Valid() && Within(tb, clip) && !Empty(tb)
      modifies frameBuffer
      ensures forall a, b | InCanvas(a, b) ::
        Cell(a, b) == if Contains(tb, Point(a, b)) && InsideEdges(q1, q2, q3, Point(a, b)) then pen else old(Cell(a, b))
    {
      var tl := Point(tb.x, tb.y);
      var w0row := EdgeValue(q2, q3, tl);
      var w1row := EdgeValue(q3, q1, tl);
      var w2row := EdgeValue(q1, q2, tl);
      var y := 0;
      while y < tb.h
        invariant 0 <= y <= tb.h
        invariant w0row == EdgeValue(q2, q3, Point(tb.x, tb.y + y))
        invariant w1row == EdgeValue(q3, q1, Point(tb.x, tb.y + y))
        invariant w2row == EdgeValue(q1, q2, Point(tb.x, tb.y + y))
        invariant forall a, b | InCanvas(a, b) ::
          Cell(a, b) == if Contains(tb, Point(a, b)) && b < tb.y + y && InsideEdges(q1, q2, q3, Point(a, b))
                        then pen else old(Cell(a, b))
      {
        TriangleRow(tb, q1, q2, q3, y, w0row, w1row, w2row);
        EdgesStep(q1, q2, q3, Point(tb.x, tb.y + y));
        w0row := w0row + (q3.x - q2.x);
        w1row := w1row + (q1.x - q3.x);
        w2row := w2row + (q2.x - q1.x);
        y := y + 1;
      }
    }

    /** Row `y` of the triangle loop: the three edge values start at the
        row's first pixel and step by their x increments. */
    method TriangleRow(tb: Rect, q1: Point, q2: Point, q3: Point, y: int, w0start: int, w1start: int, w2start: int)
      requires Valid() && Within(tb, clip) && !Empty(tb) && 0 <= y < tb.h
      requires w0start == EdgeValue(q2, q3, Point(tb.x, tb.y + y))
      requires w1start == EdgeValue(q3, q1, Point(tb.x, tb.y + y))
      requires w2start == EdgeValue(q1, q2, Point(tb.x, tb.y + y))
      modifies frameBuffer
      ensures forall a, b | InCanvas(a, b) ::
        Cell(a, b) == if b == tb.y + y && tb.x <= a < tb.x + tb.w && InsideEdges(q1, q2, q3, Point(a, b))
                      then pen else old(Cell(a, b))
    {
      var w0, w1, w2 := w0start, w1start, w2start;
      var x := 0;
      while x < tb.w
        invariant 0 <= x <= tb.w
        invariant w0 == EdgeValue(q2, q3, Point(tb.x + x, tb.y + y))
        invariant w1 == EdgeValue(q3, q1, Point(tb.x + x, tb.y + y))
        invariant w2 == EdgeValue(q1, q2, Point(tb.x + x, tb.y + y))
        invariant forall a, b | InCanvas(a, b) ::
          Cell(a, b) == if b == tb.y + y && tb.x <= a < tb.x + x && InsideEdges(q1, q2, q3, Point(a, b))
                        then pen else old(Cell(a, b))
      {
        if w0 >= 0 && w1 >= 0 && w2 >= 0 {
          ClipInCanvas(tb.x + x, tb.y + y);
          Store(tb.x + x, tb.y + y);
        }
        EdgesStep(q1, q2, q3, Point(tb.x + x, tb.y + y));
        w0 := w0 + (q2.y - q3.y);
        w1 := w1 + (q3.y - q1.y);
        w2 := w2 + (q1.y - q2.y);
        x := x + 1;
      }
    }

    /** The exchange sort of `polygon` on `nodes[0..n)`: it steps back after
        each swap of an out-of-order pair, so the prefix up to `i` stays
        sorted, and every swap removes one inversion. The first `n` nodes
        end up as the sorted permutation of what they held; the rest are
        untouched. */
    method SortNodes(n: int)
      requires Shape() && 0 <= n <= nodes.Length
      modifies nodes
      ensures nodes[..n] == Sort(old(nodes[..n])) && nodes[n..] == old(nodes[n..])
    {
      ghost var start := nodes[..n];
      var i := 0;
      while i < n - 1
        invariant 0 <= i && (n >= 1 ==> i <= n - 1)
        invariant n >= 1 ==> SortedUpTo(nodes[..n], i + 1)
        invariant multiset(nodes[..n]) == multiset(start)
        invariant nodes[n..] == old(nodes[n..])
        decreases Inversions(nodes[..n]), n - i
      {
        ghost var before := nodes[..n];
        if nodes[i] > nodes[i + 1] {
          ExchangeNodes(i, n);
          SwapRemovesInversion(before, i);
          SortedUpToSwap(before, i);
          if i > 0 {
            i := i - 1;
          }
        } else {
          SortedUpToExtend(before, i + 1);
          i := i + 1;
        }
      }
      SortedUnique(nodes[..n], Sort(start));
    }

    /** `nodes[i]` and `nodes[i + 1]` trade places. */
    method ExchangeNodes(i: int, n: int)
      requires Shape() && 0 <= i < n - 1 && n <= nodes.Length
      modifies nodes
      ensures nodes[..n] == Swap(old(nodes[..n]), i) && nodes[n..] == old(nodes[n..])
    {
      nodes[i], nodes[i + 1] := nodes[i + 1], nodes[i];
    }

    /** One scanline of `polygon`: the clamped crossings of every edge are
        collected in `nodes`, sorted, and filled pairwise, both ends
        included. */
    method PolygonRow(points: seq<Point>, fy: int)
      requires Valid() && |points| > 0 && CrossCount(points, fy, |points|) <= nodes.Length
      modifies frameBuffer, nodes
      ensures forall a, b | InCanvas(a, b) ::
        Cell(a, b) == if SpansCover(clip, ScanlineSpans(points, clip, fy), a, b) then pen else old(Cell(a, b))
    {
      var n := CollectNodes(points, fy);
      SortNodes(n);
      assert unchanged(frameBuffer);
      assert PairSpans(nodes[..n], fy) == ScanlineSpans(points, clip, fy);
      CrossingsEven(points, fy);
      FillPairs(n, fy);
    }

    /** The node loop of `polygon`: one clamped node per edge that crosses
        scanline `fy`, in edge order. */
    method CollectNodes(points: seq<Point>, fy: int) returns (n: int)
      requires Valid() && |points| > 0 && CrossCount(points, fy, |points|) <= nodes.Length
      modifies nodes
      ensures n == CrossCount(points, fy, |points|) && nodes[..n] == NodesUpTo(points, clip, fy, |points|)
    {
      n := 0;
      var i := 0;
      while i < |points|
        invariant 0 <= i <= |points|
        invariant n == CrossCount(points, fy, i) <= nodes.Length
        invariant nodes[..n] == NodesUpTo(points, clip, fy, i)
      {
        var j := (i + 1) % |points|;
        EdgeEndIndex(points, i);
        var sy := points[i].y;
        var ey := points[j].y;
        CrossCountMono(points, fy, i + 1, |points|);
        if (sy < fy && ey >= fy) || (ey < fy && sy >= fy) {
          var px := CrossX(points[i], points[j], fy);
          nodes[n] := if px < clip.x then clip.x else if px >= clip.x + clip.w then clip.x + clip.w - 1 else px;
          n := n + 1;
        }
        i := i + 1;
      }
    }

    /** The span loop of `polygon`: nodes `2k` and `2k + 1` bound one span of
        scanline `fy`. */
    method FillPairs(n: int, fy: int)
      requires Valid() && 0 <= n <= nodes.Length && n % 2 == 0
      modifies frameBuffer
      ensures forall a, b | InCanvas(a, b) ::
        Cell(a, b) == if SpansCover(clip, PairSpans(nodes[..n], fy), a, b) then pen else old(Cell(a, b))
    {
      ghost var orig := frameBuffer[..];
      ghost var sorted := nodes[..n];
      ghost var emitted: seq<Span> := [];
      NoSpansPainted(orig);
      var i := 0;
      while i < n
        invariant 0 <= i <= n && i % 2 == 0 && nodes[..n] == sorted
        invariant PairSpans(sorted, fy) == emitted + PairSpans(sorted[i..], fy)
        invariant SpansPainted(orig, emitted)
      {
        emitted := FillPair(orig, sorted, i, n, fy, emitted);
        i := i + 2;
      }
      assert emitted == PairSpans(sorted, fy);
      forall a, b | InCanvas(a, b)
        ensures Cell(a, b) == if SpansCover(clip, emitted, a, b) then pen else old(Cell(a, b))
      {
        IdxInRange(bounds.w, bounds.h, a, b);
      }
    }

    /** One pass of the span loop of `polygon`: nodes `i` and `i + 1` bound
        the next span. */
    method FillPair(ghost orig: seq<Pen>, ghost sorted: seq<int>, i: int, n: int, fy: int, ghost emitted: seq<Span>)
        returns (ghost emitted': seq<Span>)
      requires Valid() && 0 <= i && i + 1 < n <= nodes.Length && nodes[..n] == sorted
      requires PairSpans(sorted, fy) == emitted + PairSpans(sorted[i..], fy) && SpansPainted(orig, emitted)
      modifies frameBuffer
      ensures PairSpans(sorted, fy) == emitted' + PairSpans(sorted[i + 2..], fy) && SpansPainted(orig, emitted')
    {
      assert sorted[i] == nodes[i] && sorted[i + 1] == nodes[i + 1];
      ghost var sp := Span(sorted[i], fy, sorted[i + 1] - sorted[i] + 1);
      ghost var rest := PairSpans(sorted[i + 2..], fy);
      PairSpansStep(sorted, fy, i);
      Regroup(emitted, [sp], rest);
      emitted' := PaintSpan(orig, nodes[i], fy, nodes[i + 1] - nodes[i] + 1, emitted);
    }

    /** `pixel_span`, with the span it paints added to those painted before. */
    method PaintSpan(ghost orig: seq<Pen>, x: int, y: int, len: int, ghost emitted: seq<Span>)
        returns (ghost emitted': seq<Span>)
      requires Valid() && SpansPainted(orig, emitted)
      modifies frameBuffer
      ensures emitted' == emitted + [Span(x, y, len)] && SpansPainted(orig, emitted')
    {
      PixelSpan(Point(x, y), len);
      SpansCoverAppend(clip, emitted, Span(x, y, len));
      emitted' := emitted + [Span(x, y, len)];
    }

    /** `polygon(points)`: every scanline from the higher of the clip's top
        and the topmost vertex down to the lower of the clip's bottom edge
        row and the lowest vertex, both included, is filled. The source
        holds at most 64 crossings per scanline in its node array. */
    method Polygon(points: seq<Point>)
      requires Valid() && |points| > 0
      requires forall fy | Max(clip.y, MinY(points)) <= fy <= Min(clip.y + clip.h, MaxY(points)) ::
        CrossCount(points, fy, |points|) <= 64
      modifies frameBuffer, nodes
      ensures forall x, y | InCanvas(x, y) ::
        Cell(x, y) == if PolygonCovers(clip, points, x, y) then pen else old(Cell(x, y))
    {
      var miny, maxy := points[0].y, points[0].y;
      var i := 1;
      while i < |points|
        invariant 1 <= i <= |points|
        invariant miny == MinY(points[..i]) && maxy == MaxY(points[..i])
      {
        assert points[..i + 1][..i] == points[..i];
        miny := Min(miny, points[i].y);
        maxy := Max(maxy, points[i].y);
        i := i + 1;
      }
      assert points[..i] == points;
      var top := Max(clip.y, miny);
      var y := top;
      while y <= Min(clip.y + clip.h, maxy)
        invariant top <= y <= Max(top, Min(clip.y + clip.h, maxy) + 1)
        invariant forall a, b | InCanvas(a, b) ::
          Cell(a, b) == if PolygonCovers(clip, points, a, b) && b < y then pen else old(Cell(a, b))
        decreases Min(clip.y + clip.h, maxy) - y
      {
        PolygonRow(points, y);
        forall a, b | SpansCover(clip, ScanlineSpans(points, clip, y), a, b) ensures b == y {
          ScanlineSpansStayOnRow(points, clip, y, a, b);
        }
        y := y + 1;
      }
    }

    /** `character(c, p, scale)`: a `scale x scale` block for every set bit
        of the glyph's column bytes, clipped. Nothing is drawn when the
        scaled glyph box misses the clip (which includes scale 0). */
    method Character(c: char, p: Point, scale: int)
      requires Valid() && ValidChar(font, c) && 0 <= scale < 256
      modifies frameBuffer
      ensures forall x, y | InCanvas(x, y) ::
        Cell(x, y) == if CharCovers(clip, font, c, p, scale, x, y) then pen else old(Cell(x, y))
    {
      var charBounds := Rect(p.x, p.y, font.widths[c as int - 32] * scale, font.height * scale);
      assert scale == 0 ==> charBounds.w == 0;
      if !Intersects(clip, charBounds) {
        forall x, y ensures !CharCovers(clip, font, c, p, scale, x, y) {
          if CharCovers(clip, font, c, p, scale, x, y) {
            CharCoversInBox(clip, font, c, p, scale, x, y);
          }
        }
        return;
      }
      var cx := 0;
      while cx < CharWidth(font, c)
        invariant 0 <= cx <= CharWidth(font, c)
        invariant forall x, y | InCanvas(x, y) ::
          Cell(x, y) == if CharCovers(clip, font, c, p, scale, x, y) && (x - p.x) / scale < cx then pen else old(Cell(x, y))
      {
        CharColumn(c, p, scale, cx);
        cx := cx + 1;
      }
    }

    /** Column `cx` of a character: the inner loop of `character`. */
    method CharColumn(c: char, p: Point, scale: int, cx: int)
      requires Valid() && ValidChar(font, c) && 1 <= scale && 0 <= cx < CharWidth(font, c)
      modifies frameBuffer
      ensures forall x, y | InCanvas(x, y) ::
        Cell(x, y) == if CharCovers(clip, font, c, p, scale, x, y) && (x - p.x) / scale == cx then pen else old(Cell(x, y))
    {
      var d := ColumnByte(font, c, cx);
      var cy := 0;
      while cy < font.height
        invariant 0 <= cy <= font.height
        invariant forall x, y | InCanvas(x, y) ::
          Cell(x, y) == if CharCovers(clip, font, c, p, scale, x, y) && (x - p.x) / scale == cx && (y - p.y) / scale < cy
                        then pen else old(Cell(x, y))
      {
        if RowBit(d, cy) {
          Rectangle(Rect(p.x + cx * scale, p.y + cy * scale, scale, scale));
          forall x, y ensures Contains(Rect(p.x + cx * scale, p.y + cy * scale, scale, scale), Point(x, y)) <==>
            (x - p.x) / scale == cx && (y - p.y) / scale == cy
          {
            BlockCell(p.x, scale, cx, x);
            BlockCell(p.y, scale, cy, y);
          }
        }
        cy := cy + 1;
      }
    }

    /** `customFontDrawChar(c, x, y, sizeX, sizeY)` for an in-range code:
        the glyph's bitmap is read as one bit stream, most significant bit
        first, and every set pixel becomes a `sizeX x sizeY` block placed
        from the glyph's offsets. Sizes below one draw nothing. */
    method CustomFontDrawChar(c: int, x: int, y: int, sizeX: int, sizeY: int)
      requires Valid() && gfxFont.Some? && InRange(gfxFont.value, c)
      modifies frameBuffer
      ensures forall a, b | InCanvas(a, b) ::
        Cell(a, b) == if GlyphCovers(clip, gfxFont.value, GlyphOf(gfxFont.value, c), x, y, sizeX, sizeY, a, b)
                      then pen else old(Cell(a, b))
    {
      var f := gfxFont.value;
      var g := f.glyphs[GlyphIndex(f, c)];
      var xo16, yo16 := 0, 0;
      if sizeX > 1 || sizeY > 1 {
        xo16, yo16 := g.xOffset, g.yOffset;
      }
      GlyphRows(f, g, x, y, sizeX, sizeY, xo16, yo16);
    }

    /** The row loop of `customFontDrawChar`, from a fresh bit stream. */
    method GlyphRows(f: GfxFont, g: GfxGlyph, x: int, y: int, sizeX: int, sizeY: int, xo16: int, yo16: int)
      requires Valid() && GlyphWF(f.bitmap, g)
      requires (xo16, yo16) == if sizeX > 1 || sizeY > 1 then (g.xOffset, g.yOffset) else (0, 0)
      modifies frameBuffer
      ensures forall a, b | InCanvas(a, b) ::
        Cell(a, b) == if GlyphCovers(clip, f, g, x, y, sizeX, sizeY, a, b) then pen else old(Cell(a, b))
    {
      var bo := g.bitmapOffset;
      var bits: bv8, bit := 0, 0;
      var yy := 0;
      while yy < g.height
        invariant 0 <= yy <= g.height
        invariant StreamAt(f, g, Idx(g.width, 0, yy), bit, bo, bits)
        invariant forall a, b | InCanvas(a, b) ::
          Cell(a, b) == if GlyphDrawnBetween(clip, f, g, x, y, sizeX, sizeY, 0, Idx(g.width, 0, yy), a, b) then pen else old(Cell(a, b))
      {
        MulMono(yy + 1, g.height, g.width);
        bit, bo, bits := GlyphRow(f, g, x, y, sizeX, sizeY, xo16, yo16, yy, bit, bo, bits);
        yy := yy + 1;
      }
      forall a, b ensures GlyphDrawnBetween(clip, f, g, x, y, sizeX, sizeY, 0, Idx(g.width, 0, g.height), a, b) <==>
        GlyphCovers(clip, f, g, x, y, sizeX, sizeY, a, b)
      {
        if GlyphCovers(clip, f, g, x, y, sizeX, sizeY, a, b) {
          IdxInRange(g.width, g.height, (a - x) / sizeX - g.xOffset, (b - y) / sizeY - g.yOffset);
        }
      }
    }

    /** Row `yy` of a glyph: the inner loop of `customFontDrawChar`, which
        carries the bit-stream state from row to row. */
    method GlyphRow(f: GfxFont, g: GfxGlyph, x: int, y: int, sizeX: int, sizeY: int,
                    xo16: int, yo16: int, yy: int, bit0: int, bo0: int, bits0: bv8)
        returns (bit: int, bo: int, bits: bv8)
      requires Valid() && GlyphWF(f.bitmap, g) && 0 <= yy < g.height
      requires (xo16, yo16) == if sizeX > 1 || sizeY > 1 then (g.xOffset, g.yOffset) else (0, 0)
      requires Idx(g.width, 0, yy + 1) <= g.width * g.height
      requires StreamAt(f, g, Idx(g.width, 0, yy), bit0, bo0, bits0)
      modifies frameBuffer
      ensures StreamAt(f, g, Idx(g.width, 0, yy + 1), bit, bo, bits)
      ensures forall a, b | InCanvas(a, b) ::
        Cell(a, b) == if GlyphDrawnBetween(clip, f, g, x, y, sizeX, sizeY, Idx(g.width, 0, yy), Idx(g.width, 0, yy + 1), a, b)
                      then pen else old(Cell(a, b))
    {
      bit, bo, bits := bit0, bo0, bits0;
      ghost var k0 := Idx(g.width, 0, yy);
      ghost var k := k0;
      var xx := 0;
      while xx < g.width
        invariant 0 <= xx <= g.width && k == Idx(g.width, xx, yy) && k - k0 == xx
        invariant StreamAt(f, g, k, bit, bo, bits)
        invariant forall a, b | InCanvas(a, b) ::
          Cell(a, b) == if GlyphDrawnBetween(clip, f, g, x, y, sizeX, sizeY, k0, k, a, b) then pen else old(Cell(a, b))
      {
        IdxInRange(g.width, g.height, xx, yy);
        StreamNext(f, g, k, bit, bo, bits);
        if bit % 8 == 0 {
          bits := f.bitmap[bo];
          bo := bo + 1;
        }
        bit := (bit + 1) % 256;
        GlyphBlock(f, g, x, y, sizeX, sizeY, xo16, yo16, xx, yy, bits & 0x80 != 0);
        bits := bits << 1;
        xx := xx + 1;
        k := k + 1;
      }
    }

    /** One pixel of `customFontDrawChar`: when its bit is set, the block of
        glyph pixel (xx, yy) is filled, a single pixel at size one. */
    method GlyphBlock(f: GfxFont, g: GfxGlyph, x: int, y: int, sizeX: int, sizeY: int,
                      xo16: int, yo16: int, xx: int, yy: int, on: bool)
      requires Valid() && GlyphWF(f.bitmap, g) && 0 <= xx < g.width && 0 <= yy < g.height
      requires (xo16, yo16) == if sizeX > 1 || sizeY > 1 then (g.xOffset, g.yOffset) else (0, 0)
      requires on == GlyphPixelAt(f, g, xx, yy)
      modifies frameBuffer
      ensures forall a, b | InCanvas(a, b) ::
        Cell(a, b) == if GlyphCovers(clip, f, g, x, y, sizeX, sizeY, a, b) && GlyphPixelNo(g, x, y, sizeX, sizeY, a, b) == Idx(g.width, xx, yy)
                      then pen else old(Cell(a, b))
    {
      IdxInjective(g.width);
      if on {
        if sizeX == 1 && sizeY == 1 {
          Rectangle(Rect(x + g.xOffset + xx, y + g.yOffset + yy, 1, 1));
        } else {
          var r := Rect(x + (xo16 + xx) * sizeX, y + (yo16 + yy) * sizeY, sizeX, sizeY);
          Rectangle(r);
          if sizeX >= 1 && sizeY >= 1 {
            forall a, b ensures Contains(r, Point(a, b)) <==>
              (a - x) / sizeX == g.xOffset + xx && (b - y) / sizeY == g.yOffset + yy
            {
              BlockCell(x, sizeX, g.xOffset + xx, a);
              BlockCell(y, sizeY, g.yOffset + yy, b);
            }
          }
        }
      }
    }

    /** `text(t, p, wrap, scale)` with the built-in font: the characters of
        the greedy word-wrap layout, each drawn by `character` at its
        offset from `p`. */
    method BuiltinText(t: string, p: Point, wrap: int, scale: int)
      requires Valid() && TextArgs(font, t, wrap, scale)
      modifies frameBuffer
      ensures forall x, y | InCanvas(x, y) ::
        Cell(x, y) == if PlacementsCover(clip, font, scale, p, Placements(font, t, scale, Layout(font, t, wrap, scale)), x, y)
                      then pen else old(Cell(x, y))
    {
      ghost var orig := frameBuffer[..];
      var co, lo := 0, 0;
      var i := 0;
      ghost var done: seq<WordAt> := [];
      NothingPainted(orig, t, p, scale);
      while i < |t|
        invariant 0 <= i <= |t| + 1
        invariant Layout(font, t, wrap, scale) == done + LayoutFrom(font, t, wrap, scale, i, co, lo)
        invariant WordsInText(t, done)
        invariant TextPainted(orig, t, p, scale, done)
        decreases |t| + 1 - i
      {
        i, co, lo, done := TextStep(orig, t, p, wrap, scale, i, co, lo, done);
      }
      assert LayoutFrom(font, t, wrap, scale, i, co, lo) == [];
      assert done == Layout(font, t, wrap, scale);
      forall x, y | InCanvas(x, y)
        ensures Cell(x, y) == if PlacementsCover(clip, font, scale, p, Placements(font, t, scale, done), x, y)
                              then pen else old(Cell(x, y))
      {
        IdxInRange(bounds.w, bounds.h, x, y);
      }
    }

    /** The cells of the canvas are those of `orig`, with the characters of
        words `ws` painted over them. */
    ghost predicate TextPainted(orig: seq<Pen>, t: string, p: Point, scale: int, ws: seq<WordAt>)
      requires Valid() && ValidText(font, t) && scale >= 0 && WordsInText(t, ws)
      reads this, frameBuffer
    {
      |orig| == frameBuffer.Length &&
      forall x, y | InCanvas(x, y) ::
        IdxInRange(bounds.w, bounds.h, x, y);
        Cell(x, y) == if PlacementsCover(clip, font, scale, p, Placements(font, t, scale, ws), x, y)
                      then pen else orig[Idx(bounds.w, x, y)]
    }

    /** Before any word is drawn, the canvas is `orig` itself. */
    lemma NothingPainted(orig: seq<Pen>, t: string, p: Point, scale: int)
      requires Valid() && ValidText(font, t) && scale >= 0 && orig == frameBuffer[..]
      ensures TextPainted(orig, t, p, scale, [])
    {
      var none := Placements(font, t, scale, []);
      assert none == [];
      forall x, y | InCanvas(x, y)
        ensures !PlacementsCover(clip, font, scale, p, none, x, y)
        ensures 0 <= Idx(bounds.w, x, y) < |orig|
        ensures Cell(x, y) == orig[Idx(bounds.w, x, y)]
      {
        IdxInRange(bounds.w, bounds.h, x, y);
      }
    }

    /** One pass of the word loop of `text`: the word starting at `i` is
        placed and drawn, and the layout moves on past the space after it. */
    method TextStep(ghost orig: seq<Pen>, t: string, p: Point, wrap: int, scale: int, i: int, co0: int, lo0: int,
                    ghost done: seq<WordAt>)
        returns (i': int, co: int, lo: int, ghost done': seq<WordAt>)
      requires Valid() && TextArgs(font, t, wrap, scale) && 0 <= i < |t|
      requires Layout(font, t, wrap, scale) == done + LayoutFrom(font, t, wrap, scale, i, co0, lo0)
      requires WordsInText(t, done) && TextPainted(orig, t, p, scale, done)
      modifies frameBuffer
      ensures i < i' <= |t| + 1 && WordsInText(t, done')
      ensures Layout(font, t, wrap, scale) == done' + LayoutFrom(font, t, wrap, scale, i', co, lo)
      ensures TextPainted(orig, t, p, scale, done')
    {
      var nextSpace := FindSpace(t, i + 1);
      var w;
      w, co, lo := PaintWord(orig, t, p, wrap, scale, i, nextSpace, co0, lo0, done);
      LayoutAdvance(font, t, wrap, scale, done, i, co0, lo0, w, co, lo);
      done' := done + [w];
      i' := nextSpace + 1;
    }

    /** `TextWord`, with the word it draws added to those drawn before. */
    method PaintWord(ghost orig: seq<Pen>, t: string, p: Point, wrap: int, scale: int, i: int, nextSpace: int,
                     co0: int, lo0: int, ghost done: seq<WordAt>)
        returns (w: WordAt, co: int, lo: int)
      requires Valid() && TextArgs(font, t, wrap, scale) && 0 <= i <= nextSpace <= |t|
      requires WordsInText(t, done) && TextPainted(orig, t, p, scale, done)
      modifies frameBuffer
      ensures w == Place(font, t, wrap, scale, i, nextSpace, co0, lo0)
      ensures co == After(font, t, scale, w) && lo == w.lo
      ensures WordsInText(t, done + [w]) && TextPainted(orig, t, p, scale, done + [w])
    {
      w, co, lo := TextWord(t, p, wrap, scale, i, nextSpace, co0, lo0);
      ghost var before := Placements(font, t, scale, done);
      ghost var word := WordPlacements(font, t, scale, w, w.end);
      PlacementsAppend(font, t, scale, done, w);
      PlacementsCoverConcat(clip, font, scale, p, before, word);
    }

    /** One word of `text`: it moves to the next line if it would cross the
        wrap limit, is drawn, and the column moves past it and one space. */
    method TextWord(t: string, p: Point, wrap: int, scale: int, i: int, nextSpace: int, co0: int, lo0: int)
        returns (w: WordAt, co: int, lo: int)
      requires Valid() && TextArgs(font, t, wrap, scale) && 0 <= i <= nextSpace <= |t|
      modifies frameBuffer
      ensures w == Place(font, t, wrap, scale, i, nextSpace, co0, lo0)
      ensures co == After(font, t, scale, w) && lo == w.lo
      ensures forall x, y | InCanvas(x, y) ::
        Cell(x, y) == if PlacementsCover(clip, font, scale, p, WordPlacements(font, t, scale, w, w.end), x, y)
                      then pen else old(Cell(x, y))
    {
      co, lo := co0, lo0;
      var wordWidth := MeasureWord(t, i, nextSpace, scale);
      if co != 0 && co + wordWidth > WrapLimit(wrap) {
        co := 0;
        lo := lo + (font.height + 1) * scale;
      }
      w := WordAt(i, nextSpace, co, lo);
      co := DrawWord(t, p, scale, w);
      co := co + font.widths[0] * scale;
    }

    /** The `word_width` loop: the scaled widths of `t[i..e]`, summed in a
        `uint16_t`. */
    method MeasureWord(t: string, i: int, e: int, scale: int) returns (wordWidth: int)
      requires Valid() && ValidText(font, t) && 0 <= scale && 0 <= i <= e <= |t|
      ensures wordWidth == WordWidth(font, t, i, e, scale)
    {
      wordWidth := 0;
      var j := i;
      while j < e
        invariant i <= j <= e && wordWidth == Advance(font, t, i, j, scale) % 65536
      {
        ModAdd(Advance(font, t, i, j, scale), CharWidth(font, t[j]) * scale, 65536);
        wordWidth := (wordWidth + font.widths[t[j] as int - 32] * scale) % 65536;
        j := j + 1;
      }
    }

    /** The drawing loop of one word: each character at the running column,
        which ends past the word's last character. */
    method DrawWord(t: string, p: Point, scale: int, w: WordAt) returns (co: int)
      requires Valid() && ValidText(font, t) && 0 <= scale < 256 && 0 <= w.start <= w.end <= |t|
      modifies frameBuffer
      ensures co == w.co + Advance(font, t, w.start, w.end, scale)
      ensures forall x, y | InCanvas(x, y) ::
        Cell(x, y) == if PlacementsCover(clip, font, scale, p, WordPlacements(font, t, scale, w, w.end), x, y)
                      then pen else old(Cell(x, y))
    {
      co := w.co;
      var j := w.start;
      while j < w.end
        invariant w.start <= j <= w.end && co == w.co + Advance(font, t, w.start, j, scale)
        invariant forall x, y | InCanvas(x, y) ::
          Cell(x, y) == if PlacementsCover(clip, font, scale, p, WordPlacements(font, t, scale, w, j), x, y)
                        then pen else old(Cell(x, y))
      {
        Character(t[j], Point(p.x + co, p.y + w.lo), scale);
        forall x, y ensures PlacementsCover(clip, font, scale, p, WordPlacements(font, t, scale, w, j + 1), x, y) <==>
          PlacementsCover(clip, font, scale, p, WordPlacements(font, t, scale, w, j), x, y) ||
          CharCovers(clip, font, t[j], Point(p.x + co, p.y + w.lo), scale, x, y)
        {
          PlacementsCoverAppend(clip, font, scale, p, WordPlacements(font, t, scale, w, j), Placement(t[j], Point(co, w.lo)), x, y);
        }
        co := co + font.widths[t[j] as int - 32] * scale;
        j := j + 1;
      }
    }

    /** `text(t, p, wrap, scale)`: the custom font's writer when one is set,
        the built-in font's word wrapper otherwise. */
    method Text(t: string, p: Point, wrap: int, scale: int)
      requires Valid()
      requires gfxFont.Some? ==> GfxArgs(gfxFont.value, wrap, scale)
      requires gfxFont.None? ==> TextArgs(font, t, wrap, scale)
      modifies frameBuffer
      ensures forall x, y | InCanvas(x, y) ::
        Cell(x, y) == if TextCovers(t, p, wrap, scale, x, y) then pen else old(Cell(x, y))
    {
      if gfxFont.Some? {
        CustomFontWrite(t, p, wrap, scale);
        return;
      }
      BuiltinText(t, p, wrap, scale);
    }

    /** Pixel (x, y) is drawn by `text(t, p, wrap, scale)` with the current
        fonts. */
    ghost predicate TextCovers(t: string, p: Point, wrap: int, scale: int, x: int, y: int)
      requires Valid()
      requires gfxFont.Some? ==> GfxArgs(gfxFont.value, wrap, scale)
      requires gfxFont.None? ==> TextArgs(font, t, wrap, scale)
      reads this
    {
      if gfxFont.Some? then
        DrawsCover(clip, gfxFont.value, GfxDraws(gfxFont.value, Codes(t), wrap, scale, Cursor(p.x, p.y)), scale, x, y)
      else
        PlacementsCover(clip, font, scale, p, Placements(font, t, scale, Layout(font, t, wrap, scale)), x, y)
    }

    /** `customFontWrite(t, p, wrap, scale)`: the codes of `t` up to its
        terminating NUL, each moving the cursor and drawing its glyph. */
    method CustomFontWrite(t: string, p: Point, wrap: int, scale: int)
      requires Valid() && gfxFont.Some? && GfxArgs(gfxFont.value, wrap, scale)
      modifies frameBuffer
      ensures forall x, y | InCanvas(x, y) ::
        Cell(x, y) == if DrawsCover(clip, gfxFont.value, GfxDraws(gfxFont.value, Codes(t), wrap, scale, Cursor(p.x, p.y)), scale, x, y)
                      then pen else old(Cell(x, y))
    {
      ghost var orig := frameBuffer[..];
      ghost var f := gfxFont.value;
      ghost var codes := Codes(t);
      ghost var start := Cursor(p.x, p.y);
      var c := if |t| > 0 then Code(t[0]) else 0;
      var i := 0;
      var cursorX, cursorY := p.x, p.y;
      NoDrawsPainted(orig, f, scale);
      assert codes[..0] == [];
      while c != 0
        invariant 0 <= i <= TextEnd(t, 0)
        invariant c == if i < |t| then Code(t[i]) else 0
        invariant Cursor(cursorX, cursorY) == GfxCursor(f, codes[..i], wrap, scale, start)
        invariant DrawsPainted(orig, f, GfxDraws(f, codes[..i], wrap, scale, start), scale)
        decreases |t| - i
      {
        ghost var drawn := GfxDraws(f, codes[..i], wrap, scale, start);
        ghost var d := GfxDraw(f, c, wrap, scale, Cursor(cursorX, cursorY));
        ghost var cur := Cursor(cursorX, cursorY);
        cursorX, cursorY := CustomFontChar(orig, c, cursorX, cursorY, wrap, scale, drawn);
        assert codes[..i + 1][..i] == codes[..i] && codes[..i + 1][i] == c;
        assert GfxDraws(f, codes[..i + 1], wrap, scale, start) == drawn + (if d.Some? then [d.value] else []);
        assert GfxCursor(f, codes[..i + 1], wrap, scale, start) == GfxNext(f, c, wrap, scale, cur);
        i := i + 1;
        c := if i < |t| then Code(t[i]) else 0;
      }
      assert codes[..i] == codes;
      forall x, y | InCanvas(x, y)
        ensures Cell(x, y) == if DrawsCover(clip, f, GfxDraws(f, codes, wrap, scale, start), scale, x, y)
                              then pen else old(Cell(x, y))
      {
        IdxInRange(bounds.w, bounds.h, x, y);
      }
    }

    /** One code of `customFontWrite`: a newline starts the next line, a
        carriage return or a code outside the font does nothing, and any
        other code draws its glyph, if it has a bitmap, and advances the
        cursor. */
    method CustomFontChar(ghost orig: seq<Pen>, c: int, x0: int, y0: int, wrap: int, scale: int, ghost drawn: seq<GlyphDraw>)
        returns (x: int, y: int)
      requires Valid() && gfxFont.Some? && GfxArgs(gfxFont.value, wrap, scale)
      requires DrawsPainted(orig, gfxFont.value, drawn, scale)
      modifies frameBuffer
      ensures Cursor(x, y) == GfxNext(gfxFont.value, c, wrap, scale, Cursor(x0, y0))
      ensures var d := GfxDraw(gfxFont.value, c, wrap, scale, Cursor(x0, y0));
        DrawsPainted(orig, gfxFont.value, drawn + (if d.Some? then [d.value] else []), scale)
    {
      var f := gfxFont.value;
      x, y := x0, y0;
      if c == 10 {
        x := 0;
        y := y + scale * f.yAdvance;
        assert drawn + [] == drawn;
      } else if c != 13 && InRange(f, c) {
        var g := f.glyphs[GlyphIndex(f, c)];
        if g.width > 0 && g.height > 0 {
          if wrap != 0 && x + scale * (g.xOffset + g.width) > wrap {
            x := 0;
            y := y + scale * f.yAdvance;
          }
          assert Cursor(x, y) == DrawPosition(f, c, wrap, scale, Cursor(x0, y0));
          PaintGlyph(orig, c, x, y, scale, drawn);
        } else {
          assert drawn + [] == drawn;
        }
        x := x + g.xAdvance * scale;
      } else {
        assert drawn + [] == drawn;
      }
    }

    /** `customFontDrawChar(c, x, y, scale, scale)`, with the glyph it draws
        added to those drawn before. */
    method PaintGlyph(ghost orig: seq<Pen>, c: int, x: int, y: int, scale: int, ghost drawn: seq<GlyphDraw>)
      requires Valid() && gfxFont.Some? && InRange(gfxFont.value, c)
      requires DrawsPainted(orig, gfxFont.value, drawn, scale)
      modifies frameBuffer
      ensures DrawsPainted(orig, gfxFont.value, drawn + [GlyphDraw(c, x, y)], scale)
    {
      CustomFontDrawChar(c, x, y, scale, scale);
      forall a, b ensures DrawsCover(clip, gfxFont.value, drawn + [GlyphDraw(c, x, y)], scale, a, b) <==>
        DrawsCover(clip, gfxFont.value, drawn, scale, a, b) || GlyphDrawCovers(clip, gfxFont.value, GlyphDraw(c, x, y), scale, a, b)
      {
        DrawsCoverAppend(clip, gfxFont.value, drawn, GlyphDraw(c, x, y), scale, a, b);
      }
    }

    /** The cells of the canvas are those of `orig`, with the glyphs `ds`
        painted over them. */
    ghost predicate DrawsPainted(orig: seq<Pen>, f: GfxFont, ds: seq<GlyphDraw>, scale: int)
      requires Shape() && GfxFontWF(f)
      reads this, frameBuffer
    {
      |orig| == frameBuffer.Length &&
      forall x, y | InCanvas(x, y) ::
        IdxInRange(bounds.w, bounds.h, x, y);
        Cell(x, y) == if DrawsCover(clip, f, ds, scale, x, y) then pen else orig[Idx(bounds.w, x, y)]
    }

    lemma NoDrawsPainted(orig: seq<Pen>, f: GfxFont, scale: int)
      requires Shape() && GfxFontWF(f) && orig == frameBuffer[..]
      ensures DrawsPainted(orig, f, [], scale)
    {
      forall x, y | InCanvas(x, y)
        ensures 0 <= Idx(bounds.w, x, y) < |orig|
        ensures Cell(x, y) == orig[Idx(bounds.w, x, y)]
      {
        IdxInRange(bounds.w, bounds.h, x, y);
      }
    }
  }
}
