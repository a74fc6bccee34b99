# PicoGraphics rasteriser, modelled in Dafny

This project models the software rasteriser of the Pimoroni Pico libraries,
`PicoGraphics` (`libraries/pico_graphics/pico_graphics.cpp` and
`libraries/pico_graphics/pico_graphics.hpp`). It is a canvas over a
caller-owned RGB565 frame buffer. It carries a clip rectangle, a current pen,
a built-in font and an optional Adafruit-GFX glyph-table font. Its drawing
primitives overwrite buffer cells in place.

The modules follow the structure of the program:

| module | what it holds |
|---|---|
| `IntOps` | The C++ arithmetic the code relies on: truncating `/`, arithmetic `>> 16`, the row-major index `x + y * bounds.w` that replaces the `ptr` pointer helpers, and the counter arithmetic of the glyph bit stream. |
| `Geometry` | `Point` and `Rect` as values, with half-open containment, `Rect(tl, br)` and intersection. A small `PointVar` class stands for a point variable updated in place by `+=` and `-=`. |
| `Pens` | `create_pen`: RGB565 packing followed by a byte swap, on `bv16`. |
| `Fonts` | The built-in font table and the GFX `GFXglyph` / `GFXfont` records, as read-only values with well-formedness predicates. |
| `Raster` | Pure reference definitions of what each primitive draws: circle spans, line walks, triangle edge functions with the top-left bias, and polygon crossings and scanline spans. Their properties are proved here. |
| `Sorting` | The reference for the polygon's in-place node sort: insertion sort, uniqueness of the sorted permutation, and the inversion count that bounds the swaps. |
| `TextLayout` | The greedy word-wrap layout of `text` and the cursor walk of `customFontWrite`, as pure functions of the string. |
| `Graphics` | Class `PicoGraphics`, with `bounds`, `clip`, `pen`, `font` and `gfxFont` as fields and the frame buffer and the `nodes[64]` scratch array as arrays. |

Every drawing method's postcondition states the whole new buffer. A canvas
cell holds the pen exactly when the primitive's reference definition covers
it; every other cell keeps its old value. The loops of the source (`while(l--)`,
the circle's octant walk, the triangle's incremental edge values, the
polygon's node collection, exchange sort and pair fill, and the two text
writers with the glyph bit stream) are kept as loops with invariants.

`Rect::empty`, `contains`, `intersects` and `intersection` are declared in
the header but their bodies are not part of this model. They are modelled
with half-open semantics: `x <= px < x + w`, empty when `w <= 0` or `h <= 0`,
and intersection in max/min form.

## Model

| member | source | states |
|---|---|---|
| IntOps.TruncDiv | libraries/pico_graphics/pico_graphics.cpp:326 | C++ signed division truncates toward zero: the magnitude is the floor of the magnitudes' quotient and the sign is the sign of the quotient. |
| IntOps.Asr16 | libraries/pico_graphics/pico_graphics.cpp:330 | `v >> 16` on a signed value is the largest `r` with `r * 65536 <= v`, i.e. it rounds toward minus infinity. |
| IntOps.IdxInRange | libraries/pico_graphics/pico_graphics.cpp:45-47 | `ptr(x, y)` of any canvas cell lies inside the `w * h` buffer. |
| IntOps.IdxInjective | libraries/pico_graphics/pico_graphics.cpp:45-47 | Distinct canvas cells have distinct buffer indices, so a store to one cell leaves every other cell alone. |
| IntOps.BlockDiv | libraries/pico_graphics/pico_graphics.cpp:130 | The block of `s` cells starting at `c * s` holds exactly the offsets whose floor quotient by `s` is `c`. This is the basis of nearest-neighbour scaling. |
| IntOps.BitCount | libraries/pico_graphics/pico_graphics.cpp:381 | The `uint8_t` counter `bit` keeps the low three bits of the pixel number, and a new byte is due exactly when they are zero. |
| IntOps.ModAdd | libraries/pico_graphics/pico_graphics.cpp:156-159 | Reducing after every addition gives the reduced total: the `uint16_t` word width is the true sum modulo 65536. |
| Geometry.PointVar.constructor | libraries/pico_graphics/pico_graphics.hpp:21 | `Point(x, y)` holds the given coordinates. |
| Geometry.PointVar.AddAssign | libraries/pico_graphics/pico_graphics.hpp:24 | `p += a` adds `a` to both coordinates and changes nothing else. |
| Geometry.PointVar.SubAssign | libraries/pico_graphics/pico_graphics.hpp:23 | `p -= a` subtracts `a` from both coordinates and changes nothing else. |
| Geometry.AddThenSub | libraries/pico_graphics/pico_graphics.hpp:23-24 | `+= a` followed by `-= a` on a point variable gives back the original point. |
| Geometry.FromCorners | libraries/pico_graphics/pico_graphics.hpp:34 | `Rect(tl, br)` contains exactly the points with `tl <= p < br` in both axes, so `br` itself lies outside it. |
| Geometry.Intersection | libraries/pico_graphics/pico_graphics.hpp:40 | A point is in the intersection iff it is in both rectangles, and the intersection lies within each of them. |
| Geometry.EmptyIffNoPoint | libraries/pico_graphics/pico_graphics.hpp:36 | A rectangle is empty iff it contains no point. |
| Geometry.IntersectsIffCommonPoint | libraries/pico_graphics/pico_graphics.hpp:39 | Two rectangles intersect iff some point lies in both. |
| Pens.Pack565 | libraries/pico_graphics/pico_graphics.hpp:87-89 | Before the swap, bits 15..11 are `r >> 3`, bits 10..5 are `g >> 2` and bits 4..0 are `b >> 3`. |
| Pens.ByteSwap16 | libraries/pico_graphics/pico_graphics.hpp:91 | The swapped word's high byte is the input's low byte, and vice versa. |
| Pens.ByteSwapInvolution | libraries/pico_graphics/pico_graphics.hpp:91 | Swapping twice gives back the word. |
| Pens.CreatePen | libraries/pico_graphics/pico_graphics.hpp:86-92 | Swapping the pen's bytes back recovers the packed RGB565 word. |
| Pens.LowBitsIgnored | libraries/pico_graphics/pico_graphics.hpp:87-89 | `create_pen(r, g, b) == create_pen(r & 0xF8, g & 0xFC, b & 0xF8)`. |
| Pens.CreatePenInjective | libraries/pico_graphics/pico_graphics.hpp:86-92 | Two colours give the same pen iff `r >> 3`, `g >> 2` and `b >> 3` agree (both directions). |
| Pens.PureRed | libraries/pico_graphics/pico_graphics.hpp:86-92 | Pure red packs to `0xF800` and is stored as `0x00F8`. |
| Fonts.CharWidth | libraries/pico_graphics/pico_graphics.cpp:122 | The width of a valid character is between 0 and the font's `max_width`. |
| Fonts.GlyphIndex | libraries/pico_graphics/pico_graphics.cpp:419 | The corrected lookup `c - first` of an in-range code names a well-formed record inside the glyph table. |
| Fonts.GlyphIndexAgreesFromSpace | libraries/pico_graphics/pico_graphics.cpp:364 | For a font whose first code is 32, the lookup as written (`c - 32`) and the corrected one agree. |
| Fonts.GlyphIndexAsWrittenOverruns | libraries/pico_graphics/pico_graphics.cpp:419 | For a digits-only font, the lookup as written reads past the end of the glyph table. |
| Fonts.TopBitAfterShift | libraries/pico_graphics/pico_graphics.cpp:384-392 | After `bits` has been shifted left `i` times, its bit `j` is bit `j - i` of the loaded byte; the tested top bit is bit `7 - i`. |
| Raster.CircleSpansCentred | libraries/pico_graphics/pico_graphics.cpp:104-112 | Every circle span starts at `p.x - k` and is `2k + 1` long, for some `0 <= k <= radius`. |
| Raster.CircleSpansMirrored | libraries/pico_graphics/pico_graphics.cpp:104-112 | The reflection of every span about row `p.y` is also a span. |
| Raster.CircleCentreRowOnce | libraries/pico_graphics/pico_graphics.cpp:104-107 | The first span is the full diameter on the centre row, and the centre row carries exactly one span (the `last_oy != 0` guard). |
| Raster.CircleSpansInBox | libraries/pico_graphics/pico_graphics.cpp:94 | Every pixel of every span lies in the `2r + 1` bounding square. |
| Raster.CircleBoxCulls | libraries/pico_graphics/pico_graphics.cpp:94-95 | When the bounding square misses the clip, no span pixel is visible, so the early return loses nothing. |
| Raster.CircleBoxAsWrittenMissesEdge | libraries/pico_graphics/pico_graphics.cpp:94-95 | Under the half-open `Rect::intersects` assumed above, the `2r` square as written misses the clip for a radius-5 circle whose visible pixel (5, 0) lies in the clip. With an intersection test that counts rectangles touching at an edge, the example is not skipped. |
| Raster.SpanClampAsWrittenNegative | libraries/pico_graphics/pico_graphics.cpp:60-69 | `pixel_span`'s clamp as written yields a negative count for a span over a disjoint clip and for a negative length. |
| Raster.DisjointClipExample | libraries/pico_graphics/pico_graphics.cpp:29-31 | `set_clip` of a rectangle right of the canvas stores a clip of negative width. |
| Raster.SpanClampAsWrittenExact | libraries/pico_graphics/pico_graphics.cpp:60-66 | Where the clamped count is not negative, the clamped run is exactly the span's pixels inside the clip. |
| Raster.VerticalRunAsWrittenEscapes | libraries/pico_graphics/pico_graphics.cpp:305-313 | The vertical case as written draws a column outside the clip, and a line above the clip gets a negative count. |
| Raster.WalkAt | libraries/pico_graphics/pico_graphics.cpp:329-333 | The k-th pixel of the stepping loop is the start advanced `k` steps along both axes. |
| Raster.LinePointsShape | libraries/pico_graphics/pico_graphics.cpp:319-346 | A general line has `max(abs(dx), abs(dy))` pixels. The k-th lies `k * sign` from `p1` on the major axis. It starts at `p1` and never reaches `p2`. |
| Raster.OrientSteps | libraries/pico_graphics/pico_graphics.cpp:213-218 | One pixel right changes an edge function by `a.y - b.y`, one pixel down by `b.x - a.x`: the `aXY` and `bXY` increments. |
| Raster.EdgesStep | libraries/pico_graphics/pico_graphics.cpp:238-245 | The three biased edge values of the wound vertices step by exactly the loop's increments. |
| Raster.OrientReversed | libraries/pico_graphics/pico_graphics.cpp:180-182 | Swapping the first and third vertex negates `orient2d`. |
| Raster.WoundNonNegative | libraries/pico_graphics/pico_graphics.cpp:202-206 | After the winding swap, `orient2d` of the vertices is never negative. |
| Raster.TriangleExcludesMaxEdges | libraries/pico_graphics/pico_graphics.cpp:189-191 | A triangle never draws the vertices' largest column or row. |
| Raster.SharedEdgeExactlyOnce | libraries/pico_graphics/pico_graphics.cpp:208-211 | On an edge shared in opposite directions, exactly one of the two biased tests passes at every pixel. |
| Raster.SharedEdgeNoOverdraw | libraries/pico_graphics/pico_graphics.cpp:208-211 | Two counter-clockwise triangles on either side of a common edge never draw the same pixel. |
| Raster.OrSignTest | libraries/pico_graphics/pico_graphics.cpp:232 | On two's-complement words, `(w0 \| w1 \| w2) >= 0` holds iff all three are non-negative. |
| Raster.NodesUpTo | libraries/pico_graphics/pico_graphics.cpp:264-276 | The node list of the first `k` edges has one node per crossing edge. |
| Raster.CrossCountMono | libraries/pico_graphics/pico_graphics.cpp:264-275 | The node count only grows as the edges are walked. |
| Raster.NodesClamped | libraries/pico_graphics/pico_graphics.cpp:274 | With a non-empty clip, every node lies in `[clip.x, clip.x + clip.w - 1]`. |
| Raster.PathCrossParity | libraries/pico_graphics/pico_graphics.cpp:269 | Along the open path through the first `k + 1` vertices, the crossing count is odd iff the path ends on the other side of the scanline. |
| Raster.CrossingsEven | libraries/pico_graphics/pico_graphics.cpp:264-276 | A closed vertex list crosses every scanline an even number of times. |
| Raster.EdgeEndIndex | libraries/pico_graphics/pico_graphics.cpp:265 | `(i + 1) % points.size()` is a valid index and names the end of edge `i`; the last edge closes the polygon. |
| Raster.PairSpansAt | libraries/pico_graphics/pico_graphics.cpp:289-291 | Span `j` of a scanline runs from node `2j` to node `2j + 1`, both included. |
| Raster.PairSpansLength | libraries/pico_graphics/pico_graphics.cpp:289 | `n` nodes give `n / 2` spans. |
| Raster.ScanlineSpansNonEmpty | libraries/pico_graphics/pico_graphics.cpp:289-291 | Because the nodes are sorted, every filled span is at least one pixel long. |
| Raster.ScanlineSpansStayOnRow | libraries/pico_graphics/pico_graphics.cpp:290 | A scanline's spans draw only on that scanline. |
| Raster.MinMaxYBound | libraries/pico_graphics/pico_graphics.cpp:252-257 | `miny` and `maxy` bound every vertex's height and are attained by some vertex. |
| Sorting.Insert | libraries/pico_graphics/pico_graphics.cpp:278-287 | Inserting into a sorted sequence gives a sorted sequence with exactly one more element. |
| Sorting.Sort | libraries/pico_graphics/pico_graphics.cpp:278-287 | The reference sort returns a sorted permutation of its input. |
| Sorting.SortedUnique | libraries/pico_graphics/pico_graphics.cpp:278-287 | Two sorted sequences with the same elements are equal, so any sorting loop produces `Sort`. |
| Sorting.Swap | libraries/pico_graphics/pico_graphics.cpp:281 | Exchanging two neighbours keeps the length and the multiset of elements. |
| Sorting.SortedUpToExtend | libraries/pico_graphics/pico_graphics.cpp:284-286 | An in-order neighbour extends the sorted prefix by one. |
| Sorting.SortedUpToSwap | libraries/pico_graphics/pico_graphics.cpp:280-283 | A swap at `i` keeps the prefix before `i` sorted, so stepping back one place is safe. |
| Sorting.SwapRemovesInversion | libraries/pico_graphics/pico_graphics.cpp:280-283 | Exchanging an out-of-order pair removes exactly one inversion, which bounds the number of swaps. |
| TextLayout.FindSpace | libraries/pico_graphics/pico_graphics.cpp:150-154 | `t.find(' ', k)` (or `t.length()` on `npos`) is the first space at or after `k`, with no space before it. |
| TextLayout.WrapLimit | libraries/pico_graphics/pico_graphics.cpp:163 | `(uint32_t)wrap` is the non-negative value congruent to `wrap` modulo 2^32. |
| TextLayout.Place | libraries/pico_graphics/pico_graphics.cpp:161-166 | A word keeps its column unless it moves to column 0 because it would cross the wrap limit, and its line never moves up. |
| TextLayout.LayoutAdvance | libraries/pico_graphics/pico_graphics.cpp:148-177 | Placing the next word moves it from the layout still to come to the words already drawn. |
| TextLayout.LayoutWellFormed | libraries/pico_graphics/pico_graphics.cpp:145-177 | The layout splits the text into space-separated words. Every word starts a line or fits the limit. A word moves to column 0, `(height + 1) * scale` lower, exactly when it would cross the limit; otherwise it follows its predecessor plus `widths[0] * scale`. |
| TextLayout.LayoutLinesNeverRise | libraries/pico_graphics/pico_graphics.cpp:163-166 | A later word is never on an earlier line. |
| TextLayout.WordPlacementsAt | libraries/pico_graphics/pico_graphics.cpp:169-172 | Character `m` of a word is drawn after the scaled widths of the characters before it. |
| TextLayout.PlacementsLength | libraries/pico_graphics/pico_graphics.cpp:169-172 | Exactly one character is drawn per character of the words. |
| TextLayout.TextEnd | libraries/pico_graphics/pico_graphics.cpp:400-406 | The writer stops at the first NUL byte, or at the string's end. |
| TextLayout.Codes | libraries/pico_graphics/pico_graphics.cpp:400-435 | The codes read are the bytes of the string before its terminator, none of them zero. |
| TextLayout.GfxInertInvisible | libraries/pico_graphics/pico_graphics.cpp:407-434 | Inserting `'\r'` or an out-of-range code anywhere changes neither the cursor nor the glyphs drawn. |
| TextLayout.GfxDrawsFit | libraries/pico_graphics/pico_graphics.cpp:422-429 | Every glyph drawn has a bitmap. With wrapping on, it starts a line or its bitmap ends within `wrap`. |
| TextLayout.GfxRowAdvance | libraries/pico_graphics/pico_graphics.cpp:431-432 | Without wrapping, in-range codes move the cursor right by the sum of their scaled advances, glyphs without a bitmap included. |
| TextLayout.GfxNewlineColumnZero | libraries/pico_graphics/pico_graphics.cpp:407-411 | After `'\n'` the cursor is at column 0, not at `p.x`, one `scale * yAdvance` lower. |
| Graphics.StreamNext | libraries/pico_graphics/pico_graphics.cpp:379-393 | The tested top bit of `bits` is glyph pixel `k`, i.e. bit `7 - k % 8` of byte `bitmapOffset + k / 8`. The stream state moves on to pixel `k + 1` across row boundaries, with no row padding. |
| Graphics.BlockCell | libraries/pico_graphics/pico_graphics.cpp:130 | The `scale x scale` block of glyph column `cx` holds exactly the pixels whose scaled column is `cx`. |
| Graphics.CharCoversInBox | libraries/pico_graphics/pico_graphics.cpp:122-124 | Every pixel a character draws lies in its box and the clip, so the early return loses nothing. |
| Graphics.PicoGraphics.constructor | libraries/pico_graphics/pico_graphics.cpp:8-11 | The canvas bounds and the clip are `(0, 0, width, height)`, the font is the default and no glyph-table font is set. |
| Graphics.PicoGraphics.ClipInCanvas | libraries/pico_graphics/pico_graphics.cpp:29-35 | A pixel in the clip is on the canvas, because the clip never extends past the bounds. |
| Graphics.PicoGraphics.SetFont | libraries/pico_graphics/pico_graphics.cpp:13-15 | Only the font changes. |
| Graphics.PicoGraphics.SetPenRGB | libraries/pico_graphics/pico_graphics.cpp:21-23 | The pen becomes `create_pen(r, g, b)`, and nothing else changes. |
| Graphics.PicoGraphics.SetPen | libraries/pico_graphics/pico_graphics.cpp:25-27 | Only the pen changes. |
| Graphics.PicoGraphics.SetClip | libraries/pico_graphics/pico_graphics.cpp:29-31 | The clip holds exactly the points of `r` on the canvas, and the canvas invariant `clip` within `bounds` is kept. |
| Graphics.PicoGraphics.RemoveClip | libraries/pico_graphics/pico_graphics.cpp:33-35 | The clip becomes the bounds. |
| Graphics.PicoGraphics.CustomFontSetFont | libraries/pico_graphics/pico_graphics.cpp:350-353 | Text now uses the given glyph-table font. |
| Graphics.PicoGraphics.CustomFontClear | libraries/pico_graphics/pico_graphics.cpp:355-358 | Text goes back to the built-in font. |
| Graphics.PicoGraphics.Store | libraries/pico_graphics/pico_graphics.cpp:45-47 | `*ptr(x, y) = pen` changes exactly one cell. |
| Graphics.PicoGraphics.Pixel | libraries/pico_graphics/pico_graphics.cpp:53-56 | Cell `p` gets the pen iff the clip contains `p`; all other cells are unchanged. |
| Graphics.PicoGraphics.PixelSpan | libraries/pico_graphics/pico_graphics.cpp:58-72 | Exactly the cells `(x, p.y)` with `p.x <= x < p.x + l` inside the clip get the pen (corrected for negative counts, see Findings). |
| Graphics.PicoGraphics.Rectangle | libraries/pico_graphics/pico_graphics.cpp:74-90 | Exactly the cells of `r` inside the clip get the pen; an empty intersection changes nothing. |
| Graphics.PicoGraphics.Clear | libraries/pico_graphics/pico_graphics.cpp:49-51 | Exactly the cells of the clip get the pen. |
| Graphics.PicoGraphics.SpanPair | libraries/pico_graphics/pico_graphics.cpp:104-107 | The span at `cy + off` and, unless `off` is zero, its mirror at `cy - off` are painted. |
| Graphics.PicoGraphics.Circle | libraries/pico_graphics/pico_graphics.cpp:92-118 | Exactly the clipped cells of the midpoint circle's spans get the pen, with the corrected bounding square. |
| Graphics.PicoGraphics.CircleStep | libraries/pico_graphics/pico_graphics.cpp:98-117 | One loop pass increases `oy` by one and never increases `ox`, so the loop ends. It paints the next spans of the circle. |
| Graphics.PicoGraphics.Line | libraries/pico_graphics/pico_graphics.cpp:295-347 | Horizontal and vertical lines paint the half-open run from the smaller to the larger end; other lines paint their stepped pixels; all are clipped. |
| Graphics.PicoGraphics.VerticalLine | libraries/pico_graphics/pico_graphics.cpp:305-313 | Exactly the clipped cells of column `p1.x` from the smaller y up to, not including, the larger y get the pen (corrected, see Findings). |
| Graphics.PicoGraphics.SteppedLine | libraries/pico_graphics/pico_graphics.cpp:316-346 | Exactly the clipped pixels of the line's walk get the pen; the shallow branch is taken iff `abs(dx) > abs(dy)`. |
| Graphics.PicoGraphics.ShallowRun | libraries/pico_graphics/pico_graphics.cpp:322-333 | The shallow loop paints exactly the clipped pixels of its walk. |
| Graphics.PicoGraphics.SteepRun | libraries/pico_graphics/pico_graphics.cpp:334-346 | The steep loop paints exactly the clipped pixels of its walk. |
| Graphics.PicoGraphics.Triangle | libraries/pico_graphics/pico_graphics.cpp:188-247 | Exactly the cells of `clip ∩ Rect(min, max)` at which all three biased edge functions of the wound vertices are non-negative get the pen. |
| Graphics.PicoGraphics.TriangleFill | libraries/pico_graphics/pico_graphics.cpp:220-246 | The row loop paints exactly the box cells inside all three edges; the incremental row values equal the edge functions at each row start. |
| Graphics.PicoGraphics.TriangleRow | libraries/pico_graphics/pico_graphics.cpp:225-241 | On one row, the incremental `w0`, `w1` and `w2` equal the biased edge functions at each pixel, and exactly the pixels where all are non-negative are painted. |
| Graphics.PicoGraphics.SortNodes | libraries/pico_graphics/pico_graphics.cpp:278-287 | The exchange sort leaves `nodes[0..n)` the sorted permutation of what it held and the rest untouched; each swap removes an inversion, so the loop ends. |
| Graphics.PicoGraphics.ExchangeNodes | libraries/pico_graphics/pico_graphics.cpp:281 | `nodes[i]` and `nodes[i + 1]` trade places, and nothing else changes. |
| Graphics.PicoGraphics.CollectNodes | libraries/pico_graphics/pico_graphics.cpp:263-276 | The node loop stores one clamped crossing per crossing edge, in edge order. |
| Graphics.PicoGraphics.FillPairs | libraries/pico_graphics/pico_graphics.cpp:289-291 | The pair loop paints exactly the clipped spans between nodes `2k` and `2k + 1`, both included. |
| Graphics.PicoGraphics.PolygonRow | libraries/pico_graphics/pico_graphics.cpp:262-291 | One scanline paints exactly the clipped spans between consecutive sorted crossings. |
| Graphics.PicoGraphics.Polygon | libraries/pico_graphics/pico_graphics.cpp:249-293 | Exactly the cells covered by a scanline span get the pen, on every scanline from `max(clip.y, miny)` to `min(clip.y + clip.h, maxy)`, both included. |
| Graphics.PicoGraphics.Character | libraries/pico_graphics/pico_graphics.cpp:120-136 | Exactly the clipped cells of the `scale x scale` blocks of set column bits get the pen; nothing is drawn when the glyph box misses the clip. |
| Graphics.PicoGraphics.CharColumn | libraries/pico_graphics/pico_graphics.cpp:127-135 | Column `cx` paints exactly the blocks of its set bits `(1 << cy) & column`. |
| Graphics.PicoGraphics.CustomFontDrawChar | libraries/pico_graphics/pico_graphics.cpp:362-395 | Exactly the clipped cells of the `sizeX x sizeY` blocks of the glyph's set bitmap pixels get the pen, placed from the glyph's offsets. |
| Graphics.PicoGraphics.GlyphRows | libraries/pico_graphics/pico_graphics.cpp:379-394 | The row loop paints exactly the glyph's set pixels from a fresh bit stream. |
| Graphics.PicoGraphics.GlyphRow | libraries/pico_graphics/pico_graphics.cpp:380-393 | One glyph row paints exactly its set pixels, and the bit stream continues into the next row. |
| Graphics.PicoGraphics.GlyphBlock | libraries/pico_graphics/pico_graphics.cpp:384-391 | A set bit fills its pixel's block: a single pixel at size one, a `sizeX x sizeY` block otherwise. |
| Graphics.PicoGraphics.BuiltinText | libraries/pico_graphics/pico_graphics.cpp:145-177 | Exactly the clipped pixels of the characters of the word-wrap layout, each drawn by `character` at its offset from `p`, get the pen. |
| Graphics.PicoGraphics.TextStep | libraries/pico_graphics/pico_graphics.cpp:148-177 | One pass of the word loop draws the next word of the layout and moves `i` strictly forward, so the loop ends. |
| Graphics.PicoGraphics.TextWord | libraries/pico_graphics/pico_graphics.cpp:150-176 | One word is placed as the layout says, is drawn, and moves the column past it and one space. |
| Graphics.PicoGraphics.MeasureWord | libraries/pico_graphics/pico_graphics.cpp:156-159 | The `word_width` loop yields the word's scaled width modulo 65536. |
| Graphics.PicoGraphics.DrawWord | libraries/pico_graphics/pico_graphics.cpp:169-172 | The drawing loop paints the word's characters and leaves the column after its last character. |
| Graphics.PicoGraphics.Text | libraries/pico_graphics/pico_graphics.cpp:138-143 | `text` paints the glyph-table writer's glyphs when a custom font is set, and the built-in layout's characters otherwise. |
| Graphics.PicoGraphics.CustomFontWrite | libraries/pico_graphics/pico_graphics.cpp:397-439 | Exactly the clipped pixels of the glyphs of the cursor walk over the string's codes, up to its NUL, get the pen. |
| Graphics.PicoGraphics.CustomFontChar | libraries/pico_graphics/pico_graphics.cpp:407-434 | One code moves the cursor as the walk says and draws its glyph, if it has one. |

## Left out

- The panel, backlight, `update()` and the two `font_demo.cpp` demo programs are hardware glue, not rasteriser logic.
- `int32_t`, `uint32_t`, `int16_t` and `uint16_t` arithmetic is modelled on unbounded integers, except the `uint16_t` `word_width`, `(uint32_t)wrap` and the `uint8_t` bit counter, which keep their widths. Overflow is therefore not modelled. This covers the `co`/`lo` offsets of `text`, `cursor_x`/`cursor_y` of `customFontWrite`, the `bo` byte offset, and the four cases listed below, where overflow changes what is drawn.
- Raster.Orient2d: the `int32_t` result of `orient2d` (pico_graphics.cpp:180-182) is the exact value. The source wraps it once it passes 2^31 in magnitude. An example is the triangle (-40000, 0), (40000, 0), (0, 40000), whose winding of 3.2e9 wraps to a negative value.
- Graphics.PicoGraphics.Triangle: its contract holds only where `orient2d` and the incremental edge values fit in `int32_t`. For the triangle above, the source swaps `p1` and `p3` on the wrapped winding and draws nothing. The model does not swap and fills the visible cells inside the triangle.
- Graphics.PicoGraphics.ShallowRun: `p1.y << 16`, `dy << 16` and the 16.16 accumulator (pico_graphics.cpp:326-333) are exact. In the source they overflow once a coordinate reaches 32768 in magnitude. On a 100 x 40000 canvas, `line((0, 35000), (10, 35001))` draws nothing in the source and draws (0, 35000) in the model.
- Graphics.PicoGraphics.SteepRun: `p1.x << 16`, `dx << 16` and the 16.16 accumulator (pico_graphics.cpp:338-345) are exact, with the same 32768 limit as ShallowRun.
- Graphics.PicoGraphics.Polygon: the `uint16_t i` vertex loops (pico_graphics.cpp:254, 264) never end for 65536 or more vertices. The model's loops end for any number of vertices.
- Graphics.PicoGraphics.constructor: the buffer index `x + y * bounds.w` of `ptr` (pico_graphics.cpp:41-47) is exact. In the source it overflows `int32_t` once `w * h` reaches 2^31.
- Raster.CrossX: the single-precision float interpolation of `polygon` (pico_graphics.cpp:272) is modelled as the exact rational value truncated toward zero; float rounding is not modelled.
- The initial value of `pen` is not set by the source; the model starts it at 0.
- The `font6` table and the GFX font tables are not part of this model. The constructor takes the default font as a parameter, and the fonts are read-only values with well-formedness predicates.
- `Rect::contains(Rect)`, `inflate`, `deflate` and `Point::clamp` are declared in the header but never used by the rasteriser, so they are not modelled.
- Graphics.PicoGraphics.Character: character codes outside 32..127 or past the width table are a precondition (`ValidChar`), where the source wraps `c - 32` into a `uint8_t` and reads past the table.
- Graphics.PicoGraphics.CustomFontChar: the glyph record dereferenced before the range check (pico_graphics.cpp:414-415) is never used, so the model skips that read. The signed `char letter` parameter of `customFontDrawChar` is taken as its byte.
- Graphics.PicoGraphics.Polygon: at most 64 crossings per scanline is a precondition, because `nodes[64]` overflows beyond that. A non-empty vertex list is also a precondition, because `points[0]` is read unguarded.
- Graphics.PicoGraphics.TriangleRow: `(w0 | w1 | w2) >= 0` is modelled as all three values being non-negative, as Raster.OrSignTest proves for 32-bit words.
- TextLayout.Code: strings are sequences of characters. A character's code is its value reduced modulo 256. For characters up to U+00FF this is the byte the source reads. A character above U+00FF is several UTF-8 bytes in a `std::string`, and the model does not capture that.
- The raw pointer arithmetic of `ptr` is replaced by the row-major index `x + y * bounds.w` into the buffer array.
- `gfxFont` is a process-wide global in the source (pico_graphics.cpp:18); here it is a field of the canvas.

## Findings

| source | as written | input that shows it | evidently intended | confidence | as-written member | corrected member |
|---|---|---|---|---|---|---|
| libraries/pico_graphics/pico_graphics.cpp:58-72 | `pixel_span` clamps the count and then runs `while(l--)`. The clamped count can be negative: for a negative `l` that passes the guard, or when the clip has negative width after `set_clip` with a rectangle off the canvas. The loop then writes far past the span. | Canvas 100 x 100, `set_clip(Rect(200, 0, 10, 10))` stores clip `(200, 0, -100, 10)`; `pixel_span((50, 5), 200)` gets count -100. Also `pixel_span((50, 5), -10)` with the full clip gets count -10. | A negative count draws nothing. | not executed | Raster.SpanClampAsWrittenNegative | Graphics.PicoGraphics.PixelSpan |
| libraries/pico_graphics/pico_graphics.cpp:414-419 | The glyph record of code `c` is read at `glyph[c - 32]`, whatever the font's `first` code. | A font covering only '0'..'9' (first 48, ten records): drawing '0' reads record 16, past the table. | The record is `glyph[c - first]`, as the GFX font format lays out the table. | not executed | Fonts.GlyphIndexAsWrittenOverruns | Fonts.GlyphIndex |
| libraries/pico_graphics/pico_graphics.cpp:94-95 | `circle` tests a bounding square `2 * radius` wide and high, but the circle spans `2 * radius + 1` columns and rows. Under the half-open `Rect::intersects` assumed above, a circle whose only visible column is its last one is skipped. `Rect::intersects` has no body here, and with an inclusive test the example is not skipped. | Circle at (0, 0), radius 5, clip `(5, -10, 10, 20)`: under the half-open test the square misses the clip, yet pixel (5, 0) of the centre row lies in it. | A square `2 * radius + 1` wide, which Raster.CircleBoxCulls shows is safe to cull on. | not executed; depends on the assumed `Rect::intersects` | Raster.CircleBoxAsWrittenMissesEdge | Graphics.PicoGraphics.Circle |
| libraries/pico_graphics/pico_graphics.cpp:305-313 | The vertical case of `line` never tests column `p1.x` against the clip, and it counts down a length that can be negative. | Clip `(0, 0, 100, 100)`: `line((150, 0), (150, 10))` writes column 150, which lands in column 50 of the next rows. `line((5, -20), (5, -10))` gets length -10 and runs away. | A negative length draws nothing. Keeping the column inside the clip may be meant as the caller's obligation; the corrected member enforces it, since `pixel` clips every other line. | not executed | Raster.VerticalRunAsWrittenEscapes | Graphics.PicoGraphics.VerticalLine |
