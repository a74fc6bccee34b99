/** Reference definitions of what each rasteriser draws, as pure functions of
    its inputs: the spans of a circle, the pixels of a general line, the
    edge-function test of a triangle and the spans of a polygon scanline. */
module Raster {
  import opened IntOps
  import opened Geometry
  import opened Sorting
  import opened Wrappers

  /** A horizontal run of `len` pixels starting at (x, y): one `pixel_span`
      call. */
  datatype Span = Span(x: int, y: int, len: int)

  /** Pixel (px, py) is written by the span once it is clipped. */
  predicate SpanCovers(clip: Rect, s: Span, px: int, py: int)
  {
    py == s.y && s.x <= px < s.x + s.len && Contains(clip, Point(px, py))
  }

  ghost predicate SpansCover(clip: Rect, spans: seq<Span>, px: int, py: int)
  {
    exists i :: 0 <= i < |spans| && SpanCovers(clip, spans[i], px, py)
  }

  lemma SpansCoverAppend(clip: Rect, spans: seq<Span>, s: Span)
    ensures forall px, py :: SpansCover(clip, spans + [s], px, py) <==>
      SpansCover(clip, spans, px, py) || SpanCovers(clip, s, px, py)
  {
    var all := spans + [s];
    forall px, py ensures SpansCover(clip, all, px, py) <==>
      SpansCover(clip, spans, px, py) || SpanCovers(clip, s, px, py)
    {
      if SpansCover(clip, all, px, py) {
        var i :| 0 <= i < |all| && SpanCovers(clip, all[i], px, py);
        if i < |spans| { assert all[i] == spans[i]; }
      }
      if SpansCover(clip, spans, px, py) {
        var i :| 0 <= i < |spans| && SpanCovers(clip, spans[i], px, py);
        assert all[i] == spans[i];
      }
      if SpanCovers(clip, s, px, py) {
        assert all[|spans|] == s;
      }
    }
  }

  lemma SpansCoverConcat(clip: Rect, a: seq<Span>, b: seq<Span>)
    ensures forall px, py :: SpansCover(clip, a + b, px, py) <==>
      SpansCover(clip, a, px, py) || SpansCover(clip, b, px, py)
  {
    var all := a + b;
    forall px, py ensures SpansCover(clip, all, px, py) <==>
      SpansCover(clip, a, px, py) || SpansCover(clip, b, px, py)
    {
      if SpansCover(clip, all, px, py) {
        var i :| 0 <= i < |all| && SpanCovers(clip, all[i], px, py);
        if i < |a| { assert all[i] == a[i]; } else { assert all[i] == b[i - |a|]; }
      }
      if SpansCover(clip, a, px, py) {
        var i :| 0 <= i < |a| && SpanCovers(clip, a[i], px, py);
        assert all[i] == a[i];
      }
      if SpansCover(clip, b, px, py) {
        var i :| 0 <= i < |b| && SpanCovers(clip, b[i], px, py);
        assert all[|a| + i] == b[i];
      }
    }
  }

  // ---------------------------------------------------------------- circle

  /** The span of width `len` at row offset `off` from `cy`, and its mirror
      image at `-off` unless the offset is zero. */
  function RowPair(x: int, cy: int, off: int, len: int): seq<Span>
  {
    [Span(x, cy + off, len)] + (if off != 0 then [Span(x, cy - off, len)] else [])
  }

  /** The spans the circle loop emits from state (ox, oy, err) on: per step,
      the rows `p.y +- oy` of width `2 * ox + 1` and, once the error term
      allows, the rows `p.y +- ox` of width `2 * oy + 1`. */
  function CircleSpansFrom(p: Point, ox: int, oy: int, err: int): seq<Span>
    decreases if ox >= oy then ox - oy + 1 else 0
  {
    if ox < oy then []
    else
      var last := oy;
      var oy1 := oy + 1;
      var err1 := err + last + oy1;
      var rows := RowPair(p.x - ox, p.y, last, ox * 2 + 1);
      if err1 >= 0 && ox != last then
        rows + RowPair(p.x - last, p.y, ox, last * 2 + 1) + CircleSpansFrom(p, ox - 1, oy1, err1 - ox - (ox - 1))
      else
        rows + CircleSpansFrom(p, ox, oy1, err1)
  }

  /** One step of the circle loop, unfolded. */
  lemma CircleSpansFromUnfold(p: Point, ox: int, oy: int, err: int)
    requires ox >= oy
    ensures err + oy + (oy + 1) >= 0 && ox != oy ==>
      CircleSpansFrom(p, ox, oy, err) ==
        RowPair(p.x - ox, p.y, oy, ox * 2 + 1) + RowPair(p.x - oy, p.y, ox, oy * 2 + 1)
        + CircleSpansFrom(p, ox - 1, oy + 1, err + oy + (oy + 1) - ox - (ox - 1))
    ensures !(err + oy + (oy + 1) >= 0 && ox != oy) ==>
      CircleSpansFrom(p, ox, oy, err) ==
        RowPair(p.x - ox, p.y, oy, ox * 2 + 1) + CircleSpansFrom(p, ox, oy + 1, err + oy + (oy + 1))
  {
  }

  /** All spans of a filled circle of the given radius. */
  function CircleSpans(p: Point, radius: int): seq<Span>
  {
    CircleSpansFrom(p, radius, 0, -radius)
  }

  /** A span centred on column `p.x`, `k` pixels either side, on a row at most
      `radius` away from `p.y`. */
  predicate Centred(p: Point, radius: int, s: Span)
  {
    0 <= p.x - s.x <= radius && s.len == 2 * (p.x - s.x) + 1 &&
    -radius <= s.y - p.y <= radius
  }

  lemma {:induction false} CircleSpansFromCentred(p: Point, ox: int, oy: int, err: int, radius: int)
    requires 0 <= oy && ox <= radius
    ensures forall i | 0 <= i < |CircleSpansFrom(p, ox, oy, err)| ::
      Centred(p, radius, CircleSpansFrom(p, ox, oy, err)[i])
    decreases if ox >= oy then ox - oy + 1 else 0
  {
    if ox >= oy {
      var err1 := err + oy + (oy + 1);
      if err1 >= 0 && ox != oy {
        CircleSpansFromCentred(p, ox - 1, oy + 1, err1 - ox - (ox - 1), radius);
      } else {
        CircleSpansFromCentred(p, ox, oy + 1, err1, radius);
      }
    }
  }

  /** Every span of a circle is centred on `p.x`: it starts at `p.x - k` and
      is `2k + 1` long, for some `0 <= k <= radius`. */
  lemma CircleSpansCentred(p: Point, radius: int)
    ensures forall i | 0 <= i < |CircleSpans(p, radius)| :: Centred(p, radius, CircleSpans(p, radius)[i])
  {
    CircleSpansFromCentred(p, radius, 0, -radius, radius);
  }

  /** The span reflected about row `cy`. */
  function Mirror(s: Span, cy: int): Span
  {
    Span(s.x, 2 * cy - s.y, s.len)
  }

  ghost predicate MirrorClosed(spans: seq<Span>, cy: int)
  {
    forall i | 0 <= i < |spans| :: Mirror(spans[i], cy) in spans
  }

  lemma MirrorClosedConcat(a: seq<Span>, b: seq<Span>, cy: int)
    requires MirrorClosed(a, cy) && MirrorClosed(b, cy)
    ensures MirrorClosed(a + b, cy)
  {
    forall i | 0 <= i < |a + b| ensures Mirror((a + b)[i], cy) in a + b {
      if i < |a| {
        assert (a + b)[i] == a[i];
      } else {
        assert (a + b)[i] == b[i - |a|];
      }
    }
  }

  lemma MirrorClosedJoin(s: seq<Span>, a: seq<Span>, b: seq<Span>, c: seq<Span>, cy: int)
    requires s == a + b + c
    requires MirrorClosed(a, cy) && MirrorClosed(b, cy) && MirrorClosed(c, cy)
    ensures MirrorClosed(s, cy)
  {
    MirrorClosedConcat(a, b, cy);
    MirrorClosedConcat(a + b, c, cy);
  }

  lemma RowPairMirrored(x: int, cy: int, off: int, len: int)
    ensures MirrorClosed(RowPair(x, cy, off, len), cy)
  {
    var r := RowPair(x, cy, off, len);
    if off == 0 {
      assert Mirror(r[0], cy) == r[0];
    } else {
      assert Mirror(r[0], cy) == r[1] && Mirror(r[1], cy) == r[0];
    }
  }

  lemma {:induction false} CircleSpansFromMirrored(p: Point, ox: int, oy: int, err: int)
    requires 0 <= oy
    ensures MirrorClosed(CircleSpansFrom(p, ox, oy, err), p.y)
    decreases if ox >= oy then ox - oy + 1 else 0
  {
    if ox >= oy {
      var err1 := err + oy + (oy + 1);
      if err1 >= 0 && ox != oy {
        CircleSpansFromMirrored(p, ox - 1, oy + 1, err1 - ox - (ox - 1));
      } else {
        CircleSpansFromMirrored(p, ox, oy + 1, err1);
      }
      MirroredStep(p, ox, oy, err);
    }
  }

  /** One step of the circle loop keeps the spans mirror-closed. */
  lemma MirroredStep(p: Point, ox: int, oy: int, err: int)
    requires 0 <= oy <= ox
    requires err + oy + (oy + 1) >= 0 && ox != oy ==>
      MirrorClosed(CircleSpansFrom(p, ox - 1, oy + 1, err + oy + (oy + 1) - ox - (ox - 1)), p.y)
    requires !(err + oy + (oy + 1) >= 0 && ox != oy) ==>
      MirrorClosed(CircleSpansFrom(p, ox, oy + 1, err + oy + (oy + 1)), p.y)
    ensures MirrorClosed(CircleSpansFrom(p, ox, oy, err), p.y)
  {
    var err1 := err + oy + (oy + 1);
    var rows := RowPair(p.x - ox, p.y, oy, ox * 2 + 1);
    RowPairMirrored(p.x - ox, p.y, oy, ox * 2 + 1);
    CircleSpansFromUnfold(p, ox, oy, err);
    if err1 >= 0 && ox != oy {
      var cols := RowPair(p.x - oy, p.y, ox, oy * 2 + 1);
      RowPairMirrored(p.x - oy, p.y, ox, oy * 2 + 1);
      var rest := CircleSpansFrom(p, ox - 1, oy + 1, err1 - ox - (ox - 1));
      MirrorClosedJoin(CircleSpansFrom(p, ox, oy, err), rows, cols, rest, p.y);
    } else {
      var rest := CircleSpansFrom(p, ox, oy + 1, err1);
      MirrorClosedJoin(CircleSpansFrom(p, ox, oy, err), rows, [], rest, p.y);
    }
  }

  /** The circle is symmetric about its centre row: the reflection of every
      span is also a span. */
  lemma CircleSpansMirrored(p: Point, radius: int)
    ensures MirrorClosed(CircleSpans(p, radius), p.y)
  {
    CircleSpansFromMirrored(p, radius, 0, -radius);
  }

  /** The number of spans on row `y`. */
  function CountRow(spans: seq<Span>, y: int): nat
  {
    if spans == [] then 0 else (if spans[0].y == y then 1 else 0) + CountRow(spans[1..], y)
  }

  lemma {:induction false} CountRowConcat(a: seq<Span>, b: seq<Span>, y: int)
    ensures CountRow(a + b, y) == CountRow(a, y) + CountRow(b, y)
  {
    if a == [] {
      assert a + b == b;
    } else {
      assert (a + b)[0] == a[0];
      assert (a + b)[1..] == a[1..] + b;
      CountRowConcat(a[1..], b, y);
    }
  }

  lemma CountRowJoin(s: seq<Span>, a: seq<Span>, b: seq<Span>, c: seq<Span>, y: int)
    requires s == a + b + c
    ensures CountRow(s, y) == CountRow(a, y) + CountRow(b, y) + CountRow(c, y)
  {
    CountRowConcat(a, b, y);
    CountRowConcat(a + b, c, y);
  }

  lemma RowPairCount(x: int, cy: int, off: int, len: int)
    ensures CountRow(RowPair(x, cy, off, len), cy) == if off == 0 then 1 else 0
  {
    var r := RowPair(x, cy, off, len);
    if off == 0 {
      assert r[1..] == [];
    } else {
      assert r[1..] == [r[1]] && [r[1]][1..] == [];
      assert CountRow([r[1]], cy) == 0;
    }
  }

  lemma {:induction false} CircleSpansFromOffCentre(p: Point, ox: int, oy: int, err: int)
    requires 1 <= oy
    ensures CountRow(CircleSpansFrom(p, ox, oy, err), p.y) == 0
    decreases if ox >= oy then ox - oy + 1 else 0
  {
    if ox >= oy {
      var err1 := err + oy + (oy + 1);
      var rows := RowPair(p.x - ox, p.y, oy, ox * 2 + 1);
      RowPairCount(p.x - ox, p.y, oy, ox * 2 + 1);
      if err1 >= 0 && ox != oy {
        var cols := RowPair(p.x - oy, p.y, ox, oy * 2 + 1);
        RowPairCount(p.x - oy, p.y, ox, oy * 2 + 1);
        var rest := CircleSpansFrom(p, ox - 1, oy + 1, err1 - ox - (ox - 1));
        CircleSpansFromOffCentre(p, ox - 1, oy + 1, err1 - ox - (ox - 1));
        CircleSpansFromUnfold(p, ox, oy, err);
        CountRowJoin(CircleSpansFrom(p, ox, oy, err), rows, cols, rest, p.y);
      } else {
        var rest := CircleSpansFrom(p, ox, oy + 1, err1);
        CircleSpansFromOffCentre(p, ox, oy + 1, err1);
        CircleSpansFromUnfold(p, ox, oy, err);
        CountRowJoin(CircleSpansFrom(p, ox, oy, err), rows, [], rest, p.y);
      }
    }
  }

  /** The first span is the full diameter on the centre row, and no other
      span lies on that row. */
  lemma CircleCentreRowOnce(p: Point, radius: int)
    requires radius >= 0
    ensures |CircleSpans(p, radius)| > 0 && CircleSpans(p, radius)[0] == Span(p.x - radius, p.y, 2 * radius + 1)
    ensures CountRow(CircleSpans(p, radius), p.y) == 1
  {
    var err1 := -radius + 0 + 1;
    var rows := RowPair(p.x - radius, p.y, 0, radius * 2 + 1);
    RowPairCount(p.x - radius, p.y, 0, radius * 2 + 1);
    if err1 >= 0 && radius != 0 {
      var cols := RowPair(p.x, p.y, radius, 1);
      RowPairCount(p.x, p.y, radius, 1);
      var rest := CircleSpansFrom(p, radius - 1, 1, err1 - radius - (radius - 1));
      CircleSpansFromOffCentre(p, radius - 1, 1, err1 - radius - (radius - 1));
      CountRowConcat(rows, cols, p.y);
      CountRowConcat(rows + cols, rest, p.y);
      assert CircleSpans(p, radius) == rows + cols + rest;
    } else {
      var rest := CircleSpansFrom(p, radius, 1, err1);
      CircleSpansFromOffCentre(p, radius, 1, err1);
      CountRowConcat(rows, rest, p.y);
      assert CircleSpans(p, radius) == rows + rest;
    }
  }

  /** The square `circle` tests against the clip, as written: `2 * radius`
      wide and high, one short of the circle's `2 * radius + 1` columns and
      rows. */
  function CircleBoxAsWritten(p: Point, radius: int): Rect
  {
    Rect(p.x - radius, p.y - radius, radius * 2, radius * 2)
  }

  /** The circle's bounding square. */
  function CircleBox(p: Point, radius: int): Rect
  {
    Rect(p.x - radius, p.y - radius, radius * 2 + 1, radius * 2 + 1)
  }

  /** Every pixel of every span lies in the bounding square. */
  lemma CircleSpansInBox(p: Point, radius: int, i: int, x: int)
    requires 0 <= i < |CircleSpans(p, radius)|
    requires CircleSpans(p, radius)[i].x <= x < CircleSpans(p, radius)[i].x + CircleSpans(p, radius)[i].len
    ensures Contains(CircleBox(p, radius), Point(x, CircleSpans(p, radius)[i].y))
  {
    CircleSpansCentred(p, radius);
  }

  /** When the bounding square misses the clip no span pixel is visible,
      so returning early loses nothing. */
  lemma CircleBoxCulls(clip: Rect, p: Point, radius: int, x: int, y: int)
    requires !Intersects(CircleBox(p, radius), clip)
    ensures !SpansCover(clip, CircleSpans(p, radius), x, y)
  {
    if SpansCover(clip, CircleSpans(p, radius), x, y) {
      var spans := CircleSpans(p, radius);
      var i :| 0 <= i < |spans| && SpanCovers(clip, spans[i], x, y);
      CircleSpansInBox(p, radius, i, x);
      IntersectsIffCommonPoint(CircleBox(p, radius), clip);
    }
  }

  /** The square as written misses the circle's last column: with the clip
      starting at that column, the centre row's pixel (5, 0) of a radius-5
      circle at the origin is visible, yet the test skips the circle. This
      rests on the half-open `Intersects`; a test that counts rectangles
      touching at an edge would not skip it. */
  lemma CircleBoxAsWrittenMissesEdge()
    ensures !Intersects(CircleBoxAsWritten(Point(0, 0), 5), Rect(5, -10, 10, 20))
    ensures SpansCover(Rect(5, -10, 10, 20), CircleSpans(Point(0, 0), 5), 5, 0)
  {
    CircleCentreRowOnce(Point(0, 0), 5);
    assert SpanCovers(Rect(5, -10, 10, 20), CircleSpans(Point(0, 0), 5)[0], 5, 0);
  }

  // ------------------------------------------------------------ pixel span

  /** `pixel_span`'s clamping as written: `None` when the guard rejects the
      span, otherwise the first column and the count `while(l--)` counts
      down from. */
  function SpanClampAsWritten(clip: Rect, p: Point, l: int): Option<(int, int)>
  {
    if p.x + l < clip.x || p.x >= clip.x + clip.w || p.y < clip.y || p.y >= clip.y + clip.h then None
    else
      var x1 := if p.x < clip.x then clip.x else p.x;
      var l1 := if p.x < clip.x then l + (p.x - clip.x) else l;
      Some((x1, if x1 + l1 >= clip.x + clip.w then clip.x + clip.w - x1 else l1))
  }

  /** The count can come out negative, and `while(l--)` then runs far past
      the span: after `set_clip` with a rectangle right of a 100 x 100
      canvas the clip is 200 wide at x = 200 with width -100, and a
      200-pixel span from (50, 5) gets count -100; a negative length that
      passes the guard does the same. */
  lemma SpanClampAsWrittenNegative()
    ensures SpanClampAsWritten(Rect(200, 0, -100, 10), Point(50, 5), 200) == Some((200, -100))
    ensures SpanClampAsWritten(Rect(0, 0, 100, 100), Point(50, 5), -10) == Some((50, -10))
  {
  }

  /** The clip of that example: `set_clip` of a rectangle right of a
      100 x 100 canvas. */
  lemma DisjointClipExample()
    ensures Intersection(Rect(0, 0, 100, 100), Rect(200, 0, 10, 10)) == Rect(200, 0, -100, 10)
  {
  }

  /** Where the clamped count is not negative, the run it gives is exactly
      the span's pixels inside the clip. */
  lemma SpanClampAsWrittenExact(clip: Rect, p: Point, l: int, x: int)
    requires SpanClampAsWritten(clip, p, l).Some? ==> SpanClampAsWritten(clip, p, l).value.1 >= 0
    ensures SpanCovers(clip, Span(p.x, p.y, l), x, p.y) <==>
      match SpanClampAsWritten(clip, p, l)
      case None => false
      case Some((x1, n)) => x1 <= x < x1 + n
  {
  }

  // ---------------------------------------------------------- vertical line

  /** The vertical case of `line` as written: the first row and the count
      `while(length--)` counts down from; column `p1.x` is never tested
      against the clip. */
  function VerticalRunAsWritten(clip: Rect, p1: Point, p2: Point): (int, int)
  {
    var start := Max(clip.y, Min(p1.y, p2.y));
    (start, Min(clip.y + clip.h, Max(p1.y, p2.y)) - start)
  }

  /** A vertical line right of the clip is still drawn, into the column
      `x - bounds.w` of the following rows; one above the clip gets a
      negative count and runs away. */
  lemma VerticalRunAsWrittenEscapes()
    ensures var clip := Rect(0, 0, 100, 100);
      VerticalRunAsWritten(clip, Point(150, 0), Point(150, 10)) == (0, 10) &&
      !Contains(clip, Point(150, 0)) &&
      VerticalRunAsWritten(clip, Point(5, -20), Point(5, -10)) == (0, -10)
  {
  }

  // ------------------------------------------------------------------ line

  /** The pixel of a step: `steep` lines step in y and carry x in 16.16 fixed
      point, shallow lines the other way round. */
  function StepPoint(major: int, minor: int, steep: bool): Point
  {
    if steep then Point(Asr16(minor), major) else Point(major, Asr16(minor))
  }

  /** The pixels of `steps` steps of the general line loop. */
  function Walk(major: int, minor: int, dMajor: int, dMinor: int, steps: nat, steep: bool): seq<Point>
    decreases steps
  {
    if steps == 0 then []
    else [StepPoint(major, minor, steep)] + Walk(major + dMajor, minor + dMinor, dMajor, dMinor, steps - 1, steep)
  }

  lemma {:induction false} WalkAt(major: int, minor: int, dMajor: int, dMinor: int, steps: nat, steep: bool, k: int)
    requires 0 <= k < steps
    ensures |Walk(major, minor, dMajor, dMinor, steps, steep)| == steps
    ensures Walk(major, minor, dMajor, dMinor, steps, steep)[k] ==
      StepPoint(major + k * dMajor, minor + k * dMinor, steep)
    decreases steps
  {
    if k == 0 {
      WalkLength(major, minor, dMajor, dMinor, steps, steep);
    } else {
      WalkAt(major + dMajor, minor + dMinor, dMajor, dMinor, steps - 1, steep, k - 1);
      assert (k - 1) * dMajor + dMajor == k * dMajor && (k - 1) * dMinor + dMinor == k * dMinor;
    }
  }

  lemma {:induction false} WalkLength(major: int, minor: int, dMajor: int, dMinor: int, steps: nat, steep: bool)
    ensures |Walk(major, minor, dMajor, dMinor, steps, steep)| == steps
    decreases steps
  {
    if steps > 0 {
      WalkLength(major + dMajor, minor + dMinor, dMajor, dMinor, steps - 1, steep);
    }
  }

  /** The lines `line` draws pixel by pixel: neither horizontal nor vertical. */
  predicate GeneralLine(p1: Point, p2: Point)
  {
    p1.x != p2.x && p1.y != p2.y
  }

  /** A line is shallow, and steps in x, only when `|dx| > |dy|`. */
  predicate Shallow(p1: Point, p2: Point)
  {
    Abs(p2.x - p1.x) > Abs(p2.y - p1.y)
  }

  /** The pixels of a general line: one per step along the major axis, the
      minor coordinate stepped by `(delta << 16) / steps`. */
  function LinePoints(p1: Point, p2: Point): seq<Point>
    requires GeneralLine(p1, p2)
  {
    var dx, dy := p2.x - p1.x, p2.y - p1.y;
    if Shallow(p1, p2) then
      Walk(p1.x, p1.y * 65536, Sign(dx), TruncDiv(dy * 65536, Abs(dx)), Abs(dx), false)
    else
      Walk(p1.y, p1.x * 65536, Sign(dy), TruncDiv(dx * 65536, Abs(dy)), Abs(dy), true)
  }

  /** A general line has `max(|dx|, |dy|)` pixels; the k-th lies `k` steps
      from `p1` along the major axis; it starts at `p1` and never reaches
      `p2`. */
  lemma LinePointsShape(p1: Point, p2: Point)
    requires GeneralLine(p1, p2)
    ensures |LinePoints(p1, p2)| == Max(Abs(p2.x - p1.x), Abs(p2.y - p1.y))
    ensures LinePoints(p1, p2)[0] == p1
    ensures Shallow(p1, p2) ==>
      forall k | 0 <= k < |LinePoints(p1, p2)| :: LinePoints(p1, p2)[k].x == p1.x + k * Sign(p2.x - p1.x)
    ensures !Shallow(p1, p2) ==>
      forall k | 0 <= k < |LinePoints(p1, p2)| :: LinePoints(p1, p2)[k].y == p1.y + k * Sign(p2.y - p1.y)
    ensures p2 !in LinePoints(p1, p2)
  {
    var dx, dy := p2.x - p1.x, p2.y - p1.y;
    var pts := LinePoints(p1, p2);
    if Shallow(p1, p2) {
      var sy := TruncDiv(dy * 65536, Abs(dx));
      WalkAt(p1.x, p1.y * 65536, Sign(dx), sy, Abs(dx), false, 0);
      forall k | 0 <= k < |pts| ensures pts[k].x == p1.x + k * Sign(dx) && pts[k] != p2 {
        WalkAt(p1.x, p1.y * 65536, Sign(dx), sy, Abs(dx), false, k);
        if dx < 0 { assert k * Sign(dx) == -k; }
      }
    } else {
      var sx := TruncDiv(dx * 65536, Abs(dy));
      WalkAt(p1.y, p1.x * 65536, Sign(dy), sx, Abs(dy), true, 0);
      forall k | 0 <= k < |pts| ensures pts[k].y == p1.y + k * Sign(dy) && pts[k] != p2 {
        WalkAt(p1.y, p1.x * 65536, Sign(dy), sx, Abs(dy), true, k);
        if dy < 0 { assert k * Sign(dy) == -k; }
      }
    }
  }

  // -------------------------------------------------------------- triangle

  /** Twice the signed area of (a, b, c): positive when c lies to the left of
      a -> b in the buffer's y-down coordinates. */
  function Orient2d(a: Point, b: Point, c: Point): int
  {
    (b.x - a.x) * (c.y - a.y) - (b.y - a.y) * (c.x - a.x)
  }

  predicate IsTopLeft(a: Point, b: Point)
  {
    (a.y == b.y && a.x > b.x) || a.y < b.y
  }

  /** The fill-rule bias: pixels exactly on an edge that is not a top or left
      edge are left out. */
  function Bias(a: Point, b: Point): int
  {
    if IsTopLeft(a, b) then 0 else -1
  }

  function EdgeValue(a: Point, b: Point, q: Point): int
  {
    Orient2d(a, b, q) + Bias(a, b)
  }

  /** Moving one pixel right changes an edge function by `a.y - b.y`, one
      pixel down by `b.x - a.x`: the increments the triangle loop adds. */
  lemma OrientSteps(a: Point, b: Point, x: int, y: int)
    ensures Orient2d(a, b, Point(x + 1, y)) == Orient2d(a, b, Point(x, y)) + (a.y - b.y)
    ensures Orient2d(a, b, Point(x, y + 1)) == Orient2d(a, b, Point(x, y)) + (b.x - a.x)
  {
    assert (b.y - a.y) * (x + 1 - a.x) == (b.y - a.y) * (x - a.x) + (b.y - a.y);
    assert (b.x - a.x) * (y + 1 - a.y) == (b.x - a.x) * (y - a.y) + (b.x - a.x);
  }

  /** The three biased edge values of a triangle, one pixel right of `p`
      and one pixel below it. */
  lemma EdgesStep(q1: Point, q2: Point, q3: Point, p: Point)
    ensures EdgeValue(q2, q3, Point(p.x + 1, p.y)) == EdgeValue(q2, q3, p) + (q2.y - q3.y)
    ensures EdgeValue(q3, q1, Point(p.x + 1, p.y)) == EdgeValue(q3, q1, p) + (q3.y - q1.y)
    ensures EdgeValue(q1, q2, Point(p.x + 1, p.y)) == EdgeValue(q1, q2, p) + (q1.y - q2.y)
    ensures EdgeValue(q2, q3, Point(p.x, p.y + 1)) == EdgeValue(q2, q3, p) + (q3.x - q2.x)
    ensures EdgeValue(q3, q1, Point(p.x, p.y + 1)) == EdgeValue(q3, q1, p) + (q1.x - q3.x)
    ensures EdgeValue(q1, q2, Point(p.x, p.y + 1)) == EdgeValue(q1, q2, p) + (q2.x - q1.x)
  {
    OrientSteps(q2, q3, p.x, p.y);
    OrientSteps(q3, q1, p.x, p.y);
    OrientSteps(q1, q2, p.x, p.y);
  }

  /** The vertices in counter-clockwise order: `p1` and `p3` trade places
      when the winding is negative. */
  function Wound(p1: Point, p2: Point, p3: Point): (Point, Point, Point)
  {
    if Orient2d(p1, p2, p3) < 0 then (p3, p2, p1) else (p1, p2, p3)
  }

  lemma OrientReversed(p1: Point, p2: Point, p3: Point)
    ensures Orient2d(p3, p2, p1) == -Orient2d(p1, p2, p3)
  {
  }

  /** After the swap the winding is never negative. */
  lemma WoundNonNegative(p1: Point, p2: Point, p3: Point)
    ensures var (q1, q2, q3) := Wound(p1, p2, p3); Orient2d(q1, q2, q3) >= 0
  {
    OrientReversed(p1, p2, p3);
  }

  /** The pixels a triangle may touch: its bounding box, whose maximum column
      and row are outside it, cut down to the clip. */
  function TriangleBox(clip: Rect, p1: Point, p2: Point, p3: Point): Rect
  {
    Intersection(clip, FromCorners(
      Point(Min(p1.x, Min(p2.x, p3.x)), Min(p1.y, Min(p2.y, p3.y))),
      Point(Max(p1.x, Max(p2.x, p3.x)), Max(p1.y, Max(p2.y, p3.y)))))
  }

  /** All three biased edge functions are non-negative at q. */
  predicate InsideEdges(q1: Point, q2: Point, q3: Point, q: Point)
  {
    EdgeValue(q2, q3, q) >= 0 && EdgeValue(q3, q1, q) >= 0 && EdgeValue(q1, q2, q) >= 0
  }

  /** Pixel (x, y) is drawn by `triangle(p1, p2, p3)`. */
  predicate TriangleCovers(clip: Rect, p1: Point, p2: Point, p3: Point, x: int, y: int)
  {
    var (q1, q2, q3) := Wound(p1, p2, p3);
    Contains(TriangleBox(clip, p1, p2, p3), Point(x, y)) && InsideEdges(q1, q2, q3, Point(x, y))
  }

  /** The largest x and y of the vertices are never drawn. */
  lemma TriangleExcludesMaxEdges(clip: Rect, p1: Point, p2: Point, p3: Point, x: int, y: int)
    requires TriangleCovers(clip, p1, p2, p3, x, y)
    ensures x < Max(p1.x, Max(p2.x, p3.x)) && y < Max(p1.y, Max(p2.y, p3.y))
  {
  }

  /** Along an edge shared in opposite directions, exactly one of the two
      biased tests passes at every pixel: the edge is drawn once, with no
      gap. */
  lemma SharedEdgeExactlyOnce(a: Point, b: Point, q: Point)
    requires a != b
    ensures (EdgeValue(a, b, q) >= 0) != (EdgeValue(b, a, q) >= 0)
  {
    assert Orient2d(b, a, q) == -Orient2d(a, b, q);
  }

  /** Two counter-clockwise triangles (a, b, c) and (b, a, d) on either side of
      their common edge never draw the same pixel. */
  lemma SharedEdgeNoOverdraw(clip: Rect, a: Point, b: Point, c: Point, d: Point, x: int, y: int)
    requires Orient2d(a, b, c) >= 0 && Orient2d(b, a, d) >= 0
    ensures !(TriangleCovers(clip, a, b, c, x, y) && TriangleCovers(clip, b, a, d, x, y))
  {
    var q := Point(x, y);
    assert Wound(a, b, c) == (a, b, c) && Wound(b, a, d) == (b, a, d);
    if a != b {
      SharedEdgeExactlyOnce(a, b, q);
    }
  }

  /** `(w0 | w1 | w2) >= 0` on two's-complement words holds exactly when no
      sign bit is set, i.e. when all three are non-negative. */
  lemma OrSignTest(w0: bv32, w1: bv32, w2: bv32)
    ensures (w0 | w1 | w2) < 0x8000_0000 <==>
      w0 < 0x8000_0000 && w1 < 0x8000_0000 && w2 < 0x8000_0000
  {
  }

  // --------------------------------------------------------------- polygon

  /** The half-open crossing test: the edge from height `sy` to `ey` crosses
      scanline `fy`. */
  predicate Crosses(sy: int, ey: int, fy: int)
  {
    (sy < fy && ey >= fy) || (ey < fy && sy >= fy)
  }

  /** The end of edge `i`, vertex `(i + 1) % |points|`; the last edge closes
      the polygon. */
  function EdgeEnd(points: seq<Point>, i: int): Point
    requires 0 <= i < |points|
  {
    if i + 1 < |points| then points[i + 1] else points[0]
  }

  /** The x where edge s -> e meets scanline fy, truncated toward zero. The
      source computes it in single-precision floating point; this is the
      exact rational value. */
  function CrossX(s: Point, e: Point, fy: int): int
    requires s.y != e.y
  {
    TruncDiv(s.x * (e.y - s.y) + (fy - s.y) * (e.x - s.x), e.y - s.y)
  }

  function ClampNode(px: int, clip: Rect): int
  {
    if px < clip.x then clip.x else if px >= clip.x + clip.w then clip.x + clip.w - 1 else px
  }

  /** The number of the first `k` edges that cross scanline `fy`. */
  function CrossCount(points: seq<Point>, fy: int, k: int): nat
    requires 0 <= k <= |points|
  {
    if k == 0 then 0
    else CrossCount(points, fy, k - 1) + (if Crosses(points[k - 1].y, EdgeEnd(points, k - 1).y, fy) then 1 else 0)
  }

  /** The clamped crossings of the first `k` edges, in edge order. */
  function NodesUpTo(points: seq<Point>, clip: Rect, fy: int, k: int): (r: seq<int>)
    requires 0 <= k <= |points|
    ensures |r| == CrossCount(points, fy, k)
  {
    if k == 0 then []
    else
      var s, e := points[k - 1], EdgeEnd(points, k - 1);
      NodesUpTo(points, clip, fy, k - 1) +
        (if Crosses(s.y, e.y, fy) then [ClampNode(CrossX(s, e, fy), clip)] else [])
  }

  /** Fewer edges never cross more often: the node count only grows as the
      filler walks the edges. */
  lemma {:induction false} CrossCountMono(points: seq<Point>, fy: int, k: int, m: int)
    requires 0 <= k <= m <= |points|
    ensures CrossCount(points, fy, k) <= CrossCount(points, fy, m)
    decreases m - k
  {
    if k < m {
      CrossCountMono(points, fy, k, m - 1);
    }
  }

  /** With a non-empty clip every node lies in `[clip.x, clip.x + clip.w - 1]`. */
  lemma {:induction false} NodesClamped(points: seq<Point>, clip: Rect, fy: int, k: int)
    requires 0 <= k <= |points| && clip.w >= 1
    ensures forall i | 0 <= i < |NodesUpTo(points, clip, fy, k)| ::
      clip.x <= NodesUpTo(points, clip, fy, k)[i] <= clip.x + clip.w - 1
  {
    if k > 0 {
      NodesClamped(points, clip, fy, k - 1);
    }
  }

  /** Along the open path through the first `k + 1` vertices the number of
      crossings is odd exactly when the path ends on the other side of the
      scanline from where it started. */
  lemma {:induction false} PathCrossParity(points: seq<Point>, fy: int, k: int)
    requires 0 <= k < |points|
    ensures CrossCount(points, fy, k) % 2 == (if (points[0].y < fy) == (points[k].y < fy) then 0 else 1)
  {
    if k > 0 {
      PathCrossParity(points, fy, k - 1);
      var c := CrossCount(points, fy, k - 1);
      assert EdgeEnd(points, k - 1) == points[k];
      if Crosses(points[k - 1].y, points[k].y, fy) {
        assert CrossCount(points, fy, k) == c + 1;
        assert (c + 1) % 2 == 1 - c % 2;
      } else {
        assert CrossCount(points, fy, k) == c;
      }
    }
  }

  /** A closed vertex list crosses every scanline an even number of times, so
      the crossings pair up into spans. */
  lemma CrossingsEven(points: seq<Point>, fy: int)
    requires |points| > 0
    ensures CrossCount(points, fy, |points|) % 2 == 0
  {
    var n := |points|;
    PathCrossParity(points, fy, n - 1);
    assert EdgeEnd(points, n - 1) == points[0];
  }

  /** Consecutive pairs of sorted nodes as spans, both ends included. */
  function PairSpans(s: seq<int>, y: int): seq<Span>
  {
    if |s| < 2 then [] else [Span(s[0], y, s[1] - s[0] + 1)] + PairSpans(s[2..], y)
  }

  /** The pairs from index `i` on start with the span of nodes `i` and
      `i + 1`. */
  lemma PairSpansStep(s: seq<int>, y: int, i: int)
    requires 0 <= i && i + 1 < |s|
    ensures PairSpans(s[i..], y) == [Span(s[i], y, s[i + 1] - s[i] + 1)] + PairSpans(s[i + 2..], y)
  {
    assert s[i..][2..] == s[i + 2..];
  }

  lemma {:induction false} PairSpansAt(s: seq<int>, y: int, j: int)
    requires 0 <= j && 2 * j + 1 < |s|
    ensures |PairSpans(s, y)| == |s| / 2
    ensures PairSpans(s, y)[j] == Span(s[2 * j], y, s[2 * j + 1] - s[2 * j] + 1)
  {
    if j == 0 {
      PairSpansLength(s, y);
    } else {
      PairSpansAt(s[2..], y, j - 1);
    }
  }

  lemma {:induction false} PairSpansLength(s: seq<int>, y: int)
    ensures |PairSpans(s, y)| == |s| / 2
  {
    if |s| >= 2 {
      PairSpansLength(s[2..], y);
    }
  }

  lemma {:induction false} PairSpansRow(s: seq<int>, y: int)
    ensures forall k | 0 <= k < |PairSpans(s, y)| :: PairSpans(s, y)[k].y == y
  {
    if |s| >= 2 {
      PairSpansRow(s[2..], y);
    }
  }

  /** The spans `polygon` fills on scanline `fy`. */
  function ScanlineSpans(points: seq<Point>, clip: Rect, fy: int): seq<Span>
    requires |points| > 0
  {
    PairSpans(Sort(NodesUpTo(points, clip, fy, |points|)), fy)
  }

  /** Each filled span of a scanline is at least one pixel long. */
  lemma ScanlineSpansNonEmpty(points: seq<Point>, clip: Rect, fy: int, j: int)
    requires |points| > 0 && 0 <= j < |ScanlineSpans(points, clip, fy)|
    ensures ScanlineSpans(points, clip, fy)[j].len >= 1
  {
    var s := Sort(NodesUpTo(points, clip, fy, |points|));
    PairSpansLength(s, fy);
    PairSpansAt(s, fy, j);
  }

  /** A scanline's spans only draw on that scanline. */
  lemma ScanlineSpansStayOnRow(points: seq<Point>, clip: Rect, fy: int, x: int, y: int)
    requires |points| > 0 && SpansCover(clip, ScanlineSpans(points, clip, fy), x, y)
    ensures y == fy
  {
    PairSpansRow(Sort(NodesUpTo(points, clip, fy, |points|)), fy);
  }

  function MinY(points: seq<Point>): int
    requires |points| > 0
  {
    if |points| == 1 then points[0].y else Min(MinY(points[..|points| - 1]), points[|points| - 1].y)
  }

  function MaxY(points: seq<Point>): int
    requires |points| > 0
  {
    if |points| == 1 then points[0].y else Max(MaxY(points[..|points| - 1]), points[|points| - 1].y)
  }

  /** The source's index `(i + 1) % |points|` is the end of edge `i`. */
  lemma EdgeEndIndex(points: seq<Point>, i: int)
    requires 0 <= i < |points|
    ensures 0 <= (i + 1) % |points| < |points| && points[(i + 1) % |points|] == EdgeEnd(points, i)
  {
    if i + 1 < |points| {
      BlockDiv(i + 1, 0, |points|);
    } else {
      BlockDiv(i + 1, 1, |points|);
    }
  }

  /** `MinY` and `MaxY` are the extreme heights of the vertices. */
  lemma MinMaxYBound(points: seq<Point>)
    requires |points| > 0
    ensures forall i | 0 <= i < |points| :: MinY(points) <= points[i].y <= MaxY(points)
    ensures exists i | 0 <= i < |points| :: points[i].y == MinY(points)
    ensures exists i | 0 <= i < |points| :: points[i].y == MaxY(points)
  {
    YBounds(points);
    var lo := MinYAt(points);
    var hi := MaxYAt(points);
    assert points[lo].y == MinY(points) && points[hi].y == MaxY(points);
  }

  lemma {:induction false} YBounds(points: seq<Point>)
    requires |points| > 0
    ensures forall i | 0 <= i < |points| :: MinY(points) <= points[i].y <= MaxY(points)
  {
    var n := |points|;
    if n > 1 {
      var init := points[..n - 1];
      YBounds(init);
      forall i | 0 <= i < n ensures MinY(points) <= points[i].y <= MaxY(points) {
        if i < n - 1 {
          assert points[i] == init[i];
        }
      }
    }
  }

  /** An index of a vertex at the top height. */
  lemma {:induction false} MinYAt(points: seq<Point>) returns (i: int)
    requires |points| > 0
    ensures 0 <= i < |points| && points[i].y == MinY(points)
  {
    var n := |points|;
    if n == 1 {
      i := 0;
    } else {
      var init := points[..n - 1];
      var j := MinYAt(init);
      assert points[j] == init[j];
      i := if points[n - 1].y <= MinY(init) then n - 1 else j;
    }
  }

  /** An index of a vertex at the bottom height. */
  lemma {:induction false} MaxYAt(points: seq<Point>) returns (i: int)
    requires |points| > 0
    ensures 0 <= i < |points| && points[i].y == MaxY(points)
  {
    var n := |points|;
    if n == 1 {
      i := 0;
    } else {
      var init := points[..n - 1];
      var j := MaxYAt(init);
      assert points[j] == init[j];
      i := if points[n - 1].y >= MaxY(init) then n - 1 else j;
    }
  }

  /** Pixel (x, y) is drawn by `polygon(points)`: its scanline lies between
      the clip's top (or the topmost vertex) and the clip's bottom edge row
      (or the lowest vertex), and one of that scanline's spans covers it. */
  ghost predicate PolygonCovers(clip: Rect, points: seq<Point>, x: int, y: int)
    requires |points| > 0
  {
    Max(clip.y, MinY(points)) <= y <= Min(clip.y + clip.h, MaxY(points)) &&
    SpansCover(clip, ScanlineSpans(points, clip, y), x, y)
  }
}
