/** The value types of the rasteriser: integer points and axis-aligned
    rectangles with half-open extent. */
module Geometry {
  import opened IntOps

  datatype Point = Point(x: int, y: int)

  /** `x, y, w, h`; the rectangle holds the pixels with `x <= px < x + w`
      and `y <= py < y + h`. Width and height may be zero or negative, and
      the rectangle is then empty. */
  datatype Rect = Rect(x: int, y: int, w: int, h: int)

  /** A `Point` variable: the target of `operator+=` and `operator-=`,
      which update its two coordinates in place. */
  class PointVar {
    var x: int
    var y: int

    function Value(): Point
      reads this
    {
      Point(x, y)
    }

    constructor (p: Point)
      ensures Value() == p
    {
      x, y := p.x, p.y;
    }

    /** `p += a` translates by `a`. */
    method AddAssign(a: Point)
      modifies this
      ensures Value() == Point(old(x) + a.x, old(y) + a.y)
    {
      x := x + a.x;
      y := y + a.y;
    }

    /** `p -= a` translates by the opposite of `a`. */
    method SubAssign(a: Point)
      modifies this
      ensures Value() == Point(old(x) - a.x, old(y) - a.y)
    {
      x := x - a.x;
      y := y - a.y;
    }
  }

  /** Applying `+= a` and then `-= a` to a point variable gives back the point
      it held. */
  method AddThenSub(p: Point, a: Point) returns (r: Point)
    ensures r == p
  {
    var v := new PointVar(p);
    v.AddAssign(a);
    v.SubAssign(a);
    r := v.Value();
  }

  predicate Empty(r: Rect) { r.w <= 0 || r.h <= 0 }

  predicate Contains(r: Rect, p: Point)
  {
    r.x <= p.x < r.x + r.w && r.y <= p.y < r.y + r.h
  }

  /** The rectangle spanned by a top-left and a bottom-right corner; the
      corner `br` itself lies outside it. */
  function FromCorners(tl: Point, br: Point): (r: Rect)
    ensures forall p :: Contains(r, p) <==> tl.x <= p.x < br.x && tl.y <= p.y < br.y
    ensures !Contains(r, br)
  {
    Rect(tl.x, tl.y, br.x - tl.x, br.y - tl.y)
  }

  /** Every pixel of `inner`, if any, lies in `outer`; the edges of `inner`
      do not stick out of `outer` even when `inner` is empty. */
  predicate Within(inner: Rect, outer: Rect)
  {
    outer.x <= inner.x && inner.x + inner.w <= outer.x + outer.w &&
    outer.y <= inner.y && inner.y + inner.h <= outer.y + outer.h
  }

  /** The overlap of two rectangles; empty (with a width or height that may
      be negative) when they do not overlap. */
  function Intersection(a: Rect, b: Rect): (r: Rect)
    ensures forall p :: Contains(r, p) <==> Contains(a, p) && Contains(b, p)
    ensures Within(r, a) && Within(r, b)
  {
    var x := Max(a.x, b.x);
    var y := Max(a.y, b.y);
    Rect(x, y, Min(a.x + a.w, b.x + b.w) - x, Min(a.y + a.h, b.y + b.h) - y)
  }

  predicate Intersects(a: Rect, b: Rect)
  {
    !Empty(Intersection(a, b))
  }

  /** A rectangle is empty exactly when it contains no point. */
  lemma EmptyIffNoPoint(r: Rect)
    ensures Empty(r) <==> forall p :: !Contains(r, p)
  {
    if !Empty(r) {
      assert Contains(r, Point(r.x, r.y));
    }
  }

  /** Two rectangles intersect exactly when some point lies in both. */
  lemma IntersectsIffCommonPoint(a: Rect, b: Rect)
    ensures Intersects(a, b) <==> exists p :: Contains(a, p) && Contains(b, p)
  {
    EmptyIffNoPoint(Intersection(a, b));
  }

  lemma WithinContains(inner: Rect, outer: Rect, p: Point)
    requires Within(inner, outer) && Contains(inner, p)
    ensures Contains(outer, p)
  {
  }
}
