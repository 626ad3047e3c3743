// Rectangle arithmetic of the drawing surfaces (am_adp/am_osd/clip.c).

module Clip {

  import opened Wrappers

  /** A rectangle; width and height may be zero or negative, as in the C struct. */
  datatype Rect = Rect(x: int, y: int, w: int, h: int)

  function Max(a: int, b: int): int {
    if a > b then a else b
  }

  function Min(a: int, b: int): int {
    if a < b then a else b
  }

  /** The pixels a rectangle covers; none when a side is not positive. */
  predicate Covers(r: Rect, x: int, y: int) {
    r.x <= x < r.x + r.w && r.y <= y < r.y + r.h
  }

  /** Every pixel of `inner` lies in `outer`, as an inequality on the sides. */
  predicate Inside(inner: Rect, outer: Rect) {
    && outer.x <= inner.x && inner.x + inner.w <= outer.x + outer.w
    && outer.y <= inner.y && inner.y + inner.h <= outer.y + outer.h
  }

  /** AM_OSD_ClipRect: None stands for AM_FALSE. */
  function ClipRect(c: Rect, r: Rect): (res: Option<Rect>) {
    var minx, miny := Max(c.x, r.x), Max(c.y, r.y);
    var maxx, maxy := Min(c.x + c.w, r.x + r.w), Min(c.y + c.h, r.y + r.h);
    if maxx <= minx || maxy <= miny then None
    else Some(Rect(minx, miny, maxx - minx, maxy - miny))
  }

  /**
   * Clipping is intersection of pixel sets, for rectangles of any size and sign; it fails exactly when
   * no pixel is common, and a successful result is never empty.
   */
  lemma ClipIsIntersection(c: Rect, r: Rect)
    ensures forall x, y ::
              (Covers(c, x, y) && Covers(r, x, y)) <==>
              (ClipRect(c, r).Some? && Covers(ClipRect(c, r).value, x, y))
    ensures ClipRect(c, r).None? <==> forall x, y :: !(Covers(c, x, y) && Covers(r, x, y))
    ensures ClipRect(c, r).Some? ==>
              && ClipRect(c, r).value.w > 0 && ClipRect(c, r).value.h > 0
              && Inside(ClipRect(c, r).value, c) && Inside(ClipRect(c, r).value, r)
  {
    match ClipRect(c, r)
    case None =>
    case Some(o) =>
      assert Covers(o, o.x, o.y);
  }
}
