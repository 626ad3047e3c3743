// Rectangle planning of the scaling blit (am_adp/am_osd/sw_op.c, sw_stretch_blit): two clips joined by
// chained truncating divisions, and the source column and row that each destination pixel samples.

module StretchPlan {
  import opened Arith
  import opened Clip
  import opened Wrappers

  const MAX_W := 1920

  /** C integer division: it truncates toward zero. */
  function CDiv(a: int, b: int): int
    requires b != 0
  {
    if a >= 0 then a / b else -(-a / b)
  }

  datatype Plan = Plan(src: Rect, dst: Rect)

  /** First clip of sw_stretch_blit: the source rectangle against the source surface. */
  function SourceClip(sw: int, sh: int, sr: Rect): Option<Rect> {
    ClipRect(Rect(0, 0, sw, sh), sr)
  }

  /** The clipped source rectangle carried to destination coordinates. */
  function Mapped(s: Rect, sr: Rect, dr: Rect): Rect
    requires sr.w != 0 && sr.h != 0
  {
    Rect(CDiv((s.x - sr.x) * dr.w, sr.w) + dr.x,
         CDiv((s.y - sr.y) * dr.h, sr.h) + dr.y,
         CDiv(s.w * dr.w, sr.w),
         CDiv(s.h * dr.h, sr.h))
  }

  /** The drawn rectangle carried back to source coordinates. */
  function MappedBack(d: Rect, sr: Rect, dr: Rect): Rect
    requires dr.w != 0 && dr.h != 0
  {
    Rect(CDiv((d.x - dr.x) * sr.w, dr.w) + sr.x,
         CDiv((d.y - dr.y) * sr.h, dr.h) + sr.y,
         CDiv(d.w * sr.w, dr.w),
         CDiv(d.h * sr.h, dr.h))
  }

  /**
   * The rectangles sw_stretch_blit draws with, None when it returns without drawing. The divisions by
   * the sides of `sr` and `dr` are reached only behind clips that make those sides positive.
   */
  function MakePlan(sw: int, sh: int, sr: Rect, clip: Rect, dr: Rect): (p: Option<Plan>)
    ensures p.Some? ==> sr.w > 0 && sr.h > 0 && dr.w > 0 && dr.h > 0
    ensures p.Some? ==> 0 < p.value.dst.w <= MAX_W && 0 < p.value.dst.h && Inside(p.value.dst, clip)
  {
    var s := SourceClip(sw, sh, sr);
    if s.None? then None else
    var t := Mapped(s.value, sr, dr);
    var d := ClipRect(clip, t);
    if d.None? then None else
    PositiveScale(s.value.w, dr.w, sr.w);
    PositiveScale(s.value.h, dr.h, sr.h);
    if d.value.w > MAX_W then None else Some(Plan(MappedBack(d.value, sr, dr), d.value))
  }

  /** The source column convx[i] / bytes_per_pixel. */
  function SourceColumn(p: Plan, sr: Rect, dr: Rect, i: nat): int
    requires dr.w != 0
  {
    CDiv(i * sr.w, dr.w) + p.src.x
  }

  /** The source row of output line y. */
  function SourceRow(p: Plan, sr: Rect, dr: Rect, y: nat): int
    requires dr.h != 0
  {
    CDiv(y * sr.h, dr.h) + p.src.y
  }

  /**
   * What a caller has to check on one axis before scaling from a rectangle that starts at `start`:
   * it starts on the surface, or the destination clip cuts into the scaled image, or the part before
   * the surface scales to a whole number of pixels.
   */
  predicate EdgeSafe(start: int, from: int, to: int, clipStart: int, dstStart: int)
    requires from > 0
  {
    start >= 0 || clipStart > CDiv(-start * to, from) + dstStart || (-start * to) % from == 0
  }

  // ---- one axis -------------------------------------------------------------------------------

  lemma PositiveScale(len: int, to: int, from: int)
    requires len > 0 && from > 0
    requires CDiv(len * to, from) > 0
    ensures to > 0
  {
    MulOrder(len, 0, to);
  }

  /** Scaling a prefix p of the axis there and back never gains, and loses exactly when inexact. */
  lemma ThereAndBack(p: nat, from: int, to: int)
    requires from > 0 && to > 0
    ensures ((p * to) / from * from) / to >= p <==> (p * to) % from == 0
  {
    DivBounds(p * to, from);
    DivAtLeast((p * to) / from * from, to, p);
  }

  /**
   * One axis of the plan. `p` is the cut-off part before the surface, `len` the part on it, `k` the
   * part the destination clip removes, `i` the pixel drawn. The sampled position lies before the end of
   * the source part.
   */
  lemma AxisUpper(p: nat, len: int, from: int, to: int, k: nat, i: nat)
    requires from > 0 && to > 0 && len > 0
    requires k + i < (len * to) / from
    ensures ((p * to / from + k) * from) / to + (i * from) / to < p + len
  {
    var q, t := (p * to) / from, (len * to) / from;
    var a, b := ((q + k) * from) / to, (i * from) / to;
    DivBounds(p * to, from);
    DivBounds(len * to, from);
    DivBounds((q + k) * from, to);
    DivBounds(i * from, to);
    MulAdd(from, q, k);
    MulAdd(from, k, i);
    MulAdd(from, t, -1);
    MulOrder(from, k + i, t - 1);
    AxisUpperSum(to, from, a, b, p, len, q * from, (k + i) * from, t * from);
  }

  /** The last step of AxisUpper, on the products alone. */
  lemma AxisUpperSum(to: int, from: int, a: int, b: int, p: int, len: int, qf: int, kif: int, tf: int)
    requires to > 0 && from > 0
    requires to * a + to * b <= qf + kif
    requires qf <= p * to && kif <= tf - from && tf <= len * to
    ensures a + b < p + len
  {
    MulAdd(to, a, b);
    MulAdd(to, p, len);
    MulOrder(to, a + b, p + len);
  }

  /** The first sampled position is on the surface exactly under the edge condition. */
  lemma AxisLower(p: nat, from: int, to: int, k: nat)
    requires from > 0 && to > 0
    ensures ((p * to / from + k) * from) / to >= p <==> k > 0 || (p * to) % from == 0
  {
    var q := (p * to) / from;
    if k == 0 {
      ThereAndBack(p, from, to);
    } else {
      DivBounds(p * to, from);
      MulAdd(from, q, k);
      MulOrder(from, 1, k);
      DivAtLeast((q + k) * from, to, p);
    }
  }

  /** Products of the plan are not negative, so its truncating divisions are floors. */
  lemma FloorDiv(a: int, b: int, c: int)
    requires a >= 0 && b > 0 && c > 0
    ensures a * b >= 0 && CDiv(a * b, c) == a * b / c >= 0
  {
    MulOrder(b, 0, a);
    DivAtLeast(a * b, c, 0);
  }

  /**
   * Both bounds for one axis, on the source's own expressions: `s` and `len` are the clipped source
   * part, `t` its image, `d` the first drawn position and `i` the pixel drawn.
   */
  lemma AxisExact(s: int, len: int, start: int, from: int, to: int, clipStart: int, dstStart: int, t: int, d: int,
                  i: nat)
    requires from > 0 && to > 0 && len > 0
    requires s == Max(0, start)
    requires t == CDiv((s - start) * to, from) + dstStart
    requires d == Max(clipStart, t)
    requires d - t + i < CDiv(len * to, from)
    ensures CDiv(i * from, to) >= 0
    ensures CDiv(i * from, to) + CDiv((d - dstStart) * from, to) + start < s + len
    ensures EdgeSafe(start, from, to, clipStart, dstStart) <==> CDiv((d - dstStart) * from, to) + start >= s
  {
    var p: nat, k: nat := s - start, d - t;
    FloorDiv(p, to, from);
    FloorDiv(len, to, from);
    FloorDiv(i, from, to);
    FloorDiv(d - dstStart, from, to);
    assert d - dstStart == p * to / from + k;
    AxisUpper(p, len, from, to, k, i);
    AxisLower(p, from, to, k);
  }

  // ---- both axes ------------------------------------------------------------------------------

  predicate ColumnsOnSurface(p: Plan, sw: int, sr: Rect, dr: Rect)
    requires dr.w != 0
  {
    forall i: nat :: i < p.dst.w ==> 0 <= SourceColumn(p, sr, dr, i) < sw
  }

  predicate RowsOnSurface(p: Plan, sh: int, sr: Rect, dr: Rect)
    requires dr.h != 0
  {
    forall y: nat :: y < p.dst.h ==> 0 <= SourceRow(p, sr, dr, y) < sh
  }

  /**
   * Every sampled column and row lies before the end of the clipped source rectangle, for all inputs;
   * and it lies on the surface for every drawn pixel exactly when both axes pass EdgeSafe.
   */
  lemma SamplesOnSurface(sw: int, sh: int, sr: Rect, clip: Rect, dr: Rect)
    requires MakePlan(sw, sh, sr, clip, dr).Some?
    ensures var p := MakePlan(sw, sh, sr, clip, dr).value;
            && (ColumnsOnSurface(p, sw, sr, dr) <==> EdgeSafe(sr.x, sr.w, dr.w, clip.x, dr.x))
            && (RowsOnSurface(p, sh, sr, dr) <==> EdgeSafe(sr.y, sr.h, dr.h, clip.y, dr.y))
  {
    var p := MakePlan(sw, sh, sr, clip, dr).value;
    forall i: nat | i < p.dst.w
      ensures SourceColumn(p, sr, dr, i) < sw
      ensures EdgeSafe(sr.x, sr.w, dr.w, clip.x, dr.x) ==> SourceColumn(p, sr, dr, i) >= 0
    {
      ColumnExact(sw, sh, sr, clip, dr, i);
    }
    forall y: nat | y < p.dst.h
      ensures SourceRow(p, sr, dr, y) < sh
      ensures EdgeSafe(sr.y, sr.h, dr.h, clip.y, dr.y) ==> SourceRow(p, sr, dr, y) >= 0
    {
      RowExact(sw, sh, sr, clip, dr, y);
    }
    ColumnExact(sw, sh, sr, clip, dr, 0);
    RowExact(sw, sh, sr, clip, dr, 0);
    assert SourceColumn(p, sr, dr, 0) == p.src.x;
    assert SourceRow(p, sr, dr, 0) == p.src.y;
  }

  lemma ColumnExact(sw: int, sh: int, sr: Rect, clip: Rect, dr: Rect, i: nat)
    requires MakePlan(sw, sh, sr, clip, dr).Some?
    requires i < MakePlan(sw, sh, sr, clip, dr).value.dst.w
    ensures var p := MakePlan(sw, sh, sr, clip, dr).value;
            && Max(0, sr.x) + SourceClip(sw, sh, sr).value.w == Min(sw, sr.x + sr.w)
            && p.src.x <= SourceColumn(p, sr, dr, i) < Min(sw, sr.x + sr.w)
            && (EdgeSafe(sr.x, sr.w, dr.w, clip.x, dr.x) <==> p.src.x >= Max(0, sr.x))
  {
    var s := SourceClip(sw, sh, sr).value;
    var t := Mapped(s, sr, dr);
    AxisExact(s.x, s.w, sr.x, sr.w, dr.w, clip.x, dr.x, t.x, Max(clip.x, t.x), i);
  }

  lemma RowExact(sw: int, sh: int, sr: Rect, clip: Rect, dr: Rect, y: nat)
    requires MakePlan(sw, sh, sr, clip, dr).Some?
    requires y < MakePlan(sw, sh, sr, clip, dr).value.dst.h
    ensures var p := MakePlan(sw, sh, sr, clip, dr).value;
            && p.src.y <= SourceRow(p, sr, dr, y) < Min(sh, sr.y + sr.h)
            && (EdgeSafe(sr.y, sr.h, dr.h, clip.y, dr.y) <==> p.src.y >= Max(0, sr.y))
  {
    var s := SourceClip(sw, sh, sr).value;
    var t := Mapped(s, sr, dr);
    AxisExact(s.y, s.h, sr.y, sr.h, dr.h, clip.y, dr.y, t.y, Max(clip.y, t.y), y);
  }

  /** Under the edge condition each sample lies in the source rectangle that was asked for. */
  lemma SamplesInRequestedRect(sw: int, sh: int, sr: Rect, clip: Rect, dr: Rect, i: nat, y: nat)
    requires MakePlan(sw, sh, sr, clip, dr).Some?
    requires i < MakePlan(sw, sh, sr, clip, dr).value.dst.w && y < MakePlan(sw, sh, sr, clip, dr).value.dst.h
    requires EdgeSafe(sr.x, sr.w, dr.w, clip.x, dr.x) && EdgeSafe(sr.y, sr.h, dr.h, clip.y, dr.y)
    ensures var p := MakePlan(sw, sh, sr, clip, dr).value;
            var x', y' := SourceColumn(p, sr, dr, i), SourceRow(p, sr, dr, y);
            Covers(sr, x', y') && Covers(Rect(0, 0, sw, sh), x', y')
  {
    ColumnExact(sw, sh, sr, clip, dr, i);
    RowExact(sw, sh, sr, clip, dr, y);
  }

  // ---- which pixel is sampled -------------------------------------------------------------------

  /**
   * c is the position that e / to, a place behind `start`, falls on, or the one before; in the latter case `early`
   * holds.
   */
  predicate Samples(c: int, start: int, e: int, to: int, early: bool) {
    if early then to * (c - start + 1) <= e < to * (c - start + 2) else to * (c - start) <= e < to * (c - start + 1)
  }

  /** The parts behind a whole number of steps of k and of i positions make up a whole step. */
  predicate Carries(k: int, i: int, from: int, to: int)
    requires to > 0
  {
    (k * from) % to + (i * from) % to >= to
  }

  /** Two quotients against the quotient of the sum. */
  lemma TwoQuotients(a: nat, b: nat, to: int, start: int)
    requires to > 0
    ensures Samples(a / to + b / to + start, start, a + b, to, a % to + b % to >= to)
  {
    QuotientParts(a, to);
    QuotientParts(b, to);
    StepsUp(to, a / to, b / to);
  }

  lemma QuotientParts(a: nat, to: int)
    requires to > 0
    ensures a == to * (a / to) + a % to && 0 <= a % to < to
  {
  }

  lemma StepsUp(to: int, p: int, q: int)
    ensures to * (p + q) == to * p + to * q
    ensures to * (p + q + 1) == to * p + to * q + to && to * (p + q + 2) == to * p + to * q + 2 * to
  {
  }

  /** One axis: i positions behind the first drawn one, k behind the start of the image. */
  lemma AxisSamples(k: nat, i: nat, from: int, to: int, start: int)
    requires from > 0 && to > 0
    ensures Samples(CDiv(i * from, to) + (CDiv(k * from, to) + start), start, (k + i) * from, to,
                    Carries(k, i, from, to))
  {
    FloorDiv(k, from, to);
    FloorDiv(i, from, to);
    MulAdd(from, k, i);
    TwoQuotients(i * from, k * from, to, start);
  }

  /**
   * The pixel (x, y) of the drawn rectangle samples column c and row r: those on which the pixel's own place, scaled
   * from `dr` to `sr`, falls; or one before, on the axis where the place of the first drawn position and the
   * distance from it lose a whole step to truncation. Nothing is lost where the drawn rectangle starts with `dr`.
   */
  lemma SampledPixel(sw: int, sh: int, sr: Rect, clip: Rect, dr: Rect, x: int, y: int)
    requires MakePlan(sw, sh, sr, clip, dr).Some? && Covers(MakePlan(sw, sh, sr, clip, dr).value.dst, x, y)
    ensures var p := MakePlan(sw, sh, sr, clip, dr).value;
            && dr.x <= p.dst.x && dr.y <= p.dst.y
            && Samples(SourceColumn(p, sr, dr, x - p.dst.x), sr.x, (x - dr.x) * sr.w, dr.w,
                       Carries(p.dst.x - dr.x, x - p.dst.x, sr.w, dr.w))
            && Samples(SourceRow(p, sr, dr, y - p.dst.y), sr.y, (y - dr.y) * sr.h, dr.h,
                       Carries(p.dst.y - dr.y, y - p.dst.y, sr.h, dr.h))
            && (p.dst.x == dr.x ==> !Carries(0, x - p.dst.x, sr.w, dr.w))
            && (p.dst.y == dr.y ==> !Carries(0, y - p.dst.y, sr.h, dr.h))
  {
    var p := MakePlan(sw, sh, sr, clip, dr).value;
    PlanStarts(sw, sh, sr, clip, dr);
    AxisSampled(p.dst.x, x, sr.x, sr.w, dr.w, dr.x, p.src.x, SourceColumn(p, sr, dr, x - p.dst.x));
    AxisSampled(p.dst.y, y, sr.y, sr.h, dr.h, dr.y, p.src.y, SourceRow(p, sr, dr, y - p.dst.y));
  }

  /** Position x of an axis that is drawn from d on, and the source position c that it samples. */
  lemma AxisSampled(d: int, x: int, start: int, from: int, to: int, dstStart: int, src: int, c: int)
    requires from > 0 && to > 0 && dstStart <= d <= x
    requires src == CDiv((d - dstStart) * from, to) + start && c == CDiv((x - d) * from, to) + src
    ensures Samples(c, start, (x - dstStart) * from, to, Carries(d - dstStart, x - d, from, to))
    ensures d == dstStart ==> !Carries(0, x - d, from, to)
  {
    AxisSamples(d - dstStart, x - d, from, to, start);
  }

  lemma PlanStarts(sw: int, sh: int, sr: Rect, clip: Rect, dr: Rect)
    requires MakePlan(sw, sh, sr, clip, dr).Some?
    ensures var p := MakePlan(sw, sh, sr, clip, dr).value;
            && dr.x <= p.dst.x && dr.y <= p.dst.y
            && p.src.x == CDiv((p.dst.x - dr.x) * sr.w, dr.w) + sr.x
            && p.src.y == CDiv((p.dst.y - dr.y) * sr.h, dr.h) + sr.y
  {
    var s := SourceClip(sw, sh, sr).value;
    FloorDiv(s.x - sr.x, dr.w, sr.w);
    FloorDiv(s.y - sr.y, dr.h, sr.h);
  }

  /**
   * A clip changes what a pixel samples: against a plan that starts with `dr` it samples one column earlier exactly
   * where the truncated parts carry, as in the last of three columns made of two behind a clip of one.
   */
  lemma ClipShiftsColumn(sw: int, sh: int, sr: Rect, clip: Rect, whole: Rect, dr: Rect, x: int, y: int)
    requires MakePlan(sw, sh, sr, clip, dr).Some? && Covers(MakePlan(sw, sh, sr, clip, dr).value.dst, x, y)
    requires MakePlan(sw, sh, sr, whole, dr).Some? && Covers(MakePlan(sw, sh, sr, whole, dr).value.dst, x, y)
    requires MakePlan(sw, sh, sr, whole, dr).value.dst.x == dr.x
    ensures var p, q := MakePlan(sw, sh, sr, clip, dr).value, MakePlan(sw, sh, sr, whole, dr).value;
            SourceColumn(p, sr, dr, x - p.dst.x) == SourceColumn(q, sr, dr, x - q.dst.x)
            - (if Carries(p.dst.x - dr.x, x - p.dst.x, sr.w, dr.w) then 1 else 0)
    ensures Carries(1, 1, 2, 3)
  {
    var p, q := MakePlan(sw, sh, sr, clip, dr).value, MakePlan(sw, sh, sr, whole, dr).value;
    SampledPixel(sw, sh, sr, clip, dr, x, y);
    SampledPixel(sw, sh, sr, whole, dr, x, y);
    SamplesUnique(SourceColumn(p, sr, dr, x - p.dst.x), SourceColumn(q, sr, dr, x - q.dst.x), sr.x, (x - dr.x) * sr.w,
                  dr.w, Carries(p.dst.x - dr.x, x - p.dst.x, sr.w, dr.w));
    assert (1 * 2) % 3 == 2;
  }

  lemma SamplesUnique(c: int, d: int, start: int, e: int, to: int, early: bool)
    requires to > 0 && Samples(c, start, e, to, early) && Samples(d, start, e, to, false)
    ensures c == d - (if early then 1 else 0)
  {
    var c' := if early then c + 1 else c;
    MulOrder(to, c' - start, d - start + 1);
    MulOrder(to, d - start, c' - start + 1);
  }

  // ---- which pixels are drawn -------------------------------------------------------------------

  /** q is a / b rounded down. */
  predicate Floors(q: int, a: int, b: int) {
    b * q <= a < b * q + b
  }

  lemma FloorUnique(q: int, a: int, b: int)
    requires b > 0 && Floors(q, a, b)
    ensures a / b == q
  {
    QuotientUnique(a, b, q, a - b * q);
  }

  /**
   * The image of the source part on one axis: the requested length `from`, which starts at `start`, becomes `to`
   * pixels; the part before the surface becomes the first t of them, the part on the surface, up to `size`, the
   * next n.
   */
  predicate Image(size: int, start: int, from: int, to: int, t: int, n: int) {
    && Floors(t, (Max(0, start) - start) * to, from)
    && Floors(n, (Min(size, start + from) - Max(0, start)) * to, from)
  }

  /** The sides of the image that is clipped and drawn. */
  predicate Images(sw: int, sh: int, sr: Rect, dr: Rect, image: Rect) {
    && Image(sw, sr.x, sr.w, dr.w, image.x - dr.x, image.w)
    && Image(sh, sr.y, sr.h, dr.h, image.y - dr.y, image.h)
  }

  /**
   * The drawn pixels are those of the clip in the image of the source part that is on the surface. Nothing is drawn
   * for rectangles without pixels, nor where more than MAX_W columns would be.
   */
  lemma StretchDraws(sw: int, sh: int, sr: Rect, clip: Rect, dr: Rect, image: Rect, x: int, y: int)
    requires sr.w > 0 && sr.h > 0 && dr.w > 0 && dr.h > 0 ==> Images(sw, sh, sr, dr, image)
    ensures (MakePlan(sw, sh, sr, clip, dr).Some? && Covers(MakePlan(sw, sh, sr, clip, dr).value.dst, x, y)) <==>
            && sr.w > 0 && sr.h > 0 && dr.w > 0 && dr.h > 0
            && Covers(clip, x, y) && Covers(image, x, y)
            && Min(clip.x + clip.w, image.x + image.w) - Max(clip.x, image.x) <= MAX_W
  {
    if sr.w > 0 && sr.h > 0 && dr.w > 0 && dr.h > 0 {
      if SourceClip(sw, sh, sr).Some? {
        ImageIsMapped(sw, sh, sr, dr, image);
        ClipIsIntersection(clip, image);
      } else {
        NoImage(sw, sr.x, sr.w, dr.w, image.x - dr.x, image.w);
        NoImage(sh, sr.y, sr.h, dr.h, image.y - dr.y, image.h);
      }
    }
  }

  lemma NoImage(size: int, start: int, from: int, to: int, t: int, n: int)
    requires from > 0 && to > 0 && Image(size, start, from, to, t, n)
    ensures Min(size, start + from) <= Max(0, start) ==> n <= 0
  {
    var len := Min(size, start + from) - Max(0, start);
    MulOrder(to, len, 0);
    MulOrder(from, 0, n);
  }

  lemma ImageIsMapped(sw: int, sh: int, sr: Rect, dr: Rect, image: Rect)
    requires sr.w > 0 && sr.h > 0 && dr.w > 0 && dr.h > 0 && Images(sw, sh, sr, dr, image)
    requires SourceClip(sw, sh, sr).Some?
    ensures Mapped(SourceClip(sw, sh, sr).value, sr, dr) == image
  {
    var s := SourceClip(sw, sh, sr).value;
    AxisImage(s.x - sr.x, sr.w, dr.w, image.x - dr.x);
    AxisImage(s.w, sr.w, dr.w, image.w);
    AxisImage(s.y - sr.y, sr.h, dr.h, image.y - dr.y);
    AxisImage(s.h, sr.h, dr.h, image.h);
  }

  lemma AxisImage(len: nat, from: int, to: int, q: int)
    requires from > 0 && to > 0 && Floors(q, len * to, from)
    ensures CDiv(len * to, from) == q
  {
    FloorDiv(len, to, from);
    FloorUnique(q, len * to, from);
  }

  /** A source rectangle on its surface is drawn on all of `dr` that the clip leaves. */
  lemma WholeImage(sw: int, sh: int, sr: Rect, clip: Rect, dr: Rect, x: int, y: int)
    requires Inside(sr, Rect(0, 0, sw, sh)) && dr.w <= MAX_W
    ensures (MakePlan(sw, sh, sr, clip, dr).Some? && Covers(MakePlan(sw, sh, sr, clip, dr).value.dst, x, y)) <==>
            sr.w > 0 && sr.h > 0 && Covers(clip, x, y) && Covers(dr, x, y)
  {
    StretchDraws(sw, sh, sr, clip, dr, dr, x, y);
  }

  /**
   * The edge condition does fail: a source rectangle that starts one column left of the surface and is
   * scaled 3 to 2 samples a column outside.
   */
  lemma NegativeStartSamplesOutside()
    ensures var sr, clip, dr := Rect(-1, 0, 3, 1), Rect(0, 0, 8, 8), Rect(0, 0, 2, 1);
            && MakePlan(8, 8, sr, clip, dr).Some?
            && !ColumnsOnSurface(MakePlan(8, 8, sr, clip, dr).value, 8, sr, dr)
  {
    var sr, clip, dr := Rect(-1, 0, 3, 1), Rect(0, 0, 8, 8), Rect(0, 0, 2, 1);
    NegativeStartPlan(sr, clip, dr);
    assert !EdgeSafe(-1, 3, 2, 0, 0);
    SamplesOnSurface(8, 8, sr, clip, dr);
  }

  lemma NegativeStartClip()
    ensures SourceClip(8, 8, Rect(-1, 0, 3, 1)) == Some(Rect(0, 0, 2, 1))
    ensures ClipRect(Rect(0, 0, 8, 8), Rect(0, 0, 1, 1)) == Some(Rect(0, 0, 1, 1))
  {
  }

  lemma NegativeStartMapped()
    ensures Mapped(Rect(0, 0, 2, 1), Rect(-1, 0, 3, 1), Rect(0, 0, 2, 1)) == Rect(0, 0, 1, 1)
  {
  }

  lemma PlanFromSteps(sw: int, sh: int, sr: Rect, clip: Rect, dr: Rect, s: Rect, d: Rect)
    requires SourceClip(sw, sh, sr) == Some(s)
    requires sr.w != 0 && sr.h != 0
    requires ClipRect(clip, Mapped(s, sr, dr)) == Some(d)
    requires d.w <= MAX_W
    ensures MakePlan(sw, sh, sr, clip, dr).Some?
  {
  }

  lemma NegativeStartPlan(sr: Rect, clip: Rect, dr: Rect)
    requires sr == Rect(-1, 0, 3, 1) && clip == Rect(0, 0, 8, 8) && dr == Rect(0, 0, 2, 1)
    ensures MakePlan(8, 8, sr, clip, dr).Some?
  {
    NegativeStartClip();
    NegativeStartMapped();
    PlanFromSteps(8, 8, sr, clip, dr, Rect(0, 0, 2, 1), Rect(0, 0, 1, 1));
  }
}
