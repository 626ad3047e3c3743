// What a blit leaves on the destination, pixel by pixel and in colours: which pixels are drawn, from which source
// pixel each of them is, and what it becomes (am_adp/am_osd/sw_op.c, sw_normal_blit and sw_stretch_blit).

module BlitLaws {
  import opened Arith
  import opened Bits
  import opened Blit
  import opened Clip
  import opened PixelFormat
  import opened PixelLaws
  import opened Raster
  import opened StretchPlan
  import opened Wrappers

  /** A blit between surfaces of the table's formats. */
  datatype Formats = Formats(st: FormatType, palette: seq<Color>, dt: FormatType, para: BlitPara)

  function JobOf(f: Formats, scaling: bool): Job {
    Job(OsdFormat(f.st), f.palette, OsdFormat(f.dt), f.para, scaling)
  }

  predicate SizesFit(f: Formats, sl: Layout, dl: Layout) {
    Fits(sl) && Fits(dl) && sl.bpp == OsdFormat(f.st).bpp && dl.bpp == OsdFormat(f.dt).bpp
  }

  /** Pixel (x, y) of the destination is made of pixel (c, r) of the source, over what it was. */
  ghost predicate DrawnFrom(f: Formats, sl: Layout, dl: Layout, src: seq<byte>, before: seq<byte>, after: seq<byte>,
                            x: int, y: int, c: int, r: int)
    requires SizesFit(f, sl, dl) && |src| == sl.size && |before| == |after| == dl.size
    requires 0 <= x < dl.width && 0 <= y < dl.height
  {
    && 0 <= c < sl.width && 0 <= r < sl.height
    && Painted(f.st, f.palette, f.dt, f.para, PixelAt(sl, src, c, r), PixelAt(dl, before, x, y),
               PixelAt(dl, after, x, y))
  }

  lemma JobPaints(f: Formats, scaling: bool, s: seq<byte>, d: seq<byte>, out: seq<byte>)
    requires |s| == OsdFormat(f.st).bpp && |d| == OsdFormat(f.dt).bpp
    requires JobOk(JobOf(f, scaling)) && out == OpOf(JobOf(f, scaling))(s, d)
    ensures Painted(f.st, f.palette, f.dt, f.para, s, d, out)
  {
    OpOfImplements(JobOf(f, scaling));
    PixelIsPainted(f.st, f.palette, f.dt, f.para, scaling, s, d, out);
  }

  /** From the grid of a blit to its pixels. */
  lemma GridDraws(f: Formats, scaling: bool, sl: Layout, dl: Layout, g: Option<Grid>, src: seq<byte>,
                  before: seq<byte>, after: seq<byte>, x: int, y: int, c: int, r: int, hit: bool)
    requires SizesFit(f, sl, dl) && |src| == sl.size && |before| == dl.size
    requires JobOk(JobOf(f, scaling)) && BlitDone(OpOf(JobOf(f, scaling)), sl, dl, g, src, before, after)
    requires 0 <= x < dl.width && 0 <= y < dl.height
    requires hit <==> g.Some? && Draws(g.value, x, y)
    requires hit ==> g.value.cols[x - g.value.x] == c && g.value.rows[y - g.value.y] == r
    ensures |after| == |before|
    ensures if hit then DrawnFrom(f, sl, dl, src, before, after, x, y, c, r)
            else PixelAt(dl, after, x, y) == PixelAt(dl, before, x, y)
  {
    GridPixel(OpOf(JobOf(f, scaling)), sl, dl, g, src, before, after, x, y, c, r, hit);
    if hit {
      JobPaints(f, scaling, PixelAt(sl, src, c, r), PixelAt(dl, before, x, y), PixelAt(dl, after, x, y));
    }
  }

  /**
   * The plain blit in colours: every clip pixel whose source pixel is requested and exists is made of that source
   * pixel, all others keep their bytes.
   */
  lemma NormalBlitDraws(f: Formats, sl: Layout, dl: Layout, sr: Rect, clip: Rect, dr: Rect,
                        src: seq<byte>, before: seq<byte>, after: seq<byte>, x: int, y: int, c: int, r: int)
    requires SizesFit(f, sl, dl) && |src| == sl.size && |before| == dl.size && JobOk(JobOf(f, false))
    requires BlitDone(OpOf(JobOf(f, false)), sl, dl, NormalGridOf(sl, sr, clip, dr), src, before, after)
    requires 0 <= x < dl.width && 0 <= y < dl.height
    requires c == x - dr.x + sr.x && r == y - dr.y + sr.y
    ensures |after| == |before|
    ensures if Translated(sl, sr, clip, dr, x, y)
            then DrawnFrom(f, sl, dl, src, before, after, x, y, c, r)
            else PixelAt(dl, after, x, y) == PixelAt(dl, before, x, y)
  {
    var hit, g := Translated(sl, sr, clip, dr, x, y), NormalGridOf(sl, sr, clip, dr);
    GridTranslates(sl, sr, clip, dr, x, y, c, r, hit, g);
    GridDraws(f, false, sl, dl, g, src, before, after, x, y, c, r, hit);
  }

  lemma GridTranslates(sl: Layout, sr: Rect, clip: Rect, dr: Rect, x: int, y: int, c: int, r: int, hit: bool,
                       g: Option<Grid>)
    requires c == x - dr.x + sr.x && r == y - dr.y + sr.y
    requires hit == Translated(sl, sr, clip, dr, x, y) && g == NormalGridOf(sl, sr, clip, dr)
    ensures hit <==> g.Some? && Draws(g.value, x, y)
    ensures hit ==> g.value.cols[x - g.value.x] == c && g.value.rows[y - g.value.y] == r
  {
    NormalGridTranslates(sl, sr, clip, dr, x, y, c, r);
  }

  /**
   * The pixel of the scaling blit that (x, y) is drawn from: on each axis the place of the pixel in `dr`, scaled to
   * `sr`, or one before it where the first drawn position and the distance from it carry.
   */
  predicate SampledFrom(sr: Rect, clip: Rect, dr: Rect, image: Rect, x: int, y: int, c: int, r: int)
    requires dr.w > 0 && dr.h > 0
  {
    var left, top := Max(clip.x, image.x), Max(clip.y, image.y);
    && Samples(c, sr.x, (x - dr.x) * sr.w, dr.w, Carries(left - dr.x, x - left, sr.w, dr.w))
    && Samples(r, sr.y, (y - dr.y) * sr.h, dr.h, Carries(top - dr.y, y - top, sr.h, dr.h))
  }

  predicate Positive(r: Rect) {
    r.w > 0 && r.h > 0
  }

  /** The pixel lies in the clip and in the image, and no more columns than MAX_W are drawn. */
  predicate Stretched(sr: Rect, clip: Rect, dr: Rect, image: Rect, x: int, y: int) {
    && Positive(sr) && Positive(dr) && Covers(clip, x, y) && Covers(image, x, y)
    && Min(clip.x + clip.w, image.x + image.w) - Max(clip.x, image.x) <= MAX_W
  }

  /**
   * The scaling blit in colours: the clip pixels in the image of the source part on the surface are made of the
   * source pixel at their scaled place, all others keep their bytes.
   */
  lemma StretchBlitDraws(f: Formats, sl: Layout, dl: Layout, sr: Rect, clip: Rect, dr: Rect, image: Rect,
                         src: seq<byte>, before: seq<byte>, after: seq<byte>, x: int, y: int) returns (c: int, r: int)
    requires SizesFit(f, sl, dl) && |src| == sl.size && |before| == dl.size && JobOk(JobOf(f, true))
    requires BlitDone(OpOf(JobOf(f, true)), sl, dl, StretchGridOf(sl, sr, clip, dr), src, before, after)
    requires Positive(sr) && Positive(dr) ==> Images(sl.width, sl.height, sr, dr, image)
    requires 0 <= x < dl.width && 0 <= y < dl.height
    ensures |after| == |before|
    ensures if Stretched(sr, clip, dr, image, x, y)
            then SampledFrom(sr, clip, dr, image, x, y, c, r)
                 && DrawnFrom(f, sl, dl, src, before, after, x, y, c, r)
            else PixelAt(dl, after, x, y) == PixelAt(dl, before, x, y)
  {
    var hit, g := Stretched(sr, clip, dr, image, x, y), StretchGridOf(sl, sr, clip, dr);
    c, r := GridSamples(sl, sr, clip, dr, image, x, y, hit, g);
    GridDraws(f, true, sl, dl, g, src, before, after, x, y, c, r, hit);
  }

  lemma GridSamples(sl: Layout, sr: Rect, clip: Rect, dr: Rect, image: Rect, x: int, y: int, hit: bool,
                    g: Option<Grid>)
    returns (c: int, r: int)
    requires Positive(sr) && Positive(dr) ==> Images(sl.width, sl.height, sr, dr, image)
    requires hit == Stretched(sr, clip, dr, image, x, y) && g == StretchGridOf(sl, sr, clip, dr)
    ensures hit <==> g.Some? && Draws(g.value, x, y)
    ensures hit ==> g.value.cols[x - g.value.x] == c && g.value.rows[y - g.value.y] == r
    ensures hit ==> SampledFrom(sr, clip, dr, image, x, y, c, r)
  {
    c, r := 0, 0;
    StretchDraws(sl.width, sl.height, sr, clip, dr, image, x, y);
    if hit {
      var p := MakePlan(sl.width, sl.height, sr, clip, dr).value;
      c, r := SourceColumn(p, sr, dr, x - p.dst.x), SourceRow(p, sr, dr, y - p.dst.y);
      SampledPixel(sl.width, sl.height, sr, clip, dr, x, y);
      ImageIsMapped(sl.width, sl.height, sr, dr, image);
    }
  }
}
