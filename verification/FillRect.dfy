// The filled rectangle of the software blitter (am_adp/am_osd/sw_op.c). It is the blit of a single pixel that
// every destination pixel samples.

module FillRect {
  import opened Bits
  import opened Blit
  import opened Clip
  import opened PixelFormat
  import opened Raster
  import opened Seqs
  import opened Wrappers

  function PassOp(b: int): PixelOp {
    (s: seq<byte>, d: seq<byte>) => if |s| == b && |d| == b then s else d
  }

  function FillGrid(dr: Rect): Grid
    requires dr.w >= 0 && dr.h >= 0
  {
    Grid(dr.x, dr.y, seq(dr.w, _ => 0), seq(dr.h, _ => 0))
  }

  function FillScene(l: Layout, dr: Rect, pix: nat, buf: seq<byte>): Scene
    requires dr.w >= 0 && dr.h >= 0 && l.bpp >= 0
  {
    Scene(PassOp(l.bpp), FillGrid(dr), Layout(1, 1, l.bpp, l.bpp, l.bpp), l, PutPixel(pix, l.bpp), buf)
  }

  lemma FillReady(l: Layout, clip: Rect, rect: Rect, pix: nat, buf: seq<byte>)
    requires Fits(l) && |buf| == l.size && ClipRect(clip, rect).Some?
    requires OnSurface(ClipRect(clip, rect), l.width, l.height)
    ensures var sc := FillScene(l, ClipRect(clip, rect).value, pix, buf); Ready(sc) && sc.g.cols != []
  {
    ClipIsIntersection(clip, rect);
  }

  /** What sw_filled_rect leaves in the buffer of a surface. */
  ghost predicate Filled(l: Layout, clip: Rect, rect: Rect, pix: nat, before: seq<byte>, after: seq<byte>)
    requires l.bpp >= 0
  {
    match ClipRect(clip, rect)
    case None => after == before
    case Some(dr) =>
      && dr.w >= 0 && dr.h >= 0 && Ready(FillScene(l, dr, pix, before))
      && after == Blitted(FillScene(l, dr, pix, before))
  }

  /** Pixel by pixel: those of the rectangle that lie in the clip get the value, cut to the pixel size, and all
      others keep their bytes. */
  lemma FilledPixel(l: Layout, clip: Rect, rect: Rect, pix: nat, before: seq<byte>, after: seq<byte>, x: int, y: int)
    requires Fits(l) && |before| == l.size && Filled(l, clip, rect, pix, before, after)
    requires 0 <= x < l.width && 0 <= y < l.height
    ensures |after| == l.size
    ensures PixelAt(l, after, x, y) ==
            if Covers(clip, x, y) && Covers(rect, x, y) then PutPixel(pix, l.bpp) else PixelAt(l, before, x, y)
  {
    ClipIsIntersection(clip, rect);
    match ClipRect(clip, rect)
    case None =>
    case Some(dr) =>
      var sc := FillScene(l, dr, pix, before);
      if Covers(dr, x, y) {
        BlittedPixel(sc, x, y, 0, 0);
        assert PixelAt(sc.sl, sc.src, 0, 0) == sc.src;
      } else {
        BlittedOutside(sc, x, y);
      }
  }

  /** One line: the same bytes at each pixel, one behind the other. */
  method FillLine(bytes: seq<byte>, dst: array<byte>, pline: int, w: int, ghost t: LineTask)
    requires TaskOk(t) && w == |t.px| && t.sb == t.db == |bytes|
    requires forall c :: 0 <= c < w ==> t.px[c] == bytes
    requires pline == t.to[0] && TaskAt(t, dst[..], 0)
    modifies dst
    ensures TaskAt(t, dst[..], w)
  {
    var ptr, dw := pline, 0;
    while dw < w
      invariant 0 <= dw <= w
      invariant dw < w ==> ptr == t.to[dw]
      invariant TaskAt(t, dst[..], dw)
    {
      PutsPixel(t, dst[..], dw);
      CopyBytes(bytes, dst, ptr);
      ptr := ptr + |bytes|;
      dw := dw + 1;
    }
  }

  lemma PutsPixel(t: LineTask, now: seq<byte>, c: nat)
    requires TaskOk(t) && c < |t.px| && TaskAt(t, now, c)
    ensures 0 <= t.to[c] <= t.to[c] + |t.px[c]| <= |now|
    ensures TaskAt(t, Splice(now, t.to[c], t.px[c]), c + 1)
    ensures c + 1 < |t.px| ==> t.to[c + 1] == t.to[c] + t.db
  {
    assert PixelTask(t, c);
    LineAdvances(t.buf, t.starts, t.lines, t.len, t.px, t.r, now, c, t.to[c]);
    if c + 1 < |t.px| {
      assert PixelTask(t, c + 1);
      FlatNext(t.px, c);
    }
  }

  lemma FillPixels(l: Layout, dr: Rect, pix: nat, buf: seq<byte>, r: nat)
    requires dr.w >= 0 && dr.h >= 0 && l.bpp >= 0
    requires var sc := FillScene(l, dr, pix, buf); Ready(sc) && r < |sc.g.rows|
    ensures var t := RowTask(FillScene(l, dr, pix, buf), r);
            forall c :: 0 <= c < |t.px| ==> t.px[c] == PutPixel(pix, l.bpp)
  {
    var sc := FillScene(l, dr, pix, buf);
    forall c | 0 <= c < |sc.g.cols|
      ensures NewPixel(sc, c, r) == PutPixel(pix, l.bpp)
    {
      assert PixelAt(sc.sl, sc.src, 0, 0) == sc.src;
    }
  }

  /** Every pixel of row h becomes `bytes`. */
  ghost predicate FillsRow(run: Run, h: int, bytes: seq<byte>)
    requires 0 <= h < |run.tasks|
  {
    forall c :: 0 <= c < |run.tasks[h].px| ==> run.tasks[h].px[c] == bytes
  }

  /** The row loop of sw_filled_rect. */
  method FillRows(bytes: seq<byte>, dst: array<byte>, pline0: int, pitch: int, w: int, rows: int, ghost run: Run)
    requires RunOk(run) && w == run.w && rows == |run.starts| && run.sb == run.db == |bytes|
    requires Spaced(run.starts, pline0, pitch)
    requires forall h :: 0 <= h < rows ==> FillsRow(run, h, bytes)
    requires dst[..] == run.dst
    modifies dst
    ensures RowsDone(run, dst[..], rows)
  {
    var pline, h := pline0, 0;
    while h < rows
      invariant 0 <= h <= rows
      invariant h < rows ==> pline == run.starts[h]
      invariant RowsDone(run, dst[..], h)
    {
      RowBegins(run, dst[..], h);
      assert FillsRow(run, h, bytes);
      FillLine(bytes, dst, pline, w, run.tasks[h]);
      RowEnds(run, dst[..], h);
      pline := pline + pitch;
      h := h + 1;
    }
  }

  /** sw_filled_rect, for a clipped rectangle on the surface; a line of one-byte pixels is one memset there. */
  method FilledRect(s: Surface, rect: Rect, pix: nat)
    requires s.Valid() && OnSurface(ClipRect(s.clip, rect), s.width, s.height)
    modifies s.buffer
    ensures Filled(s.Lay(), s.clip, rect, pix, old(s.buffer[..]), s.buffer[..])
  {
    var clipped := ClipRect(s.clip, rect);
    if clipped.None? {
      return;
    }
    var dr := clipped.value;
    var bytes := PutPixel(pix, s.format.bpp);
    var pline := s.pitch * dr.y + dr.x * s.format.bpp;
    FillReady(s.Lay(), s.clip, rect, pix, s.buffer[..]);
    ClipIsIntersection(s.clip, rect);
    ghost var sc := FillScene(s.Lay(), dr, pix, s.buffer[..]);
    FillRun(s.Lay(), dr, pix, s.buffer[..]);
    FillRows(bytes, s.buffer, pline, s.pitch, dr.w, dr.h, RunOf(sc, 0));
    RunEnds(sc, 0, s.buffer[..]);
  }

  lemma FillRun(l: Layout, dr: Rect, pix: nat, buf: seq<byte>)
    requires dr.w > 0 && dr.h > 0 && l.bpp >= 0 && Ready(FillScene(l, dr, pix, buf))
    ensures var run := RunOf(FillScene(l, dr, pix, buf), 0);
            && RunOk(run) && Spaced(run.starts, At(l, dr.x, dr.y), l.pitch)
            && forall h :: 0 <= h < |run.tasks| ==> FillsRow(run, h, PutPixel(pix, l.bpp))
  {
    var sc := FillScene(l, dr, pix, buf);
    RunOfOk(sc, 0);
    forall h | 0 <= h < |sc.g.rows|
      ensures FillsRow(RunOf(sc, 0), h, PutPixel(pix, l.bpp))
    {
      FillPixels(l, dr, pix, buf, h);
    }
  }
}
