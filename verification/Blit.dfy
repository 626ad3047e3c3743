// The software blitter (am_adp/am_osd/sw_op.c): plain blit with its row-copy and per-pixel paths, scaling
// blit, and the dispatch between them, over surfaces that hold their pixels in a byte array.

module Blit {
  import opened Arith
  import opened Bits
  import opened Clip
  import opened PixelFormat
  import opened Raster
  import opened Seqs
  import opened StretchPlan
  import opened Wrappers

  // ---- the plain blit's rectangles --------------------------------------------------------------

  /** Rectangles of sw_normal_blit after both clips; None when it returns without drawing. */
  function NormalPlan(sw: int, sh: int, sr: Rect, clip: Rect, dr: Rect): (p: Option<Plan>) {
    var s := ClipRect(Rect(0, 0, sw, sh), sr);
    if s.None? then None else
    var d := ClipRect(clip, Rect(s.value.x + dr.x - sr.x, s.value.y + dr.y - sr.y, s.value.w, s.value.h));
    if d.None? then None else
    Some(Plan(Rect(d.value.x + sr.x - dr.x, d.value.y + sr.y - dr.y, d.value.w, d.value.h), d.value))
  }

  /**
   * The drawn rectangle is exactly the set of clip pixels whose source pixel, `sr` moved onto `dr`, lies
   * in the source rectangle and on the source surface; nothing is drawn exactly when there is none.
   */
  lemma NormalPlanCovers(sw: int, sh: int, sr: Rect, clip: Rect, dr: Rect, x: int, y: int)
    ensures var sx, sy := x - dr.x + sr.x, y - dr.y + sr.y;
            (Covers(clip, x, y) && Covers(sr, sx, sy) && Covers(Rect(0, 0, sw, sh), sx, sy)) <==>
            (NormalPlan(sw, sh, sr, clip, dr).Some? && Covers(NormalPlan(sw, sh, sr, clip, dr).value.dst, x, y))
    ensures NormalPlan(sw, sh, sr, clip, dr).Some? ==>
              var p := NormalPlan(sw, sh, sr, clip, dr).value;
              && p.dst.w > 0 && p.dst.h > 0 && Inside(p.dst, clip)
              && p.src == Rect(p.dst.x + sr.x - dr.x, p.dst.y + sr.y - dr.y, p.dst.w, p.dst.h)
              && Inside(p.src, Rect(0, 0, sw, sh)) && Inside(p.src, sr)
  {
  }

  function NormalGrid(p: Plan): (g: Grid)
    ensures p.dst.w >= 0 ==> |g.cols| == p.dst.w
    ensures p.dst.h >= 0 ==> |g.rows| == p.dst.h
    ensures forall i :: 0 <= i < |g.cols| ==> g.cols[i] == p.src.x + i
    ensures forall i :: 0 <= i < |g.rows| ==> g.rows[i] == p.src.y + i
  {
    Grid(p.dst.x, p.dst.y, seq(Max(p.dst.w, 0), i => p.src.x + i), seq(Max(p.dst.h, 0), i => p.src.y + i))
  }

  function StretchGrid(p: Plan, sr: Rect, dr: Rect): (g: Grid)
    requires p.dst.w >= 0 && p.dst.h >= 0 && dr.w != 0 && dr.h != 0
    ensures |g.cols| == p.dst.w && |g.rows| == p.dst.h
    ensures forall i :: 0 <= i < |g.cols| ==> g.cols[i] == SourceColumn(p, sr, dr, i)
    ensures forall y :: 0 <= y < |g.rows| ==> g.rows[y] == SourceRow(p, sr, dr, y)
  {
    Grid(p.dst.x, p.dst.y,
         seq(p.dst.w, i requires 0 <= i => SourceColumn(p, sr, dr, i)),
         seq(p.dst.h, y requires 0 <= y => SourceRow(p, sr, dr, y)))
  }

  // ---- surfaces ---------------------------------------------------------------------------------

  class Surface {
    const format: Format
    const width: int
    const height: int
    const pitch: int
    const buffer: array<byte>
    var clip: Rect
    var palette: seq<Color>

    function Lay(): Layout {
      Layout(width, height, pitch, format.bpp, buffer.Length)
    }

    /** A format of the table and a buffer that holds all rows; the clip may lie anywhere. */
    ghost predicate Valid() {
      format == OsdFormat(format.kind) && Fits(Lay())
    }

    /** sw_create_surface: rows are padded to a multiple of four bytes. */
    constructor (kind: FormatType, w: nat, h: nat)
      ensures Valid() && fresh(buffer)
      ensures format == OsdFormat(kind) && width == w && height == h
      ensures pitch % 4 == 0 && w * format.bpp <= pitch < w * format.bpp + 4
      ensures clip == Rect(0, 0, w, h)
    {
      var f := OsdFormat(kind);
      MulOrder(f.bpp, 0, w);
      var p := (f.bpp * w + 3) / 4 * 4;
      format := f;
      width, height, pitch := w, h, p;
      palette := [];
      clip := Rect(0, 0, w, h);
      MulOrder(h + 1, 0, p);
      buffer := new byte[p * h](_ => 0);
    }

    /** AM_OSD_SetClip: any rectangle is stored as it is; without one the clip is the whole surface. */
    method SetClip(c: Option<Rect>)
      modifies `clip
      ensures clip == if c.Some? then c.value else Rect(0, 0, width, height)
      ensures c.None? ==> forall rect :: OnSurface(ClipRect(clip, rect), width, height)
    {
      clip := if c.Some? then c.value else Rect(0, 0, width, height);
      ClipKeepsExactly(clip, width, height);
    }
  }

  // ---- drawing on and off the surface -------------------------------------------------------------

  /** What is drawn, if anything, lies on a surface of these sides. */
  predicate OnSurface(drawn: Option<Rect>, w: int, h: int) {
    drawn.Some? ==> Inside(drawn.value, Rect(0, 0, w, h))
  }

  /** Line r of the drawn rectangle writes byte j. */
  predicate Writes(l: Layout, drawn: Rect, r: int, j: int) {
    0 <= r < drawn.h && OnLine(At(l, drawn.x, drawn.y + r), drawn.w * l.bpp, j)
  }

  /** Byte j belongs to a pixel of row y of the surface. */
  predicate InRow(l: Layout, y: int, j: int) {
    0 <= y < l.height && At(l, 0, y) <= j < At(l, l.width, y)
  }

  ghost predicate WritesOwnRows(l: Layout, drawn: Rect) {
    forall r, j :: Writes(l, drawn, r, j) ==> InRow(l, drawn.y + r, j)
  }

  ghost predicate WritesInBuffer(l: Layout, drawn: Rect) {
    forall r, j :: Writes(l, drawn, r, j) ==> 0 <= j < l.size
  }

  /**
   * The row loops write only pixels of the surface, each line in its own row, exactly when the drawn
   * rectangle lies on the surface. They stay in the buffer exactly when its first and last byte do.
   */
  lemma DrawsOnSurfaceExactly(l: Layout, drawn: Rect)
    requires Fits(l) && drawn.w > 0 && drawn.h > 0
    ensures WritesOwnRows(l, drawn) <==> Inside(drawn, Rect(0, 0, l.width, l.height))
    ensures WritesInBuffer(l, drawn) <==>
            0 <= At(l, drawn.x, drawn.y) && At(l, drawn.x, drawn.y + drawn.h - 1) + drawn.w * l.bpp <= l.size
    ensures WritesOwnRows(l, drawn) ==> WritesInBuffer(l, drawn)
  {
    MulOrder(l.bpp, 1, drawn.w);
    if Inside(drawn, Rect(0, 0, l.width, l.height)) {
      InsideWritesOwnRows(l, drawn);
    }
    if WritesOwnRows(l, drawn) {
      OwnRowsInside(l, drawn);
      AtInside(l, drawn.x, drawn.y, drawn.w);
      AtInside(l, drawn.x, drawn.y + drawn.h - 1, drawn.w);
    }
    if WritesInBuffer(l, drawn) {
      assert Writes(l, drawn, 0, At(l, drawn.x, drawn.y));
      assert Writes(l, drawn, drawn.h - 1, At(l, drawn.x, drawn.y + drawn.h - 1) + drawn.w * l.bpp - 1);
    }
    if 0 <= At(l, drawn.x, drawn.y) && At(l, drawn.x, drawn.y + drawn.h - 1) + drawn.w * l.bpp <= l.size {
      EndsInBuffer(l, drawn);
    }
  }

  lemma InsideWritesOwnRows(l: Layout, drawn: Rect)
    requires Fits(l) && drawn.w > 0 && drawn.h > 0 && Inside(drawn, Rect(0, 0, l.width, l.height))
    ensures WritesOwnRows(l, drawn)
  {
    MulOrder(l.bpp, 0, drawn.x);
    MulAdd(l.bpp, drawn.x, drawn.w);
    MulOrder(l.bpp, drawn.x + drawn.w, l.width);
  }

  lemma OwnRowsInside(l: Layout, drawn: Rect)
    requires Fits(l) && drawn.w > 0 && drawn.h > 0 && WritesOwnRows(l, drawn)
    ensures Inside(drawn, Rect(0, 0, l.width, l.height))
  {
    var first, len := At(l, drawn.x, drawn.y), drawn.w * l.bpp;
    MulOrder(l.bpp, 1, drawn.w);
    assert Writes(l, drawn, 0, first) && Writes(l, drawn, 0, first + len - 1);
    assert Writes(l, drawn, drawn.h - 1, At(l, drawn.x, drawn.y + drawn.h - 1));
    assert InRow(l, drawn.y, first) && InRow(l, drawn.y, first + len - 1);
    MulOrder(l.bpp, drawn.x, -1);
    MulAdd(l.bpp, drawn.x, drawn.w);
    MulOrder(l.bpp, l.width + 1, drawn.x + drawn.w);
    MulAdd(l.bpp, l.width, 1);
  }

  lemma EndsInBuffer(l: Layout, drawn: Rect)
    requires Fits(l) && drawn.w > 0 && drawn.h > 0 && 0 <= At(l, drawn.x, drawn.y)
    requires At(l, drawn.x, drawn.y + drawn.h - 1) + drawn.w * l.bpp <= l.size
    ensures WritesInBuffer(l, drawn)
  {
    MulOrder(l.bpp, 0, l.width);
    forall r, j | Writes(l, drawn, r, j)
      ensures 0 <= j < l.size
    {
      if r > 0 {
        AtRows(l, drawn.x, drawn.y, drawn.y + r);
      }
      if r < drawn.h - 1 {
        AtRows(l, drawn.x, drawn.y + r, drawn.y + drawn.h - 1);
      }
    }
  }

  /** A clip keeps every drawing on the surface exactly when it lies there itself, or is empty. */
  lemma ClipKeepsExactly(clip: Rect, w: int, h: int)
    ensures (forall rect :: OnSurface(ClipRect(clip, rect), w, h)) <==>
            clip.w <= 0 || clip.h <= 0 || Inside(clip, Rect(0, 0, w, h))
  {
    forall rect
      ensures clip.w <= 0 || clip.h <= 0 || Inside(clip, Rect(0, 0, w, h)) ==> OnSurface(ClipRect(clip, rect), w, h)
    {
      ClipIsIntersection(clip, rect);
    }
    if clip.w > 0 && clip.h > 0 {
      assert ClipRect(clip, clip) == Some(clip);
    }
  }

  lemma Overruns(l: Layout, drawn: Rect)
    requires Fits(l) && drawn.w > 0 && drawn.h > 0
    requires At(l, drawn.x, drawn.y + drawn.h - 1) + drawn.w * l.bpp > l.size
    ensures !WritesInBuffer(l, drawn)
  {
    DrawsOnSurfaceExactly(l, drawn);
  }

  /** On a surface of one byte, under a clip of 100 by 100, a 10 by 10 fill writes behind the buffer. */
  lemma ClipOffSurfaceOverruns()
    ensures Fits(Layout(1, 1, 4, 1, 4))
    ensures ClipRect(Rect(0, 0, 100, 100), Rect(0, 0, 10, 10)) == Some(Rect(0, 0, 10, 10))
    ensures !WritesInBuffer(Layout(1, 1, 4, 1, 4), Rect(0, 0, 10, 10))
  {
    Overruns(Layout(1, 1, 4, 1, 4), Rect(0, 0, 10, 10));
  }

  // ---- loops ------------------------------------------------------------------------------------

  /** Formats and parameters of a blit; `scaling` is true in sw_stretch_blit. */
  datatype Job = Job(sf: Format, palette: seq<Color>, df: Format, para: BlitPara, scaling: bool)

  predicate JobOk(job: Job) {
    job.sf.bpp >= 1 && job.df.bpp >= 1
  }

  /** The bytes one pixel becomes. */
  function Convert(job: Job, s: seq<byte>, d: seq<byte>): (r: seq<byte>)
    requires JobOk(job) && |s| == job.sf.bpp && |d| == job.df.bpp
    ensures |r| == |d|
  {
    PixelOut(job.sf, job.palette, job.df, job.para, job.scaling, s, d)
  }

  /** The pixel operation of a job, on pixels of the right sizes. */
  function OpOf(job: Job): PixelOp
    requires JobOk(job)
  {
    (s: seq<byte>, d: seq<byte>) => if |s| == job.sf.bpp && |d| == job.df.bpp then Convert(job, s, d) else d
  }

  ghost predicate Implements(op: PixelOp, job: Job)
    requires JobOk(job)
  {
    forall s, d {:trigger Convert(job, s, d)} ::
      |s| == job.sf.bpp && |d| == job.df.bpp ==> op(s, d) == Convert(job, s, d)
  }

  lemma OpOfImplements(job: Job)
    requires JobOk(job)
    ensures Implements(OpOf(job), job) && OpSized(OpOf(job), job.sf.bpp, job.df.bpp)
  {
  }

  /** Between surfaces of one format of the table, with alpha and key off, pixels pass unchanged. */
  lemma SameFormatPasses(job: Job)
    requires job.sf == job.df == OsdFormat(job.sf.kind)
    requires !job.para.enableAlpha && !job.para.enableKey
    ensures JobOk(job) && CopiesPixels(OpOf(job), job.sf.bpp)
  {
    forall s, d | |s| == |d| == job.sf.bpp
      ensures OpOf(job)(s, d) == s
    {
      SameFormatCopies(job.sf.kind, job.palette, job.para, job.scaling, s, d);
    }
  }

  method CopyBytes(from: seq<byte>, dst: array<byte>, pd: int)
    requires 0 <= pd <= dst.Length - |from|
    modifies dst
    ensures dst[..] == Splice(old(dst[..]), pd, from)
  {
    ghost var before := dst[..];
    var i := 0;
    while i < |from|
      invariant 0 <= i <= |from|
      invariant dst[..] == Splice(before, pd, from[..i])
    {
      assert from[..i + 1] == from[..i] + [from[i]];
      SpliceNext(before, pd, from[..i], from[i], pd + i);
      dst[pd + i] := from[i];
      i := i + 1;
    }
    assert from[..i] == from;
  }

  // ---- one line of a scene ----------------------------------------------------------------------

  /**
   * Drawing line r of `lines` pixel by pixel: pixel c becomes px[c], converted from the source bytes at
   * from[c] and the old destination bytes at to[c], where it is stored.
   */
  datatype LineTask = LineTask(op: PixelOp, src: seq<byte>, buf: seq<byte>, starts: seq<int>, lines: seq<seq<byte>>,
                               len: int, r: nat, px: seq<seq<byte>>, from: seq<int>, to: seq<int>, sb: int, db: int)

  ghost predicate PixelTask(t: LineTask, c: int)
    requires t.r < |t.starts| && |t.from| == |t.to| == |t.px| && 0 <= c < |t.px|
  {
    && 0 <= t.from[c] <= t.from[c] + t.sb <= |t.src|
    && 0 <= t.to[c] <= t.to[c] + t.db <= |t.buf| && |t.px[c]| == t.db
    && t.px[c] == t.op(t.src[t.from[c]..t.from[c] + t.sb], t.buf[t.to[c]..t.to[c] + t.db])
    && t.to[c] == t.starts[t.r] + |Flat(t.px[..c])|
  }

  ghost predicate TaskOk(t: LineTask) {
    && LineIs(t.starts, t.lines, t.len, |t.buf|, t.px, t.r)
    && t.sb >= 1 && t.db >= 1 && |t.from| == |t.to| == |t.px| > 0
    && forall c :: 0 <= c < |t.px| ==> PixelTask(t, c)
  }

  ghost predicate TaskAt(t: LineTask, now: seq<byte>, c: nat)
    requires TaskOk(t) && c <= |t.px|
  {
    LineProgress(t.buf, t.starts, t.lines, t.len, t.px, t.r, now, c)
  }

  lemma TaskAdvances(t: LineTask, now: seq<byte>, c: nat)
    requires TaskOk(t) && c < |t.px| && TaskAt(t, now, c)
    ensures 0 <= t.from[c] <= t.from[c] + t.sb <= |t.src|
    ensures 0 <= t.to[c] <= t.to[c] + t.db <= |now|
    ensures var out := t.op(t.src[t.from[c]..t.from[c] + t.sb], now[t.to[c]..t.to[c] + t.db]);
            |out| == t.db && TaskAt(t, Splice(now, t.to[c], out), c + 1)
    ensures c + 1 < |t.px| ==> t.to[c + 1] == t.to[c] + t.db
  {
    assert PixelTask(t, c);
    LineAdvances(t.buf, t.starts, t.lines, t.len, t.px, t.r, now, c, t.to[c]);
    if c + 1 < |t.px| {
      assert PixelTask(t, c + 1);
      FlatNext(t.px, c);
    }
  }

  /** Convert, seen as the pixel operation it implements. */
  method Converted(job: Job, s: seq<byte>, d: seq<byte>, ghost op: PixelOp) returns (out: seq<byte>)
    requires JobOk(job) && Implements(op, job) && |s| == job.sf.bpp && |d| == job.df.bpp
    ensures out == op(s, d)
  {
    out := Convert(job, s, d);
  }

  /** One turn of the inner loop: convert the pixel at `ps` and store it at `pd`. */
  method ConvertPixel(job: Job, src: array<byte>, ps: int, dst: array<byte>, pd: int, ghost t: LineTask, ghost c: nat)
    requires src != dst && JobOk(job) && TaskOk(t) && c < |t.px| && Implements(t.op, job)
    requires job.sf.bpp == t.sb && job.df.bpp == t.db && src[..] == t.src
    requires ps == t.from[c] && pd == t.to[c] && TaskAt(t, dst[..], c)
    modifies dst
    ensures TaskAt(t, dst[..], c + 1)
    ensures c + 1 < |t.px| ==> t.to[c + 1] == pd + job.df.bpp
  {
    ghost var now := dst[..];
    TaskAdvances(t, now, c);
    var out := Converted(job, src[ps..ps + job.sf.bpp], dst[pd..pd + job.df.bpp], t.op);
    assert out == t.op(t.src[ps..ps + t.sb], now[pd..pd + t.db]);
    CopyBytes(out, dst, pd);
  }

  /** One line of the plain per-pixel path: both pointers move on by a pixel. */
  method ConvertLine(job: Job, src: array<byte>, psline: int, dst: array<byte>, pdline: int, w: int, ghost t: LineTask)
    requires src != dst && JobOk(job) && TaskOk(t) && Implements(t.op, job)
    requires job.sf.bpp == t.sb && job.df.bpp == t.db && src[..] == t.src && w == |t.px|
    requires psline == t.from[0] && forall c :: 0 < c < w ==> t.from[c] == t.from[c - 1] + job.sf.bpp
    requires pdline == t.to[0] && TaskAt(t, dst[..], 0)
    modifies dst
    ensures TaskAt(t, dst[..], w)
  {
    var ps, pd, dw := psline, pdline, 0;
    while dw < w
      invariant 0 <= dw <= w && src[..] == t.src
      invariant dw < w ==> ps == t.from[dw] && pd == t.to[dw]
      invariant TaskAt(t, dst[..], dw)
    {
      ConvertPixel(job, src, ps, dst, pd, t, dw);
      ps := ps + job.sf.bpp;
      pd := pd + job.df.bpp;
      dw := dw + 1;
    }
  }

  /** One line of the scaling path: the source pointer of each pixel comes from the offset table. */
  method ScaleLine(job: Job, src: array<byte>, psline: int, convx: array<int>, dst: array<byte>, pdline: int, w: int,
                   ghost t: LineTask)
    requires src != dst && JobOk(job) && TaskOk(t) && Implements(t.op, job)
    requires job.sf.bpp == t.sb && job.df.bpp == t.db && src[..] == t.src && w == |t.px| <= convx.Length
    requires forall c :: 0 <= c < w ==> t.from[c] == psline + convx[c]
    requires pdline == t.to[0] && TaskAt(t, dst[..], 0)
    modifies dst
    ensures TaskAt(t, dst[..], w)
  {
    var pd, x := pdline, 0;
    while x < w
      invariant 0 <= x <= w && src[..] == t.src
      invariant x < w ==> pd == t.to[x]
      invariant TaskAt(t, dst[..], x)
    {
      ConvertPixel(job, src, psline + convx[x], dst, pd, t, x);
      pd := pd + job.df.bpp;
      x := x + 1;
    }
  }

  // ---- the row loops ------------------------------------------------------------------------------

  /** All lines of a blit, how each is drawn, and where each source line starts. */
  datatype Run = Run(op: PixelOp, src: seq<byte>, dst: seq<byte>, starts: seq<int>, lines: seq<seq<byte>>, len: int,
                     w: nat, sb: int, db: int, tasks: seq<LineTask>, origins: seq<int>)

  ghost predicate RowOk(run: Run, h: int)
    requires 0 <= h < |run.tasks|
  {
    var t := run.tasks[h];
    && TaskOk(t) && t.op == run.op && t.src == run.src && t.buf == run.dst
    && t.starts == run.starts && t.lines == run.lines && t.len == run.len && t.r == h
    && |t.px| == run.w && t.sb == run.sb && t.db == run.db && t.to[0] == run.starts[h]
  }

  ghost predicate RunOk(run: Run) {
    && LinesOk(run.starts, run.lines, run.len, |run.dst|)
    && |run.tasks| == |run.origins| == |run.starts| && run.w > 0
    && forall h :: 0 <= h < |run.tasks| ==> RowOk(run, h)
  }

  /** The destination holds the first k lines. */
  ghost predicate RowsDone(run: Run, buf: seq<byte>, k: nat)
    requires RunOk(run) && k <= |run.starts|
  {
    buf == Overlay(run.dst, run.starts, run.lines, run.len, k)
  }

  /** Line starts `pitch` bytes apart. */
  predicate Spaced(starts: seq<int>, first: int, pitch: int) {
    && (starts != [] ==> starts[0] == first)
    && forall h :: 0 < h < |starts| ==> starts[h] == starts[h - 1] + pitch
  }

  lemma RowBegins(run: Run, buf: seq<byte>, h: nat)
    requires RunOk(run) && h < |run.tasks| && RowsDone(run, buf, h)
    ensures RowOk(run, h) && TaskAt(run.tasks[h], buf, 0)
  {
    assert RowOk(run, h);
    var t := run.tasks[h];
    LineBegins(t.buf, t.starts, t.lines, t.len, t.px, t.r);
  }

  lemma RowEnds(run: Run, buf: seq<byte>, h: nat)
    requires RunOk(run) && h < |run.tasks| && RowOk(run, h) && TaskAt(run.tasks[h], buf, run.w)
    ensures RowsDone(run, buf, h + 1)
  {
    var t := run.tasks[h];
    LineEnds(t.buf, t.starts, t.lines, t.len, t.px, t.r, buf);
  }

  /** Source pixels of row h follow each other. */
  predicate PlainRow(run: Run, h: int)
    requires 0 <= h < |run.tasks| && h < |run.origins|
  {
    var from := run.tasks[h].from;
    |from| == run.w > 0 && from[0] == run.origins[h] && forall c :: 0 < c < run.w ==> from[c] == from[c - 1] + run.sb
  }

  /** Row h, drawn, is a slice of the source. */
  ghost predicate CopiedRow(run: Run, h: int)
    requires RunOk(run) && 0 <= h < |run.tasks|
  {
    && 0 <= run.origins[h] <= run.origins[h] + run.len <= |run.src|
    && run.lines[h] == run.src[run.origins[h]..run.origins[h] + run.len]
  }

  lemma CopiedRowEnds(run: Run, buf: seq<byte>, h: nat)
    requires RunOk(run) && h < |run.tasks| && CopiedRow(run, h) && RowsDone(run, buf, h)
    ensures 0 <= run.origins[h] <= run.origins[h] + run.len <= |run.src|
    ensures run.lines[h] == run.src[run.origins[h]..run.origins[h] + run.len]
    ensures 0 <= run.starts[h] <= |buf| - |run.lines[h]| && |run.lines[h]| == run.len
    ensures RowsDone(run, Splice(buf, run.starts[h], run.lines[h]), h + 1)
  {
  }

  /** The row-copy loop of sw_normal_blit. */
  method CopyRows(src: array<byte>, psline0: int, spitch: int, dst: array<byte>, pdline0: int, dpitch: int,
                  len: int, rows: int, ghost run: Run)
    requires src != dst && RunOk(run) && src[..] == run.src && len == run.len && rows == |run.starts|
    requires Spaced(run.origins, psline0, spitch) && Spaced(run.starts, pdline0, dpitch)
    requires forall h :: 0 <= h < rows ==> CopiedRow(run, h)
    requires dst[..] == run.dst
    modifies dst
    ensures RowsDone(run, dst[..], rows)
  {
    var psline, pdline, h := psline0, pdline0, 0;
    while h < rows
      invariant 0 <= h <= rows && src[..] == run.src
      invariant h < rows ==> psline == run.origins[h] && pdline == run.starts[h]
      invariant RowsDone(run, dst[..], h)
    {
      CopiedRowEnds(run, dst[..], h);
      assert src[psline..psline + len] == run.lines[h];
      CopyBytes(src[psline..psline + len], dst, pdline);
      psline := psline + spitch;
      pdline := pdline + dpitch;
      h := h + 1;
    }
  }

  /** The per-pixel loop of sw_normal_blit. */
  method ConvertRows(job: Job, src: array<byte>, psline0: int, spitch: int, dst: array<byte>, pdline0: int, dpitch: int,
                     w: int, rows: int, ghost run: Run)
    requires src != dst && RunOk(run) && src[..] == run.src && w == run.w && rows == |run.starts|
    requires JobOk(job) && Implements(run.op, job) && job.sf.bpp == run.sb && job.df.bpp == run.db
    requires Spaced(run.origins, psline0, spitch) && Spaced(run.starts, pdline0, dpitch)
    requires forall h :: 0 <= h < rows ==> PlainRow(run, h)
    requires dst[..] == run.dst
    modifies dst
    ensures RowsDone(run, dst[..], rows)
  {
    var psline, pdline, h := psline0, pdline0, 0;
    while h < rows
      invariant 0 <= h <= rows && src[..] == run.src
      invariant h < rows ==> psline == run.origins[h] && pdline == run.starts[h]
      invariant RowsDone(run, dst[..], h)
    {
      RowBegins(run, dst[..], h);
      assert PlainRow(run, h);
      ConvertLine(job, src, psline, dst, pdline, w, run.tasks[h]);
      RowEnds(run, dst[..], h);
      psline := psline + spitch;
      pdline := pdline + dpitch;
      h := h + 1;
    }
  }

  /** Row y of a scaling blit reads source row y * from / to + top, by columns of the offset table. */
  ghost predicate ScaledRow(run: Run, y: int, convx: seq<int>, spitch: int, from: int, to: int, top: int)
    requires 0 <= y < |run.tasks| && y < |run.origins| && to != 0
  {
    && run.origins[y] == (CDiv(y * from, to) + top) * spitch
    && |run.tasks[y].from| == run.w <= |convx|
    && forall c :: 0 <= c < run.w ==> run.tasks[y].from[c] == run.origins[y] + convx[c]
  }

  /** The row loop of sw_stretch_blit. */
  method ScaleRows(job: Job, src: array<byte>, spitch: int, convx: array<int>, from: int, to: int, top: int,
                   dst: array<byte>, pdline0: int, dpitch: int, w: int, rows: int, ghost run: Run)
    requires src != dst && RunOk(run) && src[..] == run.src && w == run.w && rows == |run.starts| && to != 0
    requires JobOk(job) && Implements(run.op, job) && job.sf.bpp == run.sb && job.df.bpp == run.db
    requires Spaced(run.starts, pdline0, dpitch)
    requires forall y :: 0 <= y < rows ==> ScaledRow(run, y, convx[..], spitch, from, to, top)
    requires dst[..] == run.dst
    modifies dst
    ensures RowsDone(run, dst[..], rows)
  {
    var pdline, y := pdline0, 0;
    while y < rows
      invariant 0 <= y <= rows && src[..] == run.src
      invariant y < rows ==> pdline == run.starts[y]
      invariant RowsDone(run, dst[..], y)
    {
      RowBegins(run, dst[..], y);
      assert ScaledRow(run, y, convx[..], spitch, from, to, top);
      var psline := (CDiv(y * from, to) + top) * spitch;
      ScaleLine(job, src, psline, convx, dst, pdline, w, run.tasks[y]);
      RowEnds(run, dst[..], y);
      pdline := pdline + dpitch;
      y := y + 1;
    }
  }

  /** Fills the offset table: byte offset of the source column that each destination column samples. */
  method FillOffsets(convx: array<int>, n: int, from: int, to: int, left: int, bpp: int)
    requires 0 <= n <= convx.Length && to != 0
    modifies convx
    ensures forall i :: 0 <= i < n ==> convx[i] == ColumnOffset(i, from, to, left, bpp)
  {
    var i := 0;
    while i < n
      invariant 0 <= i <= n
      invariant forall k :: 0 <= k < i ==> convx[k] == ColumnOffset(k, from, to, left, bpp)
    {
      convx[i] := ColumnOffset(i, from, to, left, bpp);
      i := i + 1;
    }
  }

  function ColumnOffset(i: int, from: int, to: int, left: int, bpp: int): int
    requires to != 0
  {
    (CDiv(i * from, to) + left) * bpp
  }

  // ---- from scenes to runs ------------------------------------------------------------------------

  /** Where the pixels of row r are read and written. */
  ghost function ReadAt(sc: Scene, r: nat): (s: seq<int>)
    requires r < |sc.g.rows|
    ensures |s| == |sc.g.cols| && forall c :: 0 <= c < |s| ==> s[c] == At(sc.sl, sc.g.cols[c], sc.g.rows[r])
  {
    seq(|sc.g.cols|, c requires 0 <= c < |sc.g.cols| => At(sc.sl, sc.g.cols[c], sc.g.rows[r]))
  }

  ghost function WriteAt(sc: Scene, r: nat): (s: seq<int>)
    ensures |s| == |sc.g.cols| && forall c :: 0 <= c < |s| ==> s[c] == At(sc.dl, sc.g.x + c, sc.g.y + r)
  {
    seq(|sc.g.cols|, c => At(sc.dl, sc.g.x + c, sc.g.y + r))
  }

  ghost function RowTask(sc: Scene, r: nat): (t: LineTask)
    requires Ready(sc) && r < |sc.g.rows|
  {
    LineTask(sc.op, sc.src, sc.dst, LineStarts(sc), NewLines(sc), |sc.g.cols| * sc.dl.bpp, r,
             NewPixels(sc, r), ReadAt(sc, r), WriteAt(sc, r), sc.sl.bpp, sc.dl.bpp)
  }

  ghost function RowTasks(sc: Scene): (ts: seq<LineTask>)
    requires Ready(sc)
    ensures |ts| == |sc.g.rows| && forall r :: 0 <= r < |ts| ==> ts[r] == RowTask(sc, r)
  {
    seq(|sc.g.rows|, r requires 0 <= r < |sc.g.rows| => RowTask(sc, r))
  }

  /** The run of a scene; its source lines start at column `left`. */
  ghost function RunOf(sc: Scene, left: int): (run: Run)
    requires Ready(sc)
    ensures |run.origins| == |sc.g.rows|
    ensures forall r :: 0 <= r < |sc.g.rows| ==> run.origins[r] == At(sc.sl, left, sc.g.rows[r])
  {
    Run(sc.op, sc.src, sc.dst, LineStarts(sc), NewLines(sc), |sc.g.cols| * sc.dl.bpp, |sc.g.cols|,
        sc.sl.bpp, sc.dl.bpp, RowTasks(sc),
        seq(|sc.g.rows|, r requires 0 <= r < |sc.g.rows| => At(sc.sl, left, sc.g.rows[r])))
  }

  /** A new pixel in terms of the offsets it is read and written at. */
  lemma PixelBytes(sc: Scene, c: nat, r: nat, ps: int, pd: int)
    requires Ready(sc) && c < |sc.g.cols| && r < |sc.g.rows|
    requires ps == At(sc.sl, sc.g.cols[c], sc.g.rows[r]) && pd == At(sc.dl, sc.g.x + c, sc.g.y + r)
    ensures 0 <= ps <= ps + sc.sl.bpp <= |sc.src| && 0 <= pd <= pd + sc.dl.bpp <= |sc.dst|
    ensures NewPixel(sc, c, r) == sc.op(sc.src[ps..ps + sc.sl.bpp], sc.dst[pd..pd + sc.dl.bpp])
  {
    PixelSlice(sc.sl, sc.src, sc.g.cols[c], sc.g.rows[r], ps);
    PixelSlice(sc.dl, sc.dst, sc.g.x + c, sc.g.y + r, pd);
  }

  lemma PixelSlice(l: Layout, buf: seq<byte>, x: int, y: int, p: int)
    requires Fits(l) && |buf| == l.size && 0 <= x < l.width && 0 <= y < l.height && p == At(l, x, y)
    ensures 0 <= p <= p + l.bpp <= |buf| && PixelAt(l, buf, x, y) == buf[p..p + l.bpp]
  {
    AtInside(l, x, y, 1);
  }

  lemma PixelTaskOk(t: LineTask, sc: Scene, c: nat, r: nat, ps: int, pd: int)
    requires Ready(sc) && c < |sc.g.cols| && r < |sc.g.rows|
    requires t.op == sc.op && t.src == sc.src && t.buf == sc.dst && t.sb == sc.sl.bpp && t.db == sc.dl.bpp
    requires t.starts == LineStarts(sc) && t.r == r && t.px == NewPixels(sc, r) && |t.from| == |t.to| == |t.px|
    requires t.from[c] == ps == At(sc.sl, sc.g.cols[c], sc.g.rows[r])
    requires t.to[c] == pd == At(sc.dl, sc.g.x + c, sc.g.y + r)
    ensures PixelTask(t, c)
  {
    PixelPlace(t, sc, c, r, pd);
    PixelContents(t, sc, c, r, ps, pd);
  }

  lemma PixelPlace(t: LineTask, sc: Scene, c: nat, r: nat, pd: int)
    requires Ready(sc) && c < |sc.g.cols| && r < |sc.g.rows| && t.starts == LineStarts(sc) && t.px == NewPixels(sc, r)
    requires pd == At(sc.dl, sc.g.x + c, sc.g.y + r)
    ensures pd == t.starts[r] + |Flat(t.px[..c])|
  {
    PixelPosition(sc, c, r);
  }

  lemma PixelContents(t: LineTask, sc: Scene, c: nat, r: nat, ps: int, pd: int)
    requires Ready(sc) && c < |sc.g.cols| && r < |sc.g.rows| && t.px == NewPixels(sc, r)
    requires t.op == sc.op && t.src == sc.src && t.buf == sc.dst && t.sb == sc.sl.bpp && t.db == sc.dl.bpp
    requires ps == At(sc.sl, sc.g.cols[c], sc.g.rows[r]) && pd == At(sc.dl, sc.g.x + c, sc.g.y + r)
    ensures 0 <= ps <= ps + t.sb <= |t.src| && 0 <= pd <= pd + t.db <= |t.buf|
    ensures |t.px[c]| == t.db && t.px[c] == t.op(t.src[ps..ps + t.sb], t.buf[pd..pd + t.db])
  {
    PixelBytes(sc, c, r, ps, pd);
    assert t.px[c] == NewPixel(sc, c, r);
  }

  lemma RowTaskOk(sc: Scene, r: nat, t: LineTask)
    requires Ready(sc) && r < |sc.g.rows| && sc.g.cols != [] && t == RowTask(sc, r)
    ensures TaskOk(t)
  {
    NewLinesOk(sc);
    forall c | 0 <= c < |sc.g.cols|
      ensures PixelTask(t, c)
    {
      PixelTaskOk(t, sc, c, r, t.from[c], t.to[c]);
    }
  }

  lemma RunRowOk(sc: Scene, left: int, r: nat)
    requires Ready(sc) && r < |sc.g.rows| && sc.g.cols != []
    ensures RowOk(RunOf(sc, left), r)
  {
    var t := RowTask(sc, r);
    RowTaskOk(sc, r, t);
    assert t.to[0] == LineStarts(sc)[r];
  }

  lemma RunOfOk(sc: Scene, left: int)
    requires Ready(sc) && sc.g.cols != []
    ensures RunOk(RunOf(sc, left))
    ensures Spaced(LineStarts(sc), At(sc.dl, sc.g.x, sc.g.y), sc.dl.pitch)
  {
    NewLinesOk(sc);
    forall r | 0 <= r < |sc.g.rows|
      ensures RowOk(RunOf(sc, left), r)
    {
      RunRowOk(sc, left, r);
    }
    forall r | 0 < r < |sc.g.rows|
      ensures LineStarts(sc)[r] == LineStarts(sc)[r - 1] + sc.dl.pitch
    {
      AtStep(sc.dl, sc.g.x, sc.g.y + r - 1);
    }
  }

  /** The run's last state is the blit's result. */
  lemma RunEnds(sc: Scene, left: int, buf: seq<byte>)
    requires Ready(sc) && RunOk(RunOf(sc, left)) && RowsDone(RunOf(sc, left), buf, |sc.g.rows|)
    ensures buf == Blitted(sc)
  {
  }

  /** The grid of the plain blit: adjacent columns from `left`, adjacent rows from `top`. */
  ghost predicate Plain(g: Grid, left: int, top: int) {
    && g.cols != [] && g.rows != []
    && (forall i :: 0 <= i < |g.cols| ==> g.cols[i] == left + i)
    && (forall i :: 0 <= i < |g.rows| ==> g.rows[i] == top + i)
  }

  lemma PlainRun(sc: Scene, left: int, top: int, psline: int, pdline: int)
    requires Ready(sc) && Plain(sc.g, left, top)
    requires psline == At(sc.sl, left, top) && pdline == At(sc.dl, sc.g.x, sc.g.y)
    ensures RunOk(RunOf(sc, left))
    ensures Spaced(RunOf(sc, left).origins, psline, sc.sl.pitch)
    ensures Spaced(RunOf(sc, left).starts, pdline, sc.dl.pitch)
    ensures forall h :: 0 <= h < |sc.g.rows| ==> PlainRow(RunOf(sc, left), h)
  {
    RunOfOk(sc, left);
    forall h | 0 < h < |sc.g.rows|
      ensures RunOf(sc, left).origins[h] == RunOf(sc, left).origins[h - 1] + sc.sl.pitch
    {
      AtStep(sc.sl, left, top + h - 1);
    }
    forall h | 0 <= h < |sc.g.rows|
      ensures PlainRow(RunOf(sc, left), h)
    {
      PlainRunRow(sc, left, top, h);
    }
  }

  lemma PlainRunRow(sc: Scene, left: int, top: int, h: nat)
    requires Ready(sc) && Plain(sc.g, left, top) && h < |sc.g.rows|
    ensures PlainRow(RunOf(sc, left), h)
  {
    PlainReads(sc, left, top, h, ReadAt(sc, h));
  }

  lemma PlainReads(sc: Scene, left: int, top: int, h: nat, from: seq<int>)
    requires Plain(sc.g, left, top) && h < |sc.g.rows| && from == ReadAt(sc, h)
    ensures |from| == |sc.g.cols| > 0 && from[0] == At(sc.sl, left, sc.g.rows[h])
    ensures forall c :: 0 < c < |from| ==> from[c] == from[c - 1] + sc.sl.bpp
  {
    forall c | 0 < c < |from|
      ensures from[c] == from[c - 1] + sc.sl.bpp
    {
      ReadStep(sc, h, c);
    }
  }

  lemma ReadStep(sc: Scene, h: nat, c: nat)
    requires h < |sc.g.rows| && 0 < c < |sc.g.cols| && sc.g.cols[c] == sc.g.cols[c - 1] + 1
    ensures ReadAt(sc, h)[c] == ReadAt(sc, h)[c - 1] + sc.sl.bpp
  {
    AtStep(sc.sl, sc.g.cols[c - 1], sc.g.rows[h]);
  }

  lemma CopiedRun(sc: Scene, left: int, top: int)
    requires Ready(sc) && Plain(sc.g, left, top) && RunOk(RunOf(sc, left))
    requires CopiesPixels(sc.op, sc.sl.bpp) && sc.sl.bpp == sc.dl.bpp
    ensures forall h :: 0 <= h < |sc.g.rows| ==> CopiedRow(RunOf(sc, left), h)
  {
    forall h | 0 <= h < |sc.g.rows|
      ensures CopiedRow(RunOf(sc, left), h)
    {
      var from := At(sc.sl, left, sc.g.rows[h]);
      RowCopies(sc, h, left, from, from + |sc.g.cols| * sc.sl.bpp);
    }
  }

  /** What both blits need of the surfaces: matching layouts, and a drawn rectangle on the destination. */
  predicate Surfaces(sc: Scene, sw: int, sh: int, drawn: Rect) {
    && Fits(sc.sl) && Fits(sc.dl) && sc.sl.width == sw && sc.sl.height == sh
    && |sc.src| == sc.sl.size && |sc.dst| == sc.dl.size
    && Inside(drawn, Rect(0, 0, sc.dl.width, sc.dl.height))
  }

  lemma NormalReady(sw: int, sh: int, sr: Rect, clip: Rect, dr: Rect, sc: Scene)
    requires NormalPlan(sw, sh, sr, clip, dr).Some?
    requires OpSized(sc.op, sc.sl.bpp, sc.dl.bpp)
    requires Surfaces(sc, sw, sh, NormalPlan(sw, sh, sr, clip, dr).value.dst)
    requires sc.g == NormalGrid(NormalPlan(sw, sh, sr, clip, dr).value)
    ensures var p := NormalPlan(sw, sh, sr, clip, dr).value; Ready(sc) && Plain(sc.g, p.src.x, p.src.y)
  {
    NormalPlanCovers(sw, sh, sr, clip, dr, 0, 0);
  }

  lemma StretchReady(sw: int, sh: int, sr: Rect, clip: Rect, dr: Rect, sc: Scene)
    requires MakePlan(sw, sh, sr, clip, dr).Some?
    requires EdgeSafe(sr.x, sr.w, dr.w, clip.x, dr.x) && EdgeSafe(sr.y, sr.h, dr.h, clip.y, dr.y)
    requires OpSized(sc.op, sc.sl.bpp, sc.dl.bpp)
    requires Surfaces(sc, sw, sh, MakePlan(sw, sh, sr, clip, dr).value.dst)
    requires sc.g == StretchGrid(MakePlan(sw, sh, sr, clip, dr).value, sr, dr)
    ensures Ready(sc) && sc.g.cols != []
  {
    SamplesOnSurface(sw, sh, sr, clip, dr);
  }

  /** The run of a scaling blit: spaced destination lines, source pixels through the offset table. */
  lemma ScaledRun(sc: Scene, p: Plan, sr: Rect, dr: Rect, convx: seq<int>, pdline: int)
    requires Ready(sc) && sc.g.cols != []
    requires p.dst.w >= 0 && p.dst.h >= 0 && dr.w != 0 && dr.h != 0 && sc.g == StretchGrid(p, sr, dr)
    requires p.dst.w <= |convx|
    requires forall i :: 0 <= i < p.dst.w ==> convx[i] == ColumnOffset(i, sr.w, dr.w, p.src.x, sc.sl.bpp)
    requires pdline == At(sc.dl, sc.g.x, sc.g.y)
    ensures RunOk(RunOf(sc, 0)) && Spaced(RunOf(sc, 0).starts, pdline, sc.dl.pitch)
    ensures forall y :: 0 <= y < |sc.g.rows| ==> ScaledRow(RunOf(sc, 0), y, convx, sc.sl.pitch, sr.h, dr.h, p.src.y)
  {
    RunOfOk(sc, 0);
    forall y | 0 <= y < |sc.g.rows|
      ensures ScaledRow(RunOf(sc, 0), y, convx, sc.sl.pitch, sr.h, dr.h, p.src.y)
    {
      ScaledRunRow(sc, p, sr, dr, convx, y, RunOf(sc, 0));
    }
  }

  lemma ScaledRunRow(sc: Scene, p: Plan, sr: Rect, dr: Rect, convx: seq<int>, y: nat, run: Run)
    requires p.dst.w >= 0 && p.dst.h >= 0 && dr.w != 0 && dr.h != 0 && sc.g == StretchGrid(p, sr, dr)
    requires p.dst.w <= |convx| && y < |sc.g.rows| && y < |run.tasks| && y < |run.origins| && run.w == |sc.g.cols|
    requires forall i :: 0 <= i < p.dst.w ==> convx[i] == ColumnOffset(i, sr.w, dr.w, p.src.x, sc.sl.bpp)
    requires run.tasks[y].from == ReadAt(sc, y) && run.origins[y] == At(sc.sl, 0, sc.g.rows[y])
    ensures ScaledRow(run, y, convx, sc.sl.pitch, sr.h, dr.h, p.src.y)
  {
    forall c | 0 <= c < |sc.g.cols|
      ensures ReadAt(sc, y)[c] == At(sc.sl, 0, sc.g.rows[y]) + convx[c]
    {
      ScaledPixel(sc, p, sr, dr, convx, y, c);
    }
  }

  lemma ScaledPixel(sc: Scene, p: Plan, sr: Rect, dr: Rect, convx: seq<int>, y: nat, c: nat)
    requires p.dst.w >= 0 && p.dst.h >= 0 && dr.w != 0 && dr.h != 0 && sc.g == StretchGrid(p, sr, dr)
    requires y < |sc.g.rows| && c < |sc.g.cols| && c < |convx|
    requires convx[c] == ColumnOffset(c, sr.w, dr.w, p.src.x, sc.sl.bpp)
    ensures ReadAt(sc, y)[c] == At(sc.sl, 0, sc.g.rows[y]) + convx[c]
  {
    assert sc.g.cols[c] == SourceColumn(p, sr, dr, c);
  }

  /** Outcome of a blit on the destination bytes; without a grid nothing is drawn. */
  ghost predicate BlitDone(op: PixelOp, sl: Layout, dl: Layout, g: Option<Grid>,
                           src: seq<byte>, before: seq<byte>, after: seq<byte>) {
    match g
    case None => after == before
    case Some(g) => Ready(Scene(op, g, sl, dl, src, before)) && after == Blitted(Scene(op, g, sl, dl, src, before))
  }

  predicate Draws(g: Grid, x: int, y: int) {
    g.x <= x < g.x + |g.cols| && g.y <= y < g.y + |g.rows|
  }

  /** A blit pixel by pixel: drawn pixels are converted over their old value, others keep their bytes. */
  lemma DonePixel(op: PixelOp, sl: Layout, dl: Layout, g: Grid, src: seq<byte>, before: seq<byte>, after: seq<byte>,
                  x: int, y: int)
    requires BlitDone(op, sl, dl, Some(g), src, before, after)
    requires 0 <= x < dl.width && 0 <= y < dl.height
    ensures Fits(sl) && Fits(dl) && |src| == sl.size && |before| == |after| == dl.size
    ensures !Draws(g, x, y) ==> PixelAt(dl, after, x, y) == PixelAt(dl, before, x, y)
    ensures Draws(g, x, y) ==>
              var sx, sy := g.cols[x - g.x], g.rows[y - g.y];
              && 0 <= sx < sl.width && 0 <= sy < sl.height
              && PixelAt(dl, after, x, y) == op(PixelAt(sl, src, sx, sy), PixelAt(dl, before, x, y))
  {
    var sc := Scene(op, g, sl, dl, src, before);
    if Draws(g, x, y) {
      BlittedPixel(sc, x, y, g.cols[x - g.x], g.rows[y - g.y]);
    } else {
      BlittedOutside(sc, x, y);
    }
  }

  /** The rectangle that a plan draws. */
  function Drawn(p: Option<Plan>): Option<Rect> {
    if p.None? then None else Some(p.value.dst)
  }

  /** Grid of sw_normal_blit. */
  function NormalGridOf(sl: Layout, sr: Rect, clip: Rect, dr: Rect): Option<Grid> {
    var p := NormalPlan(sl.width, sl.height, sr, clip, dr);
    if p.None? then None else Some(NormalGrid(p.value))
  }

  /** Grid of sw_stretch_blit. */
  function StretchGridOf(sl: Layout, sr: Rect, clip: Rect, dr: Rect): Option<Grid> {
    var p := MakePlan(sl.width, sl.height, sr, clip, dr);
    if p.None? then None else Some(StretchGrid(p.value, sr, dr))
  }

  /** The source of pixel (x, y) of a plain blit is requested, exists, and the pixel may be written. */
  predicate Translated(sl: Layout, sr: Rect, clip: Rect, dr: Rect, x: int, y: int) {
    var sx, sy := x - dr.x + sr.x, y - dr.y + sr.y;
    Covers(clip, x, y) && Covers(sr, sx, sy) && Covers(Rect(0, 0, sl.width, sl.height), sx, sy)
  }

  /** The plain blit draws exactly the pixels whose translated source exists, each from that source. */
  lemma NormalGridTranslates(sl: Layout, sr: Rect, clip: Rect, dr: Rect, x: int, y: int, sx: int, sy: int)
    requires sx == x - dr.x + sr.x && sy == y - dr.y + sr.y
    ensures var g := NormalGridOf(sl, sr, clip, dr);
            && (Translated(sl, sr, clip, dr, x, y) <==> g.Some? && Draws(g.value, x, y))
            && (Translated(sl, sr, clip, dr, x, y) ==>
                  g.value.cols[x - g.value.x] == sx && g.value.rows[y - g.value.y] == sy)
  {
    NormalPlanCovers(sl.width, sl.height, sr, clip, dr, x, y);
  }

  /**
   * The plain blit, pixel by pixel: a clip pixel with a source pixel becomes that pixel converted over its
   * old value, any other pixel of the surface keeps its bytes.
   */
  lemma NormalBlitPixel(op: PixelOp, sl: Layout, dl: Layout, sr: Rect, clip: Rect, dr: Rect,
                        src: seq<byte>, before: seq<byte>, after: seq<byte>, x: int, y: int, sx: int, sy: int)
    requires Fits(sl) && Fits(dl) && |src| == sl.size && |before| == dl.size
    requires BlitDone(op, sl, dl, NormalGridOf(sl, sr, clip, dr), src, before, after)
    requires 0 <= x < dl.width && 0 <= y < dl.height
    requires sx == x - dr.x + sr.x && sy == y - dr.y + sr.y
    ensures |after| == |before|
    ensures Translated(sl, sr, clip, dr, x, y) ==>
              PixelAt(dl, after, x, y) == op(PixelAt(sl, src, sx, sy), PixelAt(dl, before, x, y))
    ensures !Translated(sl, sr, clip, dr, x, y) ==> PixelAt(dl, after, x, y) == PixelAt(dl, before, x, y)
  {
    var hit, g := Translated(sl, sr, clip, dr, x, y), NormalGridOf(sl, sr, clip, dr);
    assert hit <==> g.Some? && Draws(g.value, x, y) by {
      NormalGridTranslates(sl, sr, clip, dr, x, y, sx, sy);
    }
    assert hit ==> g.value.cols[x - g.value.x] == sx && g.value.rows[y - g.value.y] == sy by {
      NormalGridTranslates(sl, sr, clip, dr, x, y, sx, sy);
    }
    GridPixel(op, sl, dl, g, src, before, after, x, y, sx, sy, hit);
  }

  /** The same from the grid: a pixel that it draws from (sx, sy), a hit, and one that it does not draw. */
  lemma GridPixel(op: PixelOp, sl: Layout, dl: Layout, g: Option<Grid>, src: seq<byte>, before: seq<byte>,
                  after: seq<byte>, x: int, y: int, sx: int, sy: int, hit: bool)
    requires Fits(sl) && Fits(dl) && |src| == sl.size && |before| == dl.size
    requires BlitDone(op, sl, dl, g, src, before, after)
    requires 0 <= x < dl.width && 0 <= y < dl.height
    requires hit <==> g.Some? && Draws(g.value, x, y)
    requires hit ==> g.value.cols[x - g.value.x] == sx && g.value.rows[y - g.value.y] == sy
    ensures |after| == |before|
    ensures if hit
            then 0 <= sx < sl.width && 0 <= sy < sl.height
                 && PixelAt(dl, after, x, y) == op(PixelAt(sl, src, sx, sy), PixelAt(dl, before, x, y))
            else PixelAt(dl, after, x, y) == PixelAt(dl, before, x, y)
  {
    if g.Some? {
      DonePixel(op, sl, dl, g.value, src, before, after, x, y);
    }
  }

  /**
   * Where pixels pass unchanged, as SameFormatPasses shows between equal formats with alpha and key off,
   * the outcome of the plain blit is a translated copy of the source pixels.
   */
  lemma SameFormatBlitCopies(op: PixelOp, sl: Layout, dl: Layout, sr: Rect, clip: Rect, dr: Rect,
                             src: seq<byte>, before: seq<byte>, after: seq<byte>, x: int, y: int, sx: int, sy: int)
    requires Fits(sl) && Fits(dl) && |src| == sl.size && |before| == dl.size
    requires CopiesPixels(op, sl.bpp) && sl.bpp == dl.bpp
    requires BlitDone(op, sl, dl, NormalGridOf(sl, sr, clip, dr), src, before, after)
    requires 0 <= x < dl.width && 0 <= y < dl.height && Translated(sl, sr, clip, dr, x, y)
    requires sx == x - dr.x + sr.x && sy == y - dr.y + sr.y
    ensures |after| == |before|
    ensures PixelAt(dl, after, x, y) == PixelAt(sl, src, sx, sy)
  {
    NormalBlitPixel(op, sl, dl, sr, clip, dr, src, before, after, x, y, sx, sy);
  }

  class SwBlitter {
    /** The static table of source byte offsets, one per destination column. */
    const convx: array<int>

    constructor ()
      ensures fresh(convx) && convx.Length == MAX_W
    {
      convx := new int[MAX_W];
    }

    /**
     * sw_normal_blit. Whichever loop runs, the destination ends as the per-pixel conversion of the
     * translated, clipped rectangle; this rectangle has to lie on the surface.
     */
    method NormalBlit(src: Surface, sr: Rect, dst: Surface, dr: Rect, para: BlitPara)
      requires src.Valid() && dst.Valid() && src.buffer != dst.buffer
      requires OnSurface(Drawn(NormalPlan(src.width, src.height, sr, dst.clip, dr)), dst.width, dst.height)
      modifies dst.buffer
      ensures JobOk(Job(src.format, src.palette, dst.format, para, false))
      ensures BlitDone(OpOf(Job(src.format, src.palette, dst.format, para, false)), src.Lay(), dst.Lay(),
                       NormalGridOf(src.Lay(), sr, dst.clip, dr),
                       src.buffer[..], old(dst.buffer[..]), dst.buffer[..])
    {
      var plan := NormalPlan(src.width, src.height, sr, dst.clip, dr);
      if plan.None? {
        return;
      }
      var job := Job(src.format, src.palette, dst.format, para, false);
      OpOfImplements(job);
      ghost var sc := Scene(OpOf(job), NormalGrid(plan.value), src.Lay(), dst.Lay(), src.buffer[..], dst.buffer[..]);
      NormalReady(src.width, src.height, sr, dst.clip, dr, sc);
      DrawPlain(job, src, plan.value.src, dst, plan.value.dst, sc);
    }

    /** Both loops of sw_normal_blit, from the clipped rectangles. */
    method DrawPlain(job: Job, src: Surface, dsr: Rect, dst: Surface, ddr: Rect, ghost sc: Scene)
      requires src.buffer != dst.buffer && Ready(sc) && Plain(sc.g, dsr.x, dsr.y)
      requires sc.sl == src.Lay() && sc.dl == dst.Lay() && src.buffer[..] == sc.src && dst.buffer[..] == sc.dst
      requires |sc.g.cols| == dsr.w && |sc.g.rows| == dsr.h && sc.g.x == ddr.x && sc.g.y == ddr.y
      requires job.sf == src.format == OsdFormat(src.format.kind) && job.df == dst.format == OsdFormat(dst.format.kind)
      requires JobOk(job) && sc.op == OpOf(job) && Implements(sc.op, job)
      modifies dst.buffer
      ensures dst.buffer[..] == Blitted(sc)
    {
      var psline := src.pitch * dsr.y + dsr.x * src.format.bpp;
      var pdline := dst.pitch * ddr.y + ddr.x * dst.format.bpp;
      PlainRun(sc, dsr.x, dsr.y, psline, pdline);
      if src.format.kind == dst.format.kind && !job.para.enableAlpha && !job.para.enableKey {
        SameFormatPasses(job);
        CopiedRun(sc, dsr.x, dsr.y);
        var len := dsr.w * src.format.bpp;
        assert len == RunOf(sc, dsr.x).len;
        CopyRows(src.buffer, psline, src.pitch, dst.buffer, pdline, dst.pitch, len, dsr.h, RunOf(sc, dsr.x));
      } else {
        ConvertRows(job, src.buffer, psline, src.pitch, dst.buffer, pdline, dst.pitch, dsr.w, dsr.h, RunOf(sc, dsr.x));
      }
      RunEnds(sc, dsr.x, dst.buffer[..]);
    }

    /**
     * sw_stretch_blit, for rectangles that pass the edge condition on both axes and a drawn rectangle on
     * the surface: the destination ends as the per-pixel conversion of the sampled source pixels.
     */
    method StretchBlit(src: Surface, sr: Rect, dst: Surface, dr: Rect, para: BlitPara)
      requires src.Valid() && dst.Valid() && src.buffer != dst.buffer && convx.Length == MAX_W
      requires OnSurface(Drawn(MakePlan(src.width, src.height, sr, dst.clip, dr)), dst.width, dst.height)
      requires MakePlan(src.width, src.height, sr, dst.clip, dr).Some? ==>
                 && EdgeSafe(sr.x, sr.w, dr.w, dst.clip.x, dr.x)
                 && EdgeSafe(sr.y, sr.h, dr.h, dst.clip.y, dr.y)
      modifies dst.buffer, convx
      ensures JobOk(Job(src.format, src.palette, dst.format, para, true))
      ensures BlitDone(OpOf(Job(src.format, src.palette, dst.format, para, true)), src.Lay(), dst.Lay(),
                       StretchGridOf(src.Lay(), sr, dst.clip, dr),
                       src.buffer[..], old(dst.buffer[..]), dst.buffer[..])
    {
      var plan := MakePlan(src.width, src.height, sr, dst.clip, dr);
      if plan.None? {
        return;
      }
      var job := Job(src.format, src.palette, dst.format, para, true);
      OpOfImplements(job);
      ghost var sc := Scene(OpOf(job), StretchGrid(plan.value, sr, dr), src.Lay(), dst.Lay(),
                            src.buffer[..], dst.buffer[..]);
      StretchReady(src.width, src.height, sr, dst.clip, dr, sc);
      DrawScaled(job, src, sr, dst, dr, plan.value, sc);
    }

    /** The loops of sw_stretch_blit, from the planned rectangles. */
    method DrawScaled(job: Job, src: Surface, sr: Rect, dst: Surface, dr: Rect, p: Plan, ghost sc: Scene)
      requires src.buffer != dst.buffer && Ready(sc) && sc.g.cols != []
      requires sc.sl == src.Lay() && sc.dl == dst.Lay() && src.buffer[..] == sc.src && dst.buffer[..] == sc.dst
      requires 0 <= p.dst.w <= convx.Length && 0 <= p.dst.h && dr.w != 0 && dr.h != 0 && sc.g == StretchGrid(p, sr, dr)
      requires job.sf == src.format && job.df == dst.format
      requires JobOk(job) && sc.op == OpOf(job) && Implements(sc.op, job)
      modifies dst.buffer, convx
      ensures dst.buffer[..] == Blitted(sc)
    {
      var pdline := dst.pitch * p.dst.y + p.dst.x * dst.format.bpp;
      FillOffsets(convx, p.dst.w, sr.w, dr.w, p.src.x, src.format.bpp);
      ScaledRun(sc, p, sr, dr, convx[..], pdline);
      ScaleRows(job, src.buffer, src.pitch, convx, sr.h, dr.h, p.src.y, dst.buffer, pdline, dst.pitch,
                p.dst.w, p.dst.h, RunOf(sc, 0));
      RunEnds(sc, 0, dst.buffer[..]);
    }

    /** sw_blit: equal sizes take the plain blit, others the scaling one. */
    method BlitSurface(src: Surface, sr: Rect, dst: Surface, dr: Rect, para: BlitPara)
      requires src.Valid() && dst.Valid() && src.buffer != dst.buffer && convx.Length == MAX_W
      requires OnSurface(if sr.w == dr.w && sr.h == dr.h then Drawn(NormalPlan(src.width, src.height, sr, dst.clip, dr))
                         else Drawn(MakePlan(src.width, src.height, sr, dst.clip, dr)), dst.width, dst.height)
      requires sr.w != dr.w || sr.h != dr.h ==>
                 MakePlan(src.width, src.height, sr, dst.clip, dr).Some? ==>
                   && EdgeSafe(sr.x, sr.w, dr.w, dst.clip.x, dr.x)
                   && EdgeSafe(sr.y, sr.h, dr.h, dst.clip.y, dr.y)
      modifies dst.buffer, convx
      ensures JobOk(Job(src.format, src.palette, dst.format, para, sr.w != dr.w || sr.h != dr.h))
      ensures BlitDone(OpOf(Job(src.format, src.palette, dst.format, para, sr.w != dr.w || sr.h != dr.h)),
                       src.Lay(), dst.Lay(),
                       if sr.w == dr.w && sr.h == dr.h then NormalGridOf(src.Lay(), sr, dst.clip, dr)
                       else StretchGridOf(src.Lay(), sr, dst.clip, dr),
                       src.buffer[..], old(dst.buffer[..]), dst.buffer[..])
    {
      if sr.w == dr.w && sr.h == dr.h {
        NormalBlit(src, sr, dst, dr, para);
      } else {
        StretchBlit(src, sr, dst, dr, para);
      }
    }
  }
}
