// Rectangles of pixels inside a byte buffer: what the row loops of am_adp/am_osd/sw_op.c leave in the
// destination buffer, and what that means pixel by pixel.

module Raster {
  import opened Arith
  import opened Bits
  import opened Seqs

  /** How a surface's pixels lie in its buffer. */
  datatype Layout = Layout(width: int, height: int, pitch: int, bpp: int, size: int)

  predicate Fits(l: Layout) {
    && l.width >= 0 && l.height >= 0 && l.bpp >= 1
    && l.width * l.bpp <= l.pitch
    && l.pitch * l.height <= l.size
  }

  /** Offset of pixel (x, y): buffer + pitch * y + x * bytes_per_pixel. */
  function At(l: Layout, x: int, y: int): int {
    l.pitch * y + x * l.bpp
  }

  lemma AtInside(l: Layout, x: int, y: int, n: int)
    requires Fits(l) && 0 <= x && 0 <= n && x + n <= l.width && 0 <= y < l.height
    ensures 0 <= l.pitch && 0 <= x * l.bpp && 0 <= n * l.bpp
    ensures x * l.bpp + n * l.bpp <= l.pitch
    ensures 0 <= At(l, x, y) && At(l, x, y) + n * l.bpp <= l.size
  {
    MulOrder(l.bpp, 0, x);
    MulOrder(l.bpp, 0, n);
    MulAdd(l.bpp, x, n);
    MulOrder(l.bpp, x + n, l.width);
    MulOrder(l.bpp, 0, l.width);
    if l.pitch > 0 {
      MulOrder(l.pitch, 0, y);
      MulAdd(l.pitch, y, 1);
      MulOrder(l.pitch, y + 1, l.height);
    }
  }

  lemma AtStep(l: Layout, x: int, y: int)
    ensures At(l, x, y + 1) == At(l, x, y) + l.pitch
    ensures At(l, x + 1, y) == At(l, x, y) + l.bpp
  {
    MulAdd(l.pitch, y, 1);
    MulAdd(l.bpp, x, 1);
  }

  lemma AtColumn(l: Layout, x: int, c: int, y: int)
    ensures At(l, x + c, y) == At(l, x, y) + c * l.bpp
  {
    MulAdd(l.bpp, x, c);
  }

  /** Rows further down lie behind, by at least a pitch. */
  lemma AtRows(l: Layout, x: int, y: int, y': int)
    requires l.pitch >= 0 && y < y'
    ensures At(l, x, y) + l.pitch <= At(l, x, y')
  {
    MulAdd(l.pitch, y, 1);
    if l.pitch > 0 {
      MulOrder(l.pitch, y + 1, y');
    }
  }

  // ---- splicing lines into a buffer ---------------------------------------------------------------

  lemma SplicedBytes(buf: seq<byte>, at: int, bytes: seq<byte>)
    requires 0 <= at && at + |bytes| <= |buf|
    ensures Splice(buf, at, bytes)[at..at + |bytes|] == bytes
  {
  }

  lemma SplicedElsewhere(buf: seq<byte>, at: int, bytes: seq<byte>, from: int, to: int)
    requires 0 <= from <= to <= |buf| && 0 <= at && at + |bytes| <= |buf|
    requires to <= at || at + |bytes| <= from
    ensures Splice(buf, at, bytes)[from..to] == buf[from..to]
  {
  }

  /** Lines of one length, in order, that do not overlap and lie inside a buffer of the given size. */
  ghost predicate LinesOk(starts: seq<int>, lines: seq<seq<byte>>, len: int, size: int) {
    && |starts| == |lines| && len >= 0
    && (forall k :: 0 <= k < |lines| ==> |lines[k]| == len)
    && (forall k :: 0 <= k < |starts| ==> 0 <= starts[k] <= size - len)
    && (forall k, m :: 0 <= k < m < |starts| ==> starts[k] + len <= starts[m])
  }

  /** The buffer with its first k lines replaced. */
  ghost function Overlay(buf: seq<byte>, starts: seq<int>, lines: seq<seq<byte>>, len: int, k: nat): (r: seq<byte>)
    requires LinesOk(starts, lines, len, |buf|) && k <= |starts|
    ensures |r| == |buf|
    decreases k
  {
    if k == 0 then buf else Splice(Overlay(buf, starts, lines, len, k - 1), starts[k - 1], lines[k - 1])
  }

  predicate OnLine(start: int, len: int, j: int) {
    start <= j < start + len
  }

  lemma {:induction false} OverlayOutside(buf: seq<byte>, starts: seq<int>, lines: seq<seq<byte>>, len: int, k: nat,
                                           j: nat)
    requires LinesOk(starts, lines, len, |buf|) && k <= |starts| && j < |buf|
    requires forall r :: 0 <= r < k ==> !OnLine(starts[r], len, j)
    ensures Overlay(buf, starts, lines, len, k)[j] == buf[j]
    decreases k
  {
    if k > 0 {
      OverlayOutside(buf, starts, lines, len, k - 1, j);
      assert !OnLine(starts[k - 1], len, j);
    }
  }

  /** A line not replaced yet is the old line. */
  lemma OverlayLater(buf: seq<byte>, starts: seq<int>, lines: seq<seq<byte>>, len: int, k: nat, now: seq<byte>)
    requires LinesOk(starts, lines, len, |buf|) && k < |starts| && now == Overlay(buf, starts, lines, len, k)
    ensures now[starts[k]..starts[k] + len] == buf[starts[k]..starts[k] + len]
  {
    var at := starts[k];
    forall j | at <= j < at + len
      ensures now[j] == buf[j]
    {
      OverlayOutside(buf, starts, lines, len, k, j);
    }
    assert now[at..at + len] == buf[at..at + len];
  }

  /** A replaced line stays while later lines are replaced. */
  lemma {:induction false} OverlayLine(buf: seq<byte>, starts: seq<int>, lines: seq<seq<byte>>, len: int, k: nat,
                                        r: nat)
    requires LinesOk(starts, lines, len, |buf|) && r < k <= |starts|
    ensures Overlay(buf, starts, lines, len, k)[starts[r]..starts[r] + len] == lines[r]
    decreases k
  {
    var before := Overlay(buf, starts, lines, len, k - 1);
    if r < k - 1 {
      OverlayLine(buf, starts, lines, len, k - 1, r);
      SplicedElsewhere(before, starts[k - 1], lines[k - 1], starts[r], starts[r] + len);
    } else {
      SplicedBytes(before, starts[r], lines[r]);
    }
  }

  // ---- pixels of one line -------------------------------------------------------------------------

  ghost predicate Sized(ps: seq<seq<byte>>, b: nat) {
    forall i :: 0 <= i < |ps| ==> |ps[i]| == b
  }

  /** The pixels of a line, one behind the other. */
  function Flat(ps: seq<seq<byte>>): seq<byte> {
    if ps == [] then [] else Flat(ps[..|ps| - 1]) + ps[|ps| - 1]
  }

  lemma {:induction false} FlatSize(ps: seq<seq<byte>>, b: nat)
    requires Sized(ps, b)
    ensures |Flat(ps)| == |ps| * b
  {
    if ps != [] {
      FlatSize(ps[..|ps| - 1], b);
      MulAdd(b, |ps| - 1, 1);
    }
  }

  /** Pixel c lies behind the pixels before it. */
  lemma {:induction false} FlatAt(ps: seq<seq<byte>>, c: nat)
    requires c < |ps|
    ensures var x := |Flat(ps[..c])|; x + |ps[c]| <= |Flat(ps)| && Flat(ps)[x..x + |ps[c]|] == ps[c]
    decreases |ps|
  {
    var n := |ps| - 1;
    if c < n {
      var front := ps[..n];
      FlatAt(front, c);
      assert front[..c] == ps[..c];
    }
  }

  lemma FlatNext(ps: seq<seq<byte>>, c: nat)
    requires c < |ps|
    ensures Flat(ps[..c + 1]) == Flat(ps[..c]) + ps[c]
  {
    assert ps[..c + 1][..c] == ps[..c];
  }

  // ---- drawing one line pixel by pixel ------------------------------------------------------------

  /** A line of pixels `ps` being drawn in place of line r. */
  ghost predicate LineIs(starts: seq<int>, lines: seq<seq<byte>>, len: int, size: int, ps: seq<seq<byte>>, r: nat) {
    LinesOk(starts, lines, len, size) && r < |starts| && lines[r] == Flat(ps)
  }

  /** The buffer holds the first r lines and the first c pixels of line r. */
  ghost predicate LineProgress(buf: seq<byte>, starts: seq<int>, lines: seq<seq<byte>>, len: int, ps: seq<seq<byte>>,
                               r: nat, now: seq<byte>, c: nat)
    requires LineIs(starts, lines, len, |buf|, ps, r) && c <= |ps|
  {
    var bytes := Flat(ps[..c]);
    starts[r] + |bytes| <= |buf| && now == Splice(Overlay(buf, starts, lines, len, r), starts[r], bytes)
  }

  lemma LineBegins(buf: seq<byte>, starts: seq<int>, lines: seq<seq<byte>>, len: int, ps: seq<seq<byte>>, r: nat)
    requires LineIs(starts, lines, len, |buf|, ps, r)
    ensures LineProgress(buf, starts, lines, len, ps, r, Overlay(buf, starts, lines, len, r), 0)
  {
    assert ps[..0] == [];
  }

  /** Storing pixel c at its place, whose bytes are still the old ones, is progress by one pixel. */
  lemma LineAdvances(buf: seq<byte>, starts: seq<int>, lines: seq<seq<byte>>, len: int, ps: seq<seq<byte>>, r: nat,
                     now: seq<byte>, c: nat, at: int)
    requires LineIs(starts, lines, len, |buf|, ps, r) && c < |ps| && at == starts[r] + |Flat(ps[..c])|
    requires LineProgress(buf, starts, lines, len, ps, r, now, c)
    ensures 0 <= at && at + |ps[c]| <= |now| == |buf|
    ensures now[at..at + |ps[c]|] == buf[at..at + |ps[c]|]
    ensures LineProgress(buf, starts, lines, len, ps, r, Splice(now, at, ps[c]), c + 1)
  {
    FlatAt(ps, c);
    FlatNext(ps, c);
    var rows := Overlay(buf, starts, lines, len, r);
    OverlayLater(buf, starts, lines, len, r, rows);
    OldBehind(rows, buf, starts[r], len, Flat(ps[..c]), at, |ps[c]|);
    SpliceJoins(rows, starts[r], Flat(ps[..c]), ps[c]);
  }

  /** Behind the part of line r that is already drawn the bytes are the old ones. */
  lemma OldBehind(rows: seq<byte>, buf: seq<byte>, start: int, len: int, done: seq<byte>, at: int, n: nat)
    requires |rows| == |buf| && 0 <= start && start + len <= |buf| && at == start + |done| && |done| + n <= len
    requires rows[start..start + len] == buf[start..start + len]
    ensures Splice(rows, start, done)[at..at + n] == buf[at..at + n]
  {
    SplicedElsewhere(rows, start, done, at, at + n);
    SameInside(rows, buf, start, len, at, n);
  }

  lemma SameInside(a: seq<byte>, b: seq<byte>, start: int, len: int, at: int, n: int)
    requires |a| == |b| && 0 <= start <= at && 0 <= n && at + n <= start + len <= |a|
    requires a[start..start + len] == b[start..start + len]
    ensures a[at..at + n] == b[at..at + n]
  {
    SliceOfSlice(a, start, len, at, n);
    SliceOfSlice(b, start, len, at, n);
  }

  lemma LineEnds(buf: seq<byte>, starts: seq<int>, lines: seq<seq<byte>>, len: int, ps: seq<seq<byte>>, r: nat,
                 now: seq<byte>)
    requires LineIs(starts, lines, len, |buf|, ps, r)
    requires LineProgress(buf, starts, lines, len, ps, r, now, |ps|)
    ensures now == Overlay(buf, starts, lines, len, r + 1)
  {
    assert ps[..|ps|] == ps;
  }

  lemma SliceOfSlice(s: seq<byte>, at: int, len: int, p: int, b: int)
    requires 0 <= at <= p && 0 <= b && p + b <= at + len <= |s|
    ensures s[at..at + len][p - at..p - at + b] == s[p..p + b]
  {
    var u := s[at..at + len];
    assert forall i :: 0 <= i < len ==> u[i] == s[at + i];
    assert u[p - at..p - at + b] == s[p..p + b];
  }

  // ---- pixels of two surfaces ---------------------------------------------------------------------

  /** What one pixel becomes: from the bytes of a source pixel and the old bytes of the destination pixel. */
  type PixelOp = (seq<byte>, seq<byte>) -> seq<byte>

  ghost predicate OpSized(op: PixelOp, sbpp: int, dbpp: int) {
    forall s, d :: |s| == sbpp && |d| == dbpp ==> |op(s, d)| == dbpp
  }

  /** The drawn rectangle's corner, and the source column and row that each drawn column and row samples. */
  datatype Grid = Grid(x: int, y: int, cols: seq<int>, rows: seq<int>)

  /** Everything a blit works on: the operation, the grid, both layouts and both buffers' old contents. */
  datatype Scene = Scene(op: PixelOp, g: Grid, sl: Layout, dl: Layout, src: seq<byte>, dst: seq<byte>)

  ghost predicate Ready(sc: Scene) {
    && Fits(sc.sl) && Fits(sc.dl)
    && 0 <= sc.g.x && sc.g.x + |sc.g.cols| <= sc.dl.width
    && 0 <= sc.g.y && sc.g.y + |sc.g.rows| <= sc.dl.height
    && (forall i :: 0 <= i < |sc.g.cols| ==> 0 <= sc.g.cols[i] < sc.sl.width)
    && (forall i :: 0 <= i < |sc.g.rows| ==> 0 <= sc.g.rows[i] < sc.sl.height)
    && OpSized(sc.op, sc.sl.bpp, sc.dl.bpp)
    && |sc.src| == sc.sl.size && |sc.dst| == sc.dl.size
  }

  function PixelAt(l: Layout, buf: seq<byte>, x: int, y: int): (p: seq<byte>)
    requires Fits(l) && |buf| == l.size && 0 <= x < l.width && 0 <= y < l.height
    ensures |p| == l.bpp
  {
    AtInside(l, x, y, 1);
    buf[At(l, x, y)..At(l, x, y) + l.bpp]
  }

  /** Pixel c of drawn row r: the source pixel it samples, converted over its own old value. */
  ghost function NewPixel(sc: Scene, c: nat, r: nat): (p: seq<byte>)
    requires Ready(sc) && c < |sc.g.cols| && r < |sc.g.rows|
    ensures |p| == sc.dl.bpp
  {
    sc.op(PixelAt(sc.sl, sc.src, sc.g.cols[c], sc.g.rows[r]), PixelAt(sc.dl, sc.dst, sc.g.x + c, sc.g.y + r))
  }

  ghost function NewPixels(sc: Scene, r: nat): (ps: seq<seq<byte>>)
    requires Ready(sc) && r < |sc.g.rows|
    ensures |ps| == |sc.g.cols| && Sized(ps, sc.dl.bpp)
    ensures forall c :: 0 <= c < |ps| ==> ps[c] == NewPixel(sc, c, r)
  {
    seq(|sc.g.cols|, c requires 0 <= c < |sc.g.cols| => NewPixel(sc, c, r))
  }

  ghost function NewLines(sc: Scene): (ls: seq<seq<byte>>)
    requires Ready(sc)
    ensures |ls| == |sc.g.rows|
    ensures forall r :: 0 <= r < |ls| ==> ls[r] == Flat(NewPixels(sc, r))
  {
    seq(|sc.g.rows|, r requires 0 <= r < |sc.g.rows| => Flat(NewPixels(sc, r)))
  }

  function LineStarts(sc: Scene): (s: seq<int>)
    ensures |s| == |sc.g.rows| && forall r :: 0 <= r < |s| ==> s[r] == At(sc.dl, sc.g.x, sc.g.y + r)
  {
    seq(|sc.g.rows|, r => At(sc.dl, sc.g.x, sc.g.y + r))
  }

  lemma NewLinesOk(sc: Scene)
    requires Ready(sc)
    ensures LinesOk(LineStarts(sc), NewLines(sc), |sc.g.cols| * sc.dl.bpp, |sc.dst|)
  {
    var starts, lines, len := LineStarts(sc), NewLines(sc), |sc.g.cols| * sc.dl.bpp;
    MulOrder(sc.dl.bpp, 0, |sc.g.cols|);
    forall k | 0 <= k < |lines|
      ensures |lines[k]| == len
    {
      FlatSize(NewPixels(sc, k), sc.dl.bpp);
    }
    forall k | 0 <= k < |starts|
      ensures 0 <= starts[k] <= |sc.dst| - len
    {
      AtInside(sc.dl, sc.g.x, sc.g.y + k, |sc.g.cols|);
    }
    forall k, m | 0 <= k < m < |starts|
      ensures starts[k] + len <= starts[m]
    {
      AtInside(sc.dl, sc.g.x, sc.g.y + k, |sc.g.cols|);
      AtRows(sc.dl, sc.g.x, sc.g.y + k, sc.g.y + m);
    }
  }

  /** The destination buffer after the first k rows of a blit. */
  ghost function BlittedRows(sc: Scene, k: nat): (r: seq<byte>)
    requires Ready(sc) && k <= |sc.g.rows|
    ensures |r| == |sc.dst|
  {
    NewLinesOk(sc);
    Overlay(sc.dst, LineStarts(sc), NewLines(sc), |sc.g.cols| * sc.dl.bpp, k)
  }

  /** The destination buffer after a whole blit. */
  ghost function Blitted(sc: Scene): (r: seq<byte>)
    requires Ready(sc)
    ensures |r| == |sc.dst|
  {
    BlittedRows(sc, |sc.g.rows|)
  }

  /**
   * A drawn pixel is the conversion of the source pixel it samples over its own old value: pixel (x, y), in column c
   * and row r of the drawn rectangle, samples source pixel (sx, sy).
   */
  lemma BlittedInside(sc: Scene, c: nat, r: nat, x: int, y: int, sx: int, sy: int)
    requires Ready(sc) && c < |sc.g.cols| && r < |sc.g.rows| && x == sc.g.x + c && y == sc.g.y + r
    requires sx == sc.g.cols[c] && sy == sc.g.rows[r]
    ensures PixelAt(sc.dl, Blitted(sc), x, y) == sc.op(PixelAt(sc.sl, sc.src, sx, sy), PixelAt(sc.dl, sc.dst, x, y))
  {
    PixelPosition(sc, c, r);
    BlittedAt(sc, c, r, At(sc.dl, x, y));
    NewPixelAt(sc, c, r, x, y, sx, sy);
  }

  lemma NewPixelAt(sc: Scene, c: nat, r: nat, x: int, y: int, sx: int, sy: int)
    requires Ready(sc) && c < |sc.g.cols| && r < |sc.g.rows| && x == sc.g.x + c && y == sc.g.y + r
    requires sx == sc.g.cols[c] && sy == sc.g.rows[r]
    ensures NewPixel(sc, c, r) == sc.op(PixelAt(sc.sl, sc.src, sx, sy), PixelAt(sc.dl, sc.dst, x, y))
  {
  }

  /** The same by coordinates alone. */
  lemma BlittedPixel(sc: Scene, x: int, y: int, sx: int, sy: int)
    requires Ready(sc)
    requires sc.g.x <= x < sc.g.x + |sc.g.cols| && sc.g.y <= y < sc.g.y + |sc.g.rows|
    requires sx == sc.g.cols[x - sc.g.x] && sy == sc.g.rows[y - sc.g.y]
    ensures PixelAt(sc.dl, Blitted(sc), x, y) == sc.op(PixelAt(sc.sl, sc.src, sx, sy), PixelAt(sc.dl, sc.dst, x, y))
  {
    BlittedInside(sc, x - sc.g.x, y - sc.g.y, x, y, sx, sy);
  }

  lemma BlittedAt(sc: Scene, c: nat, r: nat, p: int)
    requires Ready(sc) && c < |sc.g.cols| && r < |sc.g.rows|
    requires p == LineStarts(sc)[r] + |Flat(NewPixels(sc, r)[..c])|
    ensures 0 <= p <= p + sc.dl.bpp <= |sc.dst| && Blitted(sc)[p..p + sc.dl.bpp] == NewPixel(sc, c, r)
  {
    NewLinesOk(sc);
    OverlayPixel(sc.dst, LineStarts(sc), NewLines(sc), |sc.g.cols| * sc.dl.bpp, NewPixels(sc, r), c, r, p);
  }

  lemma PixelPosition(sc: Scene, c: nat, r: nat)
    requires Ready(sc) && c < |sc.g.cols| && r < |sc.g.rows|
    ensures At(sc.dl, sc.g.x + c, sc.g.y + r) == LineStarts(sc)[r] + |Flat(NewPixels(sc, r)[..c])|
  {
    FlatSize(NewPixels(sc, r)[..c], sc.dl.bpp);
    AtColumn(sc.dl, sc.g.x, c, sc.g.y + r);
  }

  /** The same on the level of lines. */
  lemma OverlayPixel(buf: seq<byte>, starts: seq<int>, lines: seq<seq<byte>>, len: int, ps: seq<seq<byte>>, c: nat,
                     r: nat, p: int)
    requires LineIs(starts, lines, len, |buf|, ps, r) && c < |ps| && p == starts[r] + |Flat(ps[..c])|
    ensures 0 <= p <= p + |ps[c]| <= |buf|
    ensures Overlay(buf, starts, lines, len, |starts|)[p..p + |ps[c]|] == ps[c]
  {
    OverlayLine(buf, starts, lines, len, |starts|, r);
    PixelOfLine(Overlay(buf, starts, lines, len, |starts|), starts[r], len, ps, c, p);
  }

  lemma PixelOfLine(out: seq<byte>, at: int, len: int, ps: seq<seq<byte>>, c: nat, p: int)
    requires 0 <= at <= at + len <= |out| && out[at..at + len] == Flat(ps)
    requires c < |ps| && p == at + |Flat(ps[..c])|
    ensures 0 <= p <= p + |ps[c]| <= at + len && out[p..p + |ps[c]|] == ps[c]
  {
    FlatAt(ps, c);
    SliceOfSlice(out, at, len, p, |ps[c]|);
  }

  /** A byte that is not on a drawn row keeps its value. */
  lemma BlittedByte(sc: Scene, j: nat)
    requires Ready(sc) && j < |sc.dst|
    requires forall r :: 0 <= r < |sc.g.rows| ==> !OnLine(LineStarts(sc)[r], |sc.g.cols| * sc.dl.bpp, j)
    ensures Blitted(sc)[j] == sc.dst[j]
  {
    NewLinesOk(sc);
    OverlayOutside(sc.dst, LineStarts(sc), NewLines(sc), |sc.g.cols| * sc.dl.bpp, |sc.g.rows|, j);
  }

  /** A pixel outside the drawn rectangle keeps its bytes. */
  lemma BlittedOutside(sc: Scene, x: int, y: int)
    requires Ready(sc)
    requires 0 <= x < sc.dl.width && 0 <= y < sc.dl.height
    requires !(sc.g.x <= x < sc.g.x + |sc.g.cols| && sc.g.y <= y < sc.g.y + |sc.g.rows|)
    ensures PixelAt(sc.dl, Blitted(sc), x, y) == PixelAt(sc.dl, sc.dst, x, y)
  {
    var out, p := Blitted(sc), At(sc.dl, x, y);
    AtInside(sc.dl, x, y, 1);
    forall j | p <= j < p + sc.dl.bpp
      ensures out[j] == sc.dst[j]
    {
      PixelOffLines(sc, x, y, j);
      BlittedByte(sc, j);
    }
    assert out[p..p + sc.dl.bpp] == sc.dst[p..p + sc.dl.bpp];
  }

  lemma PixelOffLines(sc: Scene, x: int, y: int, j: int)
    requires Ready(sc)
    requires 0 <= x < sc.dl.width && 0 <= y < sc.dl.height
    requires !(sc.g.x <= x < sc.g.x + |sc.g.cols| && sc.g.y <= y < sc.g.y + |sc.g.rows|)
    requires At(sc.dl, x, y) <= j < At(sc.dl, x, y) + sc.dl.bpp
    ensures forall r :: 0 <= r < |sc.g.rows| ==> !OnLine(LineStarts(sc)[r], |sc.g.cols| * sc.dl.bpp, j)
  {
    forall r | 0 <= r < |sc.g.rows|
      ensures !OnLine(LineStarts(sc)[r], |sc.g.cols| * sc.dl.bpp, j)
    {
      PixelOutsideRow(sc.dl, sc.g.x, sc.g.y + r, |sc.g.cols|, x, y, j);
    }
  }

  /** Bytes between the rows of pixels, and behind the last row, are not written either. */
  lemma BlittedPadding(sc: Scene, j: nat)
    requires Ready(sc) && j < |sc.dst|
    requires forall y :: 0 <= y < sc.dl.height ==> !(At(sc.dl, 0, y) <= j < At(sc.dl, sc.dl.width, y))
    ensures Blitted(sc)[j] == sc.dst[j]
  {
    forall r | 0 <= r < |sc.g.rows|
      ensures !OnLine(LineStarts(sc)[r], |sc.g.cols| * sc.dl.bpp, j)
    {
      MulAdd(sc.dl.bpp, sc.g.x, |sc.g.cols|);
      MulOrder(sc.dl.bpp, 0, sc.g.x);
      MulOrder(sc.dl.bpp, sc.g.x + |sc.g.cols|, sc.dl.width);
      assert !(At(sc.dl, 0, sc.g.y + r) <= j < At(sc.dl, sc.dl.width, sc.g.y + r));
    }
    BlittedByte(sc, j);
  }

  lemma PixelOutsideRow(l: Layout, x0: int, row: int, n: int, x: int, y: int, j: int)
    requires Fits(l) && 0 <= x0 && 0 <= n && x0 + n <= l.width && 0 <= row < l.height
    requires 0 <= x < l.width && 0 <= y < l.height
    requires y != row || x < x0 || x >= x0 + n
    requires At(l, x, y) <= j < At(l, x, y) + l.bpp
    ensures !(At(l, x0, row) <= j < At(l, x0, row) + n * l.bpp)
  {
    AtInside(l, x0, row, n);
    AtInside(l, x, y, 1);
    MulAdd(l.bpp, x0, n);
    MulAdd(l.bpp, x, 1);
    if y < row {
      AtRows(l, 0, y, row);
    } else if y > row {
      AtRows(l, 0, row, y);
    } else if x < x0 {
      MulOrder(l.bpp, x + 1, x0);
    } else {
      MulOrder(l.bpp, x0 + n, x);
    }
  }

  // ---- the row-copy path --------------------------------------------------------------------------

  /** The operation passes pixels through unchanged. */
  ghost predicate CopiesPixels(op: PixelOp, bpp: int) {
    forall s, d :: |s| == |d| == bpp ==> op(s, d) == s
  }

  /** Pixel i is the slice of the source between positions i and i + 1. */
  ghost predicate IsSlice(src: seq<byte>, ps: seq<seq<byte>>, at: seq<int>, i: int)
    requires |at| == |ps| + 1 && 0 <= i < |ps|
  {
    0 <= at[i] <= at[i + 1] <= |src| && ps[i] == src[at[i]..at[i + 1]]
  }

  /** Adjacent pixels, flattened, are the slice they were taken from. */
  lemma {:induction false} FlatSlice(src: seq<byte>, ps: seq<seq<byte>>, at: seq<int>)
    requires |at| == |ps| + 1 && ps != []
    requires forall i :: 0 <= i < |ps| ==> IsSlice(src, ps, at, i)
    ensures 0 <= at[0] <= at[|ps|] <= |src| && Flat(ps) == src[at[0]..at[|ps|]]
  {
    var n := |ps| - 1;
    assert IsSlice(src, ps, at, n);
    if n > 0 {
      var ps', at' := ps[..n], at[..n + 1];
      forall i | 0 <= i < n
        ensures IsSlice(src, ps', at', i)
      {
        assert IsSlice(src, ps, at, i);
      }
      FlatSlice(src, ps', at');
      assert src[at[0]..at[n]] + src[at[n]..at[n + 1]] == src[at[0]..at[n + 1]];
    }
  }

  function ColumnStarts(l: Layout, left: int, n: nat, y: int): (at: seq<int>)
    ensures |at| == n + 1 && forall i :: 0 <= i <= n ==> at[i] == At(l, left + i, y)
  {
    seq(n + 1, i => At(l, left + i, y))
  }

  /** Then converting a row whose source columns are adjacent is copying the source row. */
  lemma RowCopies(sc: Scene, r: nat, left: int, from: int, to: int)
    requires Ready(sc) && r < |sc.g.rows| && |sc.g.cols| > 0
    requires CopiesPixels(sc.op, sc.sl.bpp) && sc.sl.bpp == sc.dl.bpp
    requires forall i :: 0 <= i < |sc.g.cols| ==> sc.g.cols[i] == left + i
    requires from == At(sc.sl, left, sc.g.rows[r]) && to == from + |sc.g.cols| * sc.sl.bpp
    ensures 0 <= from <= to <= |sc.src| && Flat(NewPixels(sc, r)) == sc.src[from..to]
  {
    var ps, at := NewPixels(sc, r), ColumnStarts(sc.sl, left, |sc.g.cols|, sc.g.rows[r]);
    forall i | 0 <= i < |sc.g.cols|
      ensures IsSlice(sc.src, ps, at, i)
    {
      SliceStep(sc, r, left, i, at[i], at[i + 1]);
    }
    FlatSlice(sc.src, ps, at);
    AtColumn(sc.sl, left, |sc.g.cols|, sc.g.rows[r]);
    assert at[0] == from && at[|ps|] == to;
  }

  lemma SliceStep(sc: Scene, r: nat, left: int, i: nat, from: int, to: int)
    requires Ready(sc) && r < |sc.g.rows| && i < |sc.g.cols| && sc.g.cols[i] == left + i
    requires CopiesPixels(sc.op, sc.sl.bpp) && sc.sl.bpp == sc.dl.bpp
    requires from == At(sc.sl, left + i, sc.g.rows[r]) && to == At(sc.sl, left + i + 1, sc.g.rows[r])
    ensures 0 <= from <= to <= |sc.src| && NewPixel(sc, i, r) == sc.src[from..to]
  {
    CopiedPixel(sc, i, r);
    AtStep(sc.sl, left + i, sc.g.rows[r]);
  }

  lemma CopiedPixel(sc: Scene, c: nat, r: nat)
    requires Ready(sc) && c < |sc.g.cols| && r < |sc.g.rows|
    requires CopiesPixels(sc.op, sc.sl.bpp) && sc.sl.bpp == sc.dl.bpp
    ensures var at := At(sc.sl, sc.g.cols[c], sc.g.rows[r]);
            && 0 <= at <= at + sc.sl.bpp <= |sc.src|
            && NewPixel(sc, c, r) == sc.src[at..at + sc.sl.bpp]
  {
    AtInside(sc.sl, sc.g.cols[c], sc.g.rows[r], 1);
  }
}
