// What the pixel conversion of am_adp/am_osd/sw_op.c means: where a format keeps its components, what is left of a
// colour that is stored in a pixel, and which colour each branch of the conversion stores.

module PixelLaws {
  import opened Arith
  import opened Bits
  import opened PixelFormat

  // ---- bytes of a pixel -------------------------------------------------------------------------

  /** Pixels are stored with the lowest byte first. */
  lemma {:induction false} StoredLowFirst(v: nat, n: nat, i: nat)
    requires i < n
    ensures PutPixel(v, n)[i] == v / Pow2(8 * i) % 256
    decreases n
  {
    if i > 0 {
      StoredLowFirst(v / 256, n - 1, i - 1);
      Pow2Byte(8 * (i - 1));
      DivTwice(v, 256, Pow2(8 * (i - 1)));
    }
  }

  lemma DivTwice(v: nat, a: int, b: int)
    requires a > 0 && b > 0
    ensures v / a / b == v / (a * b)
  {
    var q, r := v / a / b, v / a % b;
    DivBounds(v, a);
    DivTwiceParts(v, a, b, q, r, v % a);
  }

  lemma DivTwiceParts(v: nat, a: int, b: int, q: int, r: int, low: int)
    requires a > 0 && b > 0 && 0 <= r < b && 0 <= low < a && v == a * (b * q + r) + low
    ensures v / (a * b) == q
  {
    MulAdd(a, b * q, r);
    MulOrder(a, r, b - 1);
    assert a * (b * q) == a * b * q;
    QuotientUnique(v, a * b, q, a * r + low);
  }

  /** Reading a stored value gives it back, if it fits the pixel. */
  lemma {:induction false} GetPut(v: nat, n: nat)
    requires v < Pow2(8 * n)
    ensures GetPixel(PutPixel(v, n)) == v
  {
    if n > 0 {
      Pow2Byte(8 * (n - 1));
      assert 8 * n == 8 * (n - 1) + 8;
      GetPut(v / 256, n - 1);
      assert PutPixel(v, n)[1..] == PutPixel(v / 256, n - 1);
    }
  }

  // ---- fields -----------------------------------------------------------------------------------

  /** What is left of a component: its highest bits. */
  function Kept(f: Field, c: byte): nat {
    DivAtLeast(c, Pow2(f.shift), 0);
    c / Pow2(f.shift)
  }

  lemma KeptBelow(f: Field, c: byte)
    requires f.shift <= 8
    ensures Kept(f, c) == Shr(c, f.shift) < Pow2(8 - f.shift)
  {
    ShrDivides(c, f.shift);
    PowSplit(8 - f.shift, f.shift);
    PowersOfTwo();
    DivAtLeast(c, Pow2(f.shift), Pow2(8 - f.shift));
  }

  /** A component is put into a pixel as its highest bits, at the place of its field. */
  lemma InsertPlaces(f: Field, c: byte)
    requires WellPlaced(f) && f.mask != 0
    ensures Insert(f, c) == Shl(Kept(f, c), f.offset) == Kept(f, c) * Pow2(f.offset)
  {
    KeptBelow(f, c);
    AndLowMask(Kept(f, c), 8 - f.shift);
    ShiftedUnderMask(Kept(f, c), Pow2(8 - f.shift) - 1, f.offset, f.mask);
    ShlTimes(Kept(f, c), f.offset);
  }

  /** A component is taken out of a pixel as the bits of its field, moved to the top of a byte. */
  lemma ExtractReads(f: Field, pix: nat)
    requires WellPlaced(f) && f.mask != 0
    ensures Extract(f, pix) == pix / Pow2(f.offset) % Pow2(8 - f.shift) * Pow2(f.shift)
  {
    var low, v := Pow2(8 - f.shift) - 1, FieldValue(f, pix);
    FieldAnd(f, pix, low);
    FieldBelow(f, pix);
    FieldExtract(f, pix, v);
    ShrDivides(pix, f.offset);
    AndIsRemainder(Shr(pix, f.offset), 8 - f.shift, Pow2(8 - f.shift));
    ShlTimes(v, f.shift);
  }

  lemma {:induction false} AndIsRemainder(x: nat, k: nat, p: int)
    requires p == Pow2(k)
    ensures And(x, p - 1) == x % p
    decreases k
  {
    if k > 0 {
      var q := Pow2(k - 1);
      AndIsRemainder(x / 2, k - 1, q);
      AndHalf(x, p - 1);
      RemainderHalf(x, q, x / 2 % q);
    }
  }

  lemma RemainderHalf(x: nat, p: int, r: int)
    requires p > 0 && r == x / 2 % p
    ensures x % (2 * p) == 2 * r + x % 2
  {
    QuotientUnique(x, 2 * p, x / 2 / p, 2 * r + x % 2);
  }

  /** The fields share no bit. */
  predicate Apart(f: Field, g: Field) {
    f.mask == 0 || g.mask == 0 || f.offset + 8 - f.shift <= g.offset || g.offset + 8 - g.shift <= f.offset
  }

  /** What one field holds does not show in the other. */
  lemma HiddenFrom(f: Field, g: Field, c: byte)
    requires WellPlaced(f) && WellPlaced(g) && Apart(f, g)
    ensures And(Insert(g, c), f.mask) == 0
  {
    if f.mask == 0 {
      AndZero(Insert(g, c));
    } else if g.mask == 0 {
      NoField(g, c, 0);
    } else {
      InsertPlaces(g, c);
      KeptBelow(g, c);
      PlacesApart(Kept(g, c), g.offset, 8 - g.shift, Pow2(8 - f.shift) - 1, f.offset, 8 - f.shift);
    }
  }

  lemma PlacesApart(v: nat, at: nat, w: nat, low: nat, from: nat, n: nat)
    requires v < Pow2(w) && low < Pow2(n) && (at + w <= from || from + n <= at)
    ensures And(Shl(v, at), Shl(low, from)) == 0
  {
    if at + w <= from {
      BelowPlace(v, at, w, from);
      AndApart(Shl(v, at), low, from);
    } else {
      BelowPlace(low, from, n, at);
      AndApart(Shl(low, from), v, at);
      AndCommutes(Shl(v, at), Shl(low, from));
    }
  }

  lemma BelowPlace(v: nat, at: nat, w: nat, to: nat)
    requires v < Pow2(w) && at + w <= to
    ensures Shl(v, at) < Pow2(to)
  {
    ShlBelow(v, w, at);
    PowSplit(at + w, to - at - w);
    MulOrder(Pow2(at + w), 1, Pow2(to - at - w));
  }

  /** What is shown of a component: its highest bits, with zeros below. */
  function Shown(f: Field, c: byte): nat {
    Kept(f, c) * Pow2(f.shift)
  }

  /** What a format shows of a colour; one without alpha shows it opaque. */
  function ShownColor(f: Format, c: Color): (r: (nat, nat, nat, nat)) {
    (Shown(f.r, c.r), Shown(f.g, c.g), Shown(f.b, c.b), if f.a.mask != 0 then Shown(f.a, c.a) else 0xFF)
  }

  function Parts(c: Color): (nat, nat, nat, nat) {
    (c.r, c.g, c.b, c.a)
  }

  /** A field of a pixel that joins this and other fields' components. */
  lemma ShowsOwn(f: Field, c: byte, pix: nat)
    requires WellPlaced(f) && f.mask != 0 && And(pix, f.mask) == Insert(f, c)
    ensures Extract(f, pix) == Shown(f, c)
  {
    InsertPlaces(f, c);
    KeptBelow(f, c);
    FieldExtract(f, pix, Kept(f, c));
    ShlTimes(Kept(f, c), f.shift);
  }

  lemma InsertOwn(f: Field, c: byte)
    requires WellPlaced(f)
    ensures And(Insert(f, c), f.mask) == Insert(f, c)
  {
    AndTwice(Shl(Shr(c, f.shift), f.offset), f.mask);
  }

  lemma {:induction false} AndTwice(a: nat, m: nat)
    ensures And(And(a, m), m) == And(a, m)
  {
    if a != 0 && m != 0 {
      AndHalf(a, m);
      AndTwice(a / 2, m / 2);
    }
  }

  lemma MaskedJoin(x0: nat, x1: nat, x2: nat, x3: nat, m: nat)
    ensures And(Joined(x0, x1, x2, x3), m) == Joined(And(x0, m), And(x1, m), And(x2, m), And(x3, m))
  {
    AndCommutes(x0, m);
    AndCommutes(x1, m);
    AndCommutes(x2, m);
    AndCommutes(x3, m);
    AndCommutes(Joined(x0, x1, x2, x3), m);
    MaskedParts(m, x0, x1, x2, x3);
  }

  predicate FieldsApart(f: Format) {
    && Apart(f.r, f.g) && Apart(f.r, f.b) && Apart(f.r, f.a) && Apart(f.g, f.b) && Apart(f.g, f.a) && Apart(f.b, f.a)
    && f.r.mask != 0 && f.g.mask != 0 && f.b.mask != 0
  }

  /** What field f of a pixel holds whose parts were put in by the fields. */
  lemma OwnPart(f: Format, c: Color)
    requires FieldsPlaced(f) && FieldsApart(f)
    ensures var pix := ColorToPixel(f, c);
            && And(pix, f.r.mask) == Insert(f.r, c.r) && And(pix, f.g.mask) == Insert(f.g, c.g)
            && And(pix, f.b.mask) == Insert(f.b, c.b) && And(pix, f.a.mask) == Insert(f.a, c.a)
  {
    var r, g, b, a := Insert(f.r, c.r), Insert(f.g, c.g), Insert(f.b, c.b), Insert(f.a, c.a);
    MaskedJoin(r, g, b, a, f.r.mask);
    MaskedJoin(r, g, b, a, f.g.mask);
    MaskedJoin(r, g, b, a, f.b.mask);
    MaskedJoin(r, g, b, a, f.a.mask);
    RowHidden(f.r, c.r, f.g, c.g, f.b, c.b, f.a, c.a);
    RowHidden(f.g, c.g, f.r, c.r, f.b, c.b, f.a, c.a);
    RowHidden(f.b, c.b, f.r, c.r, f.g, c.g, f.a, c.a);
    RowHidden(f.a, c.a, f.r, c.r, f.g, c.g, f.b, c.b);
    OrZero(r);
    OrZero(g);
    OrZero(b);
  }

  /** Under the mask of f only its own component is left. */
  lemma RowHidden(f: Field, c: byte, g1: Field, c1: byte, g2: Field, c2: byte, g3: Field, c3: byte)
    requires WellPlaced(f) && WellPlaced(g1) && WellPlaced(g2) && WellPlaced(g3)
    requires Apart(f, g1) && Apart(f, g2) && Apart(f, g3)
    ensures And(Insert(f, c), f.mask) == Insert(f, c)
    ensures And(Insert(g1, c1), f.mask) == And(Insert(g2, c2), f.mask) == And(Insert(g3, c3), f.mask) == 0
  {
    InsertOwn(f, c);
    HiddenFrom(f, g1, c1);
    HiddenFrom(f, g2, c2);
    HiddenFrom(f, g3, c3);
  }

  lemma ColorShows(f: Format, c: Color)
    requires FieldsPlaced(f) && FieldsApart(f)
    ensures Parts(PixelToColor(f, ColorToPixel(f, c))) == ShownColor(f, c)
  {
    var pix := ColorToPixel(f, c);
    OwnPart(f, c);
    ShowsOwn(f.r, c.r, pix);
    ShowsOwn(f.g, c.g, pix);
    ShowsOwn(f.b, c.b, pix);
    if f.a.mask != 0 {
      ShowsOwn(f.a, c.a, pix);
    }
  }

  // ---- the formats ------------------------------------------------------------------------------

  datatype Part = Part(component: char, bits: nat)

  /** The components of a format in the order of its name, which starts at the lowest bits; none for palettes. */
  function Named(t: FormatType): seq<Part> {
    match t
    case Palette256 => []
    case Argb4444 => [Part('a', 4), Part('r', 4), Part('g', 4), Part('b', 4)]
    case Bgra4444 => [Part('b', 4), Part('g', 4), Part('r', 4), Part('a', 4)]
    case Argb1555 => [Part('a', 1), Part('r', 5), Part('g', 5), Part('b', 5)]
    case Bgra5551 => [Part('b', 5), Part('g', 5), Part('r', 5), Part('a', 1)]
    case Rgb565 => [Part('r', 5), Part('g', 6), Part('b', 5)]
    case Bgr565 => [Part('b', 5), Part('g', 6), Part('r', 5)]
    case Rgb888 => [Part('r', 8), Part('g', 8), Part('b', 8)]
    case Bgr888 => [Part('b', 8), Part('g', 8), Part('r', 8)]
    case Argb8888 => [Part('a', 8), Part('r', 8), Part('g', 8), Part('b', 8)]
    case Bgra8888 => [Part('b', 8), Part('g', 8), Part('r', 8), Part('a', 8)]
    case Rgba8888 => [Part('r', 8), Part('g', 8), Part('b', 8), Part('a', 8)]
    case Abgr8888 => [Part('a', 8), Part('b', 8), Part('g', 8), Part('r', 8)]
  }

  function Component(c: Color, name: char): byte {
    if name == 'r' then c.r else if name == 'g' then c.g else if name == 'b' then c.b else c.a
  }

  /** The value of a pixel that holds the highest bits of these components, one behind the other. */
  function Packed(parts: seq<Part>, c: Color): int {
    if parts == [] then 0
    else
      var part := parts[0];
      Component(c, part.component) / Pow2(if part.bits <= 8 then 8 - part.bits else 0)
      + Pow2(part.bits) * Packed(parts[1..], c)
  }

  /** How many bits a field has, and what they are of a component. */
  function Width(f: Field): nat {
    if f.mask != 0 && f.shift <= 8 then 8 - f.shift else 0
  }

  function Held(f: Field, c: byte): nat {
    if f.mask != 0 then Kept(f, c) else 0
  }

  /** Values of some bits, one behind the other from bit 0 up. */
  function Row(vs: seq<nat>, ws: seq<nat>): nat
    requires |vs| == |ws|
  {
    if vs == [] then 0 else vs[0] + Pow2(ws[0]) * Row(vs[1..], ws[1..])
  }

  /** Four fields stacked from bit 0 up hold their components one behind the other. */
  lemma StackedPacks(f0: Field, f1: Field, f2: Field, f3: Field, bits: nat, c0: byte, c1: byte, c2: byte, c3: byte,
                     vs: seq<nat>, ws: seq<nat>)
    requires Stacked(f0, f1, f2, f3, bits)
    requires vs == [Held(f0, c0), Held(f1, c1), Held(f2, c2), Held(f3, c3)]
    requires ws == [Width(f0), Width(f1), Width(f2), Width(f3)]
    ensures Joined(Insert(f0, c0), Insert(f1, c1), Insert(f2, c2), Insert(f3, c3)) == Row(vs, ws) < Pow2(bits)
  {
    StackedPart(f0, c0, 0);
    StackedPart(f1, c1, ws[0]);
    StackedPart(f2, c2, ws[0] + ws[1]);
    StackedPart(f3, c3, ws[0] + ws[1] + ws[2]);
    FourPlaces(vs, ws, ws[0], ws[0] + ws[1], ws[0] + ws[1] + ws[2], bits,
               Insert(f0, c0), Insert(f1, c1), Insert(f2, c2), Insert(f3, c3));
  }

  lemma StackedPart(f: Field, c: byte, at: nat)
    requires WellPlaced(f) && (f.mask != 0 ==> f.offset == at)
    ensures Insert(f, c) == Shl(Held(f, c), at) && Held(f, c) < Pow2(Width(f))
  {
    if f.mask != 0 {
      InsertPlaces(f, c);
      KeptBelow(f, c);
    } else {
      NoField(f, c, 0);
      ShlTimes(0, at);
    }
  }

  /** Values of some bits, each below its place, are joined to a row. */
  lemma FourPlaces(vs: seq<nat>, ws: seq<nat>, k1: nat, k2: nat, k3: nat, k4: nat,
                   x0: nat, x1: nat, x2: nat, x3: nat)
    requires |vs| == |ws| == 4 && forall i :: 0 <= i < 4 ==> vs[i] < Pow2(ws[i])
    requires k1 == ws[0] && k2 == k1 + ws[1] && k3 == k2 + ws[2] && k4 == k3 + ws[3]
    requires x0 == Shl(vs[0], 0) && x1 == Shl(vs[1], k1) && x2 == Shl(vs[2], k2) && x3 == Shl(vs[3], k3)
    ensures Joined(x0, x1, x2, x3) == Row(vs, ws) < Pow2(k4)
  {
    FourJoined(vs, ws, k1, k2, k3, k4, x0, x1, x2, x3, Pow2(k1), Pow2(k2), Pow2(k3));
    PowSplit(k1, ws[1]);
    PowSplit(k2, ws[2]);
    RowOfFour(vs, ws, Pow2(k1), Pow2(ws[1]), Pow2(ws[2]), Pow2(k2), Pow2(k3));
  }

  lemma FourJoined(vs: seq<nat>, ws: seq<nat>, k1: nat, k2: nat, k3: nat, k4: nat, x0: nat, x1: nat, x2: nat, x3: nat,
                   p1: int, p2: int, p3: int)
    requires |vs| == |ws| == 4 && forall i :: 0 <= i < 4 ==> vs[i] < Pow2(ws[i])
    requires k1 == ws[0] && k2 == k1 + ws[1] && k3 == k2 + ws[2] && k4 == k3 + ws[3]
    requires x0 == vs[0] && x1 == Shl(vs[1], k1) && x2 == Shl(vs[2], k2) && x3 == Shl(vs[3], k3)
    requires p1 == Pow2(k1) && p2 == Pow2(k2) && p3 == Pow2(k3)
    ensures Joined(x0, x1, x2, x3) == vs[0] + vs[1] * p1 + vs[2] * p2 + vs[3] * p3 < Pow2(k4)
  {
    OnePlace(x0, vs[1], k1, ws[1], p1, x1, k2);
    OnePlace(Or(x0, x1), vs[2], k2, ws[2], p2, x2, k3);
    OnePlace(Or(Or(x0, x1), x2), vs[3], k3, ws[3], p3, x3, k4);
  }

  lemma RowOfFour(vs: seq<nat>, ws: seq<nat>, a: int, b: int, c: int, ab: int, abc: int)
    requires |vs| == |ws| == 4 && a == Pow2(ws[0]) && b == Pow2(ws[1]) && c == Pow2(ws[2])
    requires ab == a * b && abc == ab * c
    ensures Row(vs, ws) == vs[0] + vs[1] * a + vs[2] * ab + vs[3] * abc
  {
    var r2, r1 := RowUnrolled(vs, ws, a, b, c);
    Nests(a, b, c, ab, abc, vs[0], vs[1], vs[2], vs[3], r2, r1, Row(vs, ws));
  }

  lemma RowUnrolled(vs: seq<nat>, ws: seq<nat>, a: int, b: int, c: int) returns (r2: int, r1: int)
    requires |vs| == |ws| == 4 && a == Pow2(ws[0]) && b == Pow2(ws[1]) && c == Pow2(ws[2])
    ensures r2 == vs[2] + c * vs[3] && r1 == vs[1] + b * r2
    ensures Row(vs, ws) == vs[0] + a * r1
  {
    LastRow(vs[3], ws[3]);
    RowNext(vs[2], ws[2], [vs[3]], [ws[3]]);
    RowNext(vs[1], ws[1], [vs[2], vs[3]], [ws[2], ws[3]]);
    RowNext(vs[0], ws[0], [vs[1], vs[2], vs[3]], [ws[1], ws[2], ws[3]]);
    r2 := Row([vs[2], vs[3]], [ws[2], ws[3]]);
    r1 := Row([vs[1], vs[2], vs[3]], [ws[1], ws[2], ws[3]]);
    assert [vs[2]] + [vs[3]] == [vs[2], vs[3]] && [ws[2]] + [ws[3]] == [ws[2], ws[3]];
    assert [vs[1]] + [vs[2], vs[3]] == [vs[1], vs[2], vs[3]] && [ws[1]] + [ws[2], ws[3]] == [ws[1], ws[2], ws[3]];
    assert vs == [vs[0]] + [vs[1], vs[2], vs[3]] && ws == [ws[0]] + [ws[1], ws[2], ws[3]];
  }

  lemma LastRow(v: nat, w: nat)
    ensures Row([v], [w]) == v
  {
    assert [v][1..] == [] && [w][1..] == [];
  }

  lemma RowNext(v: nat, w: nat, vs: seq<nat>, ws: seq<nat>)
    requires |vs| == |ws|
    ensures Row([v] + vs, [w] + ws) == v + Pow2(w) * Row(vs, ws)
  {
    assert ([v] + vs)[1..] == vs && ([w] + ws)[1..] == ws;
  }

  lemma OnePlace(x: nat, v: nat, k: nat, w: nat, p: int, y: nat, k': nat)
    requires x < Pow2(k) == p && v < Pow2(w) && y == Shl(v, k) && k' == k + w
    ensures Or(x, y) == x + v * p < Pow2(k')
  {
    OrAdds(x, v, k);
    ShlTimes(v, k);
    PowSplit(k, w);
    MulOrder(Pow2(k), v + 1, Pow2(w));
    MulAdd(Pow2(k), v, 1);
  }

  lemma Nests(a: int, b: int, c: int, ab: int, abc: int, v0: int, v1: int, v2: int, v3: int, r2: int, r1: int, r0: int)
    requires ab == a * b && abc == ab * c && r2 == v2 + c * v3 && r1 == v1 + b * r2 && r0 == v0 + a * r1
    ensures r0 == v0 + v1 * a + v2 * ab + v3 * abc
  {
    MulAdd(a, v1, b * r2);
    MulAssoc(a, b, r2);
    MulAdd(ab, v2, c * v3);
    MulAssoc(ab, c, v3);
  }

  /**
   * A pixel of a table format, made from a colour, holds the highest bits of its components in the order of the
   * format's name, from the lowest bit on, and fits the pixel.
   */
  lemma PixelsArePacked(t: FormatType, c: Color)
    requires !t.Palette256?
    ensures ColorToPixel(OsdFormat(t), c) == Packed(Named(t), c)
    ensures ColorToPixel(OsdFormat(t), c) < Pow2(8 * OsdFormat(t).bpp)
  {
    var f := OsdFormat(t);
    OrderStacked(t);
    OrderNamed(t);
    match t
    case Bgra4444 | Bgra5551 | Bgr565 | Bgr888 | Bgra8888 => BgraPacked(Named(t), f, c);
    case Rgb565 | Rgb888 | Rgba8888 => RgbaPacked(Named(t), f, c);
    case Argb4444 | Argb1555 | Argb8888 => ArgbPacked(Named(t), f, c);
    case Abgr8888 => AbgrPacked(Named(t), f, c);
  }

  /** The order in which the fields of each format are stacked. */
  lemma OrderStacked(t: FormatType)
    ensures var f := OsdFormat(t);
            match t
            case Bgra4444 | Bgra5551 | Bgr565 | Bgr888 | Bgra8888 => Stacked(f.b, f.g, f.r, f.a, 8 * f.bpp)
            case Rgb565 | Rgb888 | Rgba8888 => Stacked(f.r, f.g, f.b, f.a, 8 * f.bpp)
            case Argb4444 | Argb1555 | Argb8888 => Stacked(f.a, f.r, f.g, f.b, 8 * f.bpp)
            case Abgr8888 => Stacked(f.a, f.b, f.g, f.r, 8 * f.bpp)
            case Palette256 => true
  {
    TableFieldsPlaced(t);
  }

  /** The name lists these components with their widths; a field without a mask is not in it. */
  predicate IsNamed(parts: seq<Part>, n0: char, f0: Field, n1: char, f1: Field, n2: char, f2: Field, n3: char,
                    f3: Field)
  {
    && |parts| == (if f3.mask != 0 then 4 else 3)
    && parts[0] == Part(n0, Width(f0)) && parts[1] == Part(n1, Width(f1)) && parts[2] == Part(n2, Width(f2))
    && (f3.mask != 0 ==> parts[3] == Part(n3, Width(f3)))
  }

  /** The order of the fields is the order of the name. */
  lemma OrderNamed(t: FormatType)
    ensures var f := OsdFormat(t);
            match t
            case Bgra4444 | Bgra5551 | Bgr565 | Bgr888 | Bgra8888 =>
              IsNamed(Named(t), 'b', f.b, 'g', f.g, 'r', f.r, 'a', f.a)
            case Rgb565 | Rgb888 | Rgba8888 => IsNamed(Named(t), 'r', f.r, 'g', f.g, 'b', f.b, 'a', f.a)
            case Argb4444 | Argb1555 | Argb8888 => IsNamed(Named(t), 'a', f.a, 'r', f.r, 'g', f.g, 'b', f.b)
            case Abgr8888 => IsNamed(Named(t), 'a', f.a, 'b', f.b, 'g', f.g, 'r', f.r)
            case Palette256 => true
  {
  }

  /** A colour that is stored in a pixel of the table and read back keeps the bits that the format has room for. */
  lemma TableColorShows(t: FormatType, c: Color)
    requires !t.Palette256?
    ensures Parts(PixelToColor(OsdFormat(t), ColorToPixel(OsdFormat(t), c))) == ShownColor(OsdFormat(t), c)
  {
    TableFieldsPlaced(t);
    TableFieldsApart(t);
    ColorShows(OsdFormat(t), c);
  }

  lemma TableFieldsApart(t: FormatType)
    requires !t.Palette256?
    ensures FieldsApart(OsdFormat(t))
  {
  }

  lemma BgraPacked(parts: seq<Part>, f: Format, c: Color)
    requires Stacked(f.b, f.g, f.r, f.a, 8 * f.bpp)
    requires IsNamed(parts, 'b', f.b, 'g', f.g, 'r', f.r, 'a', f.a)
    ensures ColorToPixel(f, c) == Packed(parts, c) < Pow2(8 * f.bpp)
  {
    JoinedInAnyOrder(Insert(f.r, c.r), Insert(f.g, c.g), Insert(f.b, c.b), Insert(f.a, c.a));
    PackedAs(parts, f.b, f.g, f.r, f.a, 8 * f.bpp, 'b', 'g', 'r', 'a', c,
             c.b, c.g, c.r, c.a, ColorToPixel(f, c));
  }

  lemma RgbaPacked(parts: seq<Part>, f: Format, c: Color)
    requires Stacked(f.r, f.g, f.b, f.a, 8 * f.bpp)
    requires IsNamed(parts, 'r', f.r, 'g', f.g, 'b', f.b, 'a', f.a)
    ensures ColorToPixel(f, c) == Packed(parts, c) < Pow2(8 * f.bpp)
  {
    PackedAs(parts, f.r, f.g, f.b, f.a, 8 * f.bpp, 'r', 'g', 'b', 'a', c,
             c.r, c.g, c.b, c.a, ColorToPixel(f, c));
  }

  lemma ArgbPacked(parts: seq<Part>, f: Format, c: Color)
    requires Stacked(f.a, f.r, f.g, f.b, 8 * f.bpp)
    requires IsNamed(parts, 'a', f.a, 'r', f.r, 'g', f.g, 'b', f.b)
    ensures ColorToPixel(f, c) == Packed(parts, c) < Pow2(8 * f.bpp)
  {
    JoinedInAnyOrder(Insert(f.r, c.r), Insert(f.g, c.g), Insert(f.b, c.b), Insert(f.a, c.a));
    PackedAs(parts, f.a, f.r, f.g, f.b, 8 * f.bpp, 'a', 'r', 'g', 'b', c,
             c.a, c.r, c.g, c.b, ColorToPixel(f, c));
  }

  lemma AbgrPacked(parts: seq<Part>, f: Format, c: Color)
    requires Stacked(f.a, f.b, f.g, f.r, 8 * f.bpp)
    requires IsNamed(parts, 'a', f.a, 'b', f.b, 'g', f.g, 'r', f.r)
    ensures ColorToPixel(f, c) == Packed(parts, c) < Pow2(8 * f.bpp)
  {
    JoinedInAnyOrder(Insert(f.r, c.r), Insert(f.g, c.g), Insert(f.b, c.b), Insert(f.a, c.a));
    PackedAs(parts, f.a, f.b, f.g, f.r, 8 * f.bpp, 'a', 'b', 'g', 'r', c,
             c.a, c.b, c.g, c.r, ColorToPixel(f, c));
  }

  /** Fields stacked in the order of the name, with the components of the colour. */
  lemma PackedAs(parts: seq<Part>, f0: Field, f1: Field, f2: Field, f3: Field, bits: nat, n0: char, n1: char, n2: char,
                 n3: char, c: Color, c0: byte, c1: byte, c2: byte, c3: byte, pix: nat)
    requires Stacked(f0, f1, f2, f3, bits)
    requires IsNamed(parts, n0, f0, n1, f1, n2, f2, n3, f3)
    requires c0 == Component(c, n0) && c1 == Component(c, n1) && c2 == Component(c, n2) && c3 == Component(c, n3)
    requires pix == Joined(Insert(f0, c0), Insert(f1, c1), Insert(f2, c2), Insert(f3, c3))
    ensures pix == Packed(parts, c) < Pow2(bits)
  {
    var vs := [Held(f0, c0), Held(f1, c1), Held(f2, c2), Held(f3, c3)];
    var ws := [Width(f0), Width(f1), Width(f2), Width(f3)];
    StackedPacks(f0, f1, f2, f3, bits, c0, c1, c2, c3, vs, ws);
    PartHolds(n0, f0, c);
    PartHolds(n1, f1, c);
    PartHolds(n2, f2, c);
    if f3.mask != 0 {
      PartHolds(n3, f3, c);
    }
    RowIsPacked(parts, c, vs, ws);
  }

  /** The value v of w bits is what this part of a name holds of the colour. */
  predicate RowPart(part: Part, c: Color, v: nat, w: nat) {
    part.bits == w <= 8 && v == Component(c, part.component) / Pow2(8 - w)
  }

  lemma PartHolds(name: char, f: Field, c: Color)
    requires f.mask != 0 && f.shift <= 8
    ensures RowPart(Part(name, Width(f)), c, Held(f, Component(c, name)), Width(f))
  {
  }

  lemma {:induction false} RowIsPacked(parts: seq<Part>, c: Color, vs: seq<nat>, ws: seq<nat>)
    requires |vs| == |ws| >= |parts|
    requires forall i :: 0 <= i < |parts| ==> RowPart(parts[i], c, vs[i], ws[i])
    requires forall i :: |parts| <= i < |vs| ==> vs[i] == 0
    ensures Row(vs, ws) == Packed(parts, c)
    decreases |vs|
  {
    if parts != [] {
      assert RowPart(parts[0], c, vs[0], ws[0]);
      RowIsPacked(parts[1..], c, vs[1..], ws[1..]);
    } else if vs != [] {
      RowIsPacked(parts, c, vs[1..], ws[1..]);
    }
  }

  // ---- blending ---------------------------------------------------------------------------------

  /** b is the mix of alpha / 255 parts of s and the rest of d, rounded down; one less if its whole exceeds its rest. */
  predicate Mixes(s: byte, d: byte, alpha: byte, b: byte) {
    var x := s * alpha + d * (255 - alpha);
    b == x / 255 - (if x / 255 > x % 255 then 1 else 0)
  }

  /** The blend is such a mix. A full source loses one step, and so does a destination that nothing covers. */
  lemma BlendMixes(s: byte, d: byte, alpha: byte)
    ensures Mixes(s, d, alpha, Blend(s, d, alpha))
    ensures Blend(s, d, 255) == (if s == 0 then 0 else s - 1)
    ensures Blend(s, d, 0) == (if d == 0 then 0 else d - 1)
  {
    MixBelow(s, d, alpha, s * alpha + d * (255 - alpha));
    MixBelow(s, d, 255, s * 255 + d * 0);
    MixBelow(s, d, 0, s * 0 + d * 255);
    SmallerSteps(s * alpha + d * (255 - alpha));
  }

  lemma SmallerSteps(x: nat)
    requires x <= 255 * 255
    ensures x / 256 == x / 255 - (if x / 255 > x % 255 then 1 else 0)
  {
    var q, r := x / 255, x % 255;
    if q > r {
      QuotientUnique(x, 256, q - 1, 256 - q + r);
    } else {
      QuotientUnique(x, 256, q, r - q);
    }
  }

  lemma MixBelow(s: byte, d: byte, alpha: byte, x: int)
    requires x == s * alpha + d * (255 - alpha)
    ensures 0 <= x <= 255 * 255 && Blend(s, d, alpha) == x / 256
  {
    ProductBelow(s, alpha);
    ProductBelow(d, 255 - alpha);
  }

  lemma ProductBelow(s: byte, weight: byte)
    ensures 0 <= s * weight <= 255 * weight
  {
  }

  /** More alpha moves it from the destination to the source. */
  lemma BlendMoves(s: byte, d: byte, alpha: byte, more: byte)
    requires alpha <= more
    ensures d <= s ==> Blend(s, d, alpha) <= Blend(s, d, more)
    ensures s <= d ==> Blend(s, d, more) <= Blend(s, d, alpha)
  {
    var x, y := s * alpha + d * (255 - alpha), s * more + d * (255 - more);
    MixBelow(s, d, alpha, x);
    MixBelow(s, d, more, y);
    WeightMoves(s, d, more - alpha, alpha, x, y);
  }

  lemma WeightMoves(s: byte, d: byte, step: nat, alpha: byte, x: int, y: int)
    requires x == s * alpha + d * (255 - alpha) && y == s * (alpha + step) + d * (255 - (alpha + step))
    ensures d <= s ==> x <= y
    ensures s <= d ==> y <= x
  {
    MulAdd(s, alpha, step);
    MulAdd(d, 255 - (alpha + step), step);
    assert y - x == s * step - d * step;
  }

  // ---- what a pixel becomes -----------------------------------------------------------------------

  /** The component of a pixel: the bits of the field, moved to the top of a byte. */
  predicate ReadsField(f: Field, pix: nat, c: byte) {
    f.mask != 0 && f.shift <= 8 ==> c == pix / Pow2(f.offset) % Pow2(8 - f.shift) * Pow2(f.shift)
  }

  /** The colour of a pixel; without an alpha field it is opaque. */
  predicate Reads(f: Format, pix: nat, c: Color) {
    && ReadsField(f.r, pix, c.r) && ReadsField(f.g, pix, c.g) && ReadsField(f.b, pix, c.b)
    && if f.a.mask != 0 then ReadsField(f.a, pix, c.a) else c.a == 0xFF
  }

  lemma ColorReads(f: Format, pix: nat)
    requires FieldsPlaced(f)
    ensures Reads(f, pix, PixelToColor(f, pix))
  {
    FieldReads(f.r, pix);
    FieldReads(f.g, pix);
    FieldReads(f.b, pix);
    FieldReads(f.a, pix);
  }

  lemma FieldReads(f: Field, pix: nat)
    requires WellPlaced(f)
    ensures ReadsField(f, pix, Extract(f, pix))
  {
    if f.mask != 0 {
      ExtractReads(f, pix);
    }
  }

  /** The colour of a source pixel: of a palette its entry, or opaque black behind its end. */
  predicate IsSource(st: FormatType, palette: seq<Color>, pix: nat, c: Color) {
    if !st.Palette256? then Reads(OsdFormat(st), pix, c)
    else if pix < |palette| then c == palette[pix]
    else c == Color(0, 0, 0, 0xFF)
  }

  /** m is the source colour mixed over the base, with the larger alpha. */
  predicate Mixed(src: Color, base: Color, m: Color) {
    && Mixes(src.r, base.r, src.a, m.r) && Mixes(src.g, base.g, src.a, m.g) && Mixes(src.b, base.b, src.a, m.b)
    && m.a >= src.a && m.a >= base.a && (m.a == src.a || m.a == base.a)
  }

  /**
   * What the source bytes s make of the destination bytes d. A pixel of the key value, and one without alpha if
   * alpha counts, leave it. A palette takes the source's lowest byte. Otherwise the pixel holds the source colour, or
   * if alpha counts and the source is not opaque, the source colour mixed over the one that was there.
   */
  ghost predicate Painted(st: FormatType, palette: seq<Color>, dt: FormatType, para: BlitPara, s: seq<byte>,
                          d: seq<byte>, out: seq<byte>)
    requires s != []
  {
    exists src, base, m :: Paints(st, palette, dt, para, s, d, out, src, base, m)
  }

  predicate Paints(st: FormatType, palette: seq<Color>, dt: FormatType, para: BlitPara, s: seq<byte>, d: seq<byte>,
                   out: seq<byte>, src: Color, base: Color, m: Color)
    requires s != []
  {
    && IsSource(st, palette, GetPixel(s), src) && Reads(OsdFormat(dt), GetPixel(d), base) && |out| == |d|
    && if para.enableKey && GetPixel(s) == para.key then out == d
       else if dt.Palette256? then out == s[..1]
       else if para.enableAlpha && src.a == 0 then out == d
       else
         && GetPixel(out) == Packed(Named(dt), m)
         && if para.enableAlpha && src.a != 0xFF then Mixed(src, base, m) else m == src
  }

  /** The conversion of both loops does that, between all formats. */
  lemma PixelIsPainted(st: FormatType, palette: seq<Color>, dt: FormatType, para: BlitPara, scaling: bool,
                       s: seq<byte>, d: seq<byte>, out: seq<byte>)
    requires |s| == OsdFormat(st).bpp && |d| == OsdFormat(dt).bpp
    requires out == PixelOut(OsdFormat(st), palette, OsdFormat(dt), para, scaling, s, d)
    ensures Painted(st, palette, dt, para, s, d, out)
  {
    var pix, under := GetPixel(s), GetPixel(d);
    SourceIs(st, palette, pix);
    BaseIs(dt, under);
    var src, base := SourceColor(OsdFormat(st), palette, pix), PixelToColor(OsdFormat(dt), under);
    var m := if para.enableAlpha && src.a != 0xFF then Blended(src, base) else src;
    var put := PutPixel(ColorToPixel(OsdFormat(dt), m), OsdFormat(dt).bpp);
    if !dt.Palette256? {
      StoredPixel(dt, m);
    }
    FormatSizes(st);
    FormatSizes(dt);
    PaintsAs(st, palette, dt, para, scaling, s, d, out, src, base, m, put, OsdFormat(st), OsdFormat(dt));
  }

  lemma FormatSizes(t: FormatType)
    ensures OsdFormat(t).bpp >= 1 && OsdFormat(t).kind == t && (t.Palette256? <==> OsdFormat(t).bpp == 1)
  {
  }

  lemma PaintsAs(st: FormatType, palette: seq<Color>, dt: FormatType, para: BlitPara, scaling: bool, s: seq<byte>,
                 d: seq<byte>, out: seq<byte>, src: Color, base: Color, m: Color, put: seq<byte>, sf: Format,
                 df: Format)
    requires |s| == sf.bpp >= 1 && |d| == df.bpp >= 1 && df.kind == dt && (dt.Palette256? <==> df.bpp == 1)
    requires out == PixelOut(sf, palette, df, para, scaling, s, d) && src == SourceColor(sf, palette, GetPixel(s))
    requires base == PixelToColor(df, GetPixel(d)) && put == PutPixel(ColorToPixel(df, m), df.bpp)
    requires m == if para.enableAlpha && src.a != 0xFF then Blended(src, base) else src
    requires IsSource(st, palette, GetPixel(s), src) && Reads(OsdFormat(dt), GetPixel(d), base)
    requires !dt.Palette256? ==> GetPixel(put) == Packed(Named(dt), m)
    ensures Painted(st, palette, dt, para, s, d, out)
  {
    BlendedMixed(src, base);
    OutIs(sf, palette, df, para, scaling, s, d, out, src, base, m, put);
    PaintsSo(st, palette, dt, para, s, d, out, src, base, m, put);
  }

  lemma PaintsSo(st: FormatType, palette: seq<Color>, dt: FormatType, para: BlitPara, s: seq<byte>, d: seq<byte>,
                 out: seq<byte>, src: Color, base: Color, m: Color, put: seq<byte>)
    requires s != [] && |out| == |d|
    requires IsSource(st, palette, GetPixel(s), src) && Reads(OsdFormat(dt), GetPixel(d), base)
    requires if para.enableAlpha && src.a != 0xFF then Mixed(src, base, m) else m == src
    requires !dt.Palette256? ==> GetPixel(put) == Packed(Named(dt), m)
    requires if para.enableKey && GetPixel(s) == para.key then out == d
             else if dt.Palette256? then out == s[..1]
             else if para.enableAlpha && src.a == 0 then out == d
             else out == put
    ensures Painted(st, palette, dt, para, s, d, out)
  {
    assert Paints(st, palette, dt, para, s, d, out, src, base, m);
  }

  /** The branches of the conversion; a format of one byte is a palette. */
  lemma OutIs(sf: Format, palette: seq<Color>, df: Format, para: BlitPara, scaling: bool, s: seq<byte>, d: seq<byte>,
              out: seq<byte>, src: Color, base: Color, m: Color, put: seq<byte>)
    requires |s| == sf.bpp >= 1 && |d| == df.bpp >= 1 && (df.kind.Palette256? <==> df.bpp == 1)
    requires out == PixelOut(sf, palette, df, para, scaling, s, d) && src == SourceColor(sf, palette, GetPixel(s))
    requires base == PixelToColor(df, GetPixel(d))
    requires m == if para.enableAlpha && src.a != 0xFF then Blended(src, base) else src
    requires put == PutPixel(ColorToPixel(df, m), df.bpp)
    ensures |out| == |d|
    ensures if para.enableKey && GetPixel(s) == para.key then out == d
            else if df.kind.Palette256? then out == s[..1]
            else if para.enableAlpha && src.a == 0 then out == d
            else out == put
  {
    LowestByte(s);
  }

  lemma SourceIs(st: FormatType, palette: seq<Color>, pix: nat)
    ensures IsSource(st, palette, pix, SourceColor(OsdFormat(st), palette, pix))
  {
    TableFieldsPlaced(st);
    ColorReads(OsdFormat(st), pix);
  }

  lemma BaseIs(dt: FormatType, pix: nat)
    ensures Reads(OsdFormat(dt), pix, PixelToColor(OsdFormat(dt), pix))
  {
    TableFieldsPlaced(dt);
    ColorReads(OsdFormat(dt), pix);
  }

  lemma LowestByte(s: seq<byte>)
    requires s != []
    ensures GetPixel(s) % 256 == s[0]
  {
    QuotientUnique(GetPixel(s), 256, GetPixel(s[1..]), s[0]);
  }

  lemma StoredPixel(dt: FormatType, m: Color)
    requires !dt.Palette256?
    ensures GetPixel(PutPixel(ColorToPixel(OsdFormat(dt), m), OsdFormat(dt).bpp)) == Packed(Named(dt), m)
  {
    PixelsArePacked(dt, m);
    GetPut(ColorToPixel(OsdFormat(dt), m), OsdFormat(dt).bpp);
  }

  lemma BlendedMixed(src: Color, base: Color)
    ensures Mixed(src, base, Blended(src, base))
  {
    BlendMixes(src.r, base.r, src.a);
    BlendMixes(src.g, base.g, src.a);
    BlendMixes(src.b, base.b, src.a);
  }
}
