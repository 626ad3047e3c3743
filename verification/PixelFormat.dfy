// Pixel formats and per-pixel conversion: the format table of am_adp/am_osd/am_osd.c, the component
// macros of am_adp/am_osd/am_osd_internal.h and the inner switch statements of am_adp/am_osd/sw_op.c,
// for a little-endian machine.

module PixelFormat {
  import opened Arith
  import opened Bits

  datatype FormatType =
    | Palette256
    | Argb4444 | Bgra4444
    | Argb1555 | Bgra5551
    | Rgb565 | Bgr565
    | Rgb888 | Bgr888
    | Argb8888 | Bgra8888 | Rgba8888 | Abgr8888

  /** Mask, bit offset and left shift of one colour component. */
  datatype Field = Field(mask: nat, offset: nat, shift: nat)

  datatype Format = Format(kind: FormatType, bpp: nat, a: Field, r: Field, g: Field, b: Field)

  datatype Color = Color(r: byte, g: byte, b: byte, a: byte)

  datatype BlitPara = BlitPara(enableAlpha: bool, enableKey: bool, key: nat)

  const NO_FIELD := Field(0, 0, 0)

  /** The entries osd_init stores for each format a software surface can have. */
  function OsdFormat(t: FormatType): Format {
    match t
    case Palette256 => Format(t, 1, NO_FIELD, NO_FIELD, NO_FIELD, NO_FIELD)
    case Bgra4444 => Format(t, 2, Field(0xF000, 12, 4), Field(0x0F00, 8, 4), Field(0x00F0, 4, 4), Field(0x000F, 0, 4))
    case Argb4444 => Format(t, 2, Field(0x000F, 0, 4), Field(0x00F0, 4, 4), Field(0x0F00, 8, 4), Field(0xF000, 12, 4))
    case Bgra5551 => Format(t, 2, Field(0x8000, 15, 7), Field(0x7C00, 10, 3), Field(0x03E0, 5, 3), Field(0x001F, 0, 3))
    case Argb1555 => Format(t, 2, Field(0x0001, 0, 7), Field(0x003E, 1, 3), Field(0x07C0, 6, 3), Field(0xF800, 11, 3))
    case Bgr565 => Format(t, 2, NO_FIELD, Field(0xF800, 11, 3), Field(0x07E0, 5, 2), Field(0x001F, 0, 3))
    case Rgb565 => Format(t, 2, NO_FIELD, Field(0x001F, 0, 3), Field(0x07E0, 5, 2), Field(0xF800, 11, 3))
    case Bgr888 => Format(t, 3, NO_FIELD, Field(0xFF0000, 16, 0), Field(0x00FF00, 8, 0), Field(0x0000FF, 0, 0))
    case Rgb888 => Format(t, 3, NO_FIELD, Field(0x0000FF, 0, 0), Field(0x00FF00, 8, 0), Field(0xFF0000, 16, 0))
    case Bgra8888 =>
      Format(t, 4, Field(0xFF000000, 24, 0), Field(0xFF0000, 16, 0), Field(0xFF00, 8, 0), Field(0xFF, 0, 0))
    case Argb8888 =>
      Format(t, 4, Field(0xFF, 0, 0), Field(0xFF00, 8, 0), Field(0xFF0000, 16, 0), Field(0xFF000000, 24, 0))
    case Rgba8888 =>
      Format(t, 4, Field(0xFF000000, 24, 0), Field(0xFF, 0, 0), Field(0xFF00, 8, 0), Field(0xFF0000, 16, 0))
    case Abgr8888 =>
      Format(t, 4, Field(0xFF, 0, 0), Field(0xFF000000, 24, 0), Field(0xFF0000, 16, 0), Field(0xFF00, 8, 0))
  }

  /** AM_RGB_PIXEL_TO_COLOR_COMPONENT, stored in a uint8_t. */
  function Extract(f: Field, pix: nat): byte {
    Shl(Shr(And(pix, f.mask), f.offset), f.shift) % 256
  }

  /** AM_COLOR_COMPONENT_TO_RGB_PIXEL. */
  function Insert(f: Field, c: byte): nat {
    And(Shl(Shr(c, f.shift), f.offset), f.mask)
  }

  /** AM_RGB_PIXEL_TO_COLOR. */
  function PixelToColor(f: Format, pix: nat): Color {
    Color(Extract(f.r, pix), Extract(f.g, pix), Extract(f.b, pix),
          if f.a.mask != 0 then Extract(f.a, pix) else 0xFF)
  }

  /** The four parts of a pixel or of a mask, joined with | from left to right. */
  function Joined(m0: nat, m1: nat, m2: nat, m3: nat): nat {
    Or(Or(Or(m0, m1), m2), m3)
  }

  /** AM_COLOR_TO_RGB_PIXEL. */
  function ColorToPixel(f: Format, c: Color): nat {
    Joined(Insert(f.r, c.r), Insert(f.g, c.g), Insert(f.b, c.b), Insert(f.a, c.a))
  }

  /** The pixel value read from the bytes of one pixel. */
  function GetPixel(s: seq<byte>): nat {
    if s == [] then 0 else s[0] + 256 * GetPixel(s[1..])
  }

  /** The bytes a pixel value is stored as; bits above the pixel size are dropped. */
  function PutPixel(v: nat, bpp: nat): (s: seq<byte>)
    ensures |s| == bpp
  {
    if bpp == 0 then [] else [v % 256] + PutPixel(v / 256, bpp - 1)
  }

  /** One component of alpha blending. */
  function Blend(s: byte, d: byte, alpha: byte): byte {
    (s * alpha + d * (255 - alpha)) / 256 % 256
  }

  function Blended(c: Color, d: Color): Color {
    Color(Blend(c.r, d.r, c.a), Blend(c.g, d.g, c.a), Blend(c.b, d.b, c.a), if c.a > d.a then c.a else d.a)
  }

  /** The colour of a source pixel: palette entry, opaque black beyond the palette, or its components. */
  function SourceColor(sf: Format, palette: seq<Color>, pix: nat): Color {
    if sf.kind.Palette256? then
      if pix < |palette| then palette[pix] else Color(0, 0, 0, 0xFF)
    else PixelToColor(sf, pix)
  }

  /**
   * The pixel value read back for alpha blending. The scaling loop has no case for one-byte destination
   * pixels and reads 0 there; the plain loop reads the byte.
   */
  function BlendBase(df: Format, d: seq<byte>, scaling: bool): nat {
    if scaling && df.bpp == 1 then 0 else GetPixel(d)
  }

  /** What both loops store for one pixel: source bytes `s`, bytes `d` already at the destination. */
  function PixelOut(sf: Format, palette: seq<Color>, df: Format, para: BlitPara, scaling: bool,
                    s: seq<byte>, d: seq<byte>): (out: seq<byte>)
    requires |s| == sf.bpp && |d| == df.bpp && df.bpp >= 1
    ensures |out| == |d|
  {
    var pix := GetPixel(s);
    if para.enableKey && pix == para.key then d
    else if df.kind.Palette256? then [pix % 256] + d[1..]
    else
      var col := SourceColor(sf, palette, pix);
      if para.enableAlpha && col.a == 0 then d
      else
        var col' := if para.enableAlpha && col.a != 0xFF
                    then Blended(col, PixelToColor(df, BlendBase(df, d, scaling))) else col;
        PutPixel(ColorToPixel(df, col'), df.bpp)
  }

  // ---- stored pixels ----------------------------------------------------------------------------

  /** Reading the bytes of a pixel and storing the value gives the same bytes. */
  lemma {:induction false} PutGet(s: seq<byte>)
    ensures PutPixel(GetPixel(s), |s|) == s
    ensures GetPixel(s) < Pow2(8 * |s|)
  {
    if s != [] {
      var n := |s| - 1;
      PutGet(s[1..]);
      Pow2Byte(8 * n);
      assert 8 * |s| == 8 * n + 8;
      QuotientUnique(GetPixel(s), 256, GetPixel(s[1..]), s[0]);
      assert s == [s[0]] + s[1..];
    }
  }

  lemma Pow2Byte(k: nat)
    ensures Pow2(k + 8) == 256 * Pow2(k)
  {
    assert Pow2(k + 4) == 16 * Pow2(k) by {
      assert Pow2(k + 2) == 4 * Pow2(k);
    }
    assert Pow2(k + 6) == 4 * Pow2(k + 4);
  }

  // ---- colours ----------------------------------------------------------------------------------

  /** The mask is as many bits as the shift leaves of a byte, moved to the field's place. */
  predicate WellPlaced(f: Field) {
    f.mask == 0 || (f.shift <= 8 && f.mask == Shl(Pow2(8 - f.shift) - 1, f.offset))
  }

  /** The bits of a well-placed field, moved down to 0. */
  function FieldValue(f: Field, pix: nat): nat
    requires f.shift <= 8
  {
    And(Shr(pix, f.offset), Pow2(8 - f.shift) - 1)
  }

  /** `low` is the mask of a field moved down to bit 0. */
  lemma FieldAnd(f: Field, pix: nat, low: nat)
    requires WellPlaced(f) && f.mask != 0 && low == Pow2(8 - f.shift) - 1
    ensures And(pix, f.mask) == Shl(FieldValue(f, pix), f.offset)
  {
    UnderMask(pix, low, f.offset, f.mask);
  }

  lemma UnderMask(pix: nat, low: nat, offset: nat, mask: nat)
    requires mask == Shl(low, offset)
    ensures And(pix, mask) == Shl(And(Shr(pix, offset), low), offset)
  {
    AndShifted(pix, low, offset);
  }

  lemma FieldBelow(f: Field, pix: nat)
    requires f.shift <= 8
    ensures FieldValue(f, pix) < Pow2(8 - f.shift)
  {
    AndBelow(Shr(pix, f.offset), 8 - f.shift);
  }

  lemma FieldExtract(f: Field, pix: nat, v: nat)
    requires And(pix, f.mask) == Shl(v, f.offset) && f.shift <= 8 && v < Pow2(8 - f.shift)
    ensures Extract(f, pix) == Shl(v, f.shift)
  {
    ShlShr(v, f.offset);
    TopOfByte(v, f.shift);
  }

  lemma FieldInsert(f: Field, v: nat, low: nat)
    requires WellPlaced(f) && f.mask != 0 && v < Pow2(8 - f.shift) && low == Pow2(8 - f.shift) - 1
    ensures Shl(v, f.shift) < 256
    ensures Insert(f, Shl(v, f.shift)) == Shl(v, f.offset)
  {
    TopOfByte(v, f.shift);
    ShlShr(v, f.shift);
    AndLowMask(v, 8 - f.shift);
    ShiftedUnderMask(v, low, f.offset, f.mask);
  }

  lemma ShiftedUnderMask(v: nat, low: nat, offset: nat, mask: nat)
    requires And(v, low) == v && mask == Shl(low, offset)
    ensures And(Shl(v, offset), mask) == Shl(v, offset)
  {
    AndShifted(Shl(v, offset), low, offset);
    ShlShr(v, offset);
  }

  /** A component taken out of a pixel and put back is the pixel's own bits under the mask. */
  lemma FieldLossless(f: Field, pix: nat)
    requires WellPlaced(f)
    ensures Insert(f, Extract(f, pix)) == And(pix, f.mask)
  {
    if f.mask == 0 {
      NoField(f, Extract(f, pix), pix);
    } else {
      var low, v := Pow2(8 - f.shift) - 1, FieldValue(f, pix);
      FieldAnd(f, pix, low);
      FieldBelow(f, pix);
      FieldExtract(f, pix, v);
      FieldInsert(f, v, low);
    }
  }

  lemma NoField(f: Field, c: byte, pix: nat)
    requires f.mask == 0
    ensures Insert(f, c) == 0 == And(pix, f.mask)
  {
    AndZero(Shl(Shr(c, f.shift), f.offset));
    AndZero(pix);
  }

  lemma TopOfByte(v: nat, shift: nat)
    requires shift <= 8 && v < Pow2(8 - shift)
    ensures Shl(v, shift) < 256
  {
    ShlBelow(v, 8 - shift, shift);
    PowersOfTwo();
  }

  /** Three fields stacked from bit 0 up, with a fourth on top unless it is empty, filling `bits` bits. */
  predicate Stacked(f0: Field, f1: Field, f2: Field, f3: Field, bits: nat) {
    && WellPlaced(f0) && WellPlaced(f1) && WellPlaced(f2) && WellPlaced(f3)
    && f0.mask != 0 && f1.mask != 0 && f2.mask != 0
    && f0.offset == 0
    && f1.offset == 8 - f0.shift
    && f2.offset == f1.offset + 8 - f1.shift
    && (f3.mask != 0 ==> f3.offset == f2.offset + 8 - f2.shift)
    && bits == (if f3.mask != 0 then f3.offset + 8 - f3.shift else f2.offset + 8 - f2.shift)
  }

  /** What conversion needs of a format: its fields fill the pixel, in one of the orders of the table. */
  predicate FieldsCover(f: Format) {
    || Stacked(f.b, f.g, f.r, f.a, 8 * f.bpp)
    || Stacked(f.r, f.g, f.b, f.a, 8 * f.bpp)
    || Stacked(f.a, f.r, f.g, f.b, 8 * f.bpp)
    || Stacked(f.a, f.b, f.g, f.r, 8 * f.bpp)
  }

  /** Every RGB entry of the table is such a format. */
  lemma TableFieldsCover(t: FormatType)
    requires !t.Palette256?
    ensures FieldsCover(OsdFormat(t))
  {
    TableFieldsPlaced(t);
  }

  lemma TableFieldsPlaced(t: FormatType)
    ensures FieldsPlaced(OsdFormat(t))
  {
    if OsdFormat(t).bpp <= 2 {
      SmallFieldsPlaced(t);
    } else {
      LargeFieldsPlaced(t);
    }
  }

  predicate FieldsPlaced(f: Format) {
    WellPlaced(f.r) && WellPlaced(f.g) && WellPlaced(f.b) && WellPlaced(f.a)
  }

  lemma SmallFieldsPlaced(t: FormatType)
    requires OsdFormat(t).bpp <= 2
    ensures FieldsPlaced(OsdFormat(t))
  {
    PowersOfTwo();
    ShlByte(15, 0);
    ShlByte(15, 4);
    ShlByte(1, 7);
    ShlByte(31, 2);
    ShlByte(31, 3);
  }

  lemma LargeFieldsPlaced(t: FormatType)
    requires OsdFormat(t).bpp > 2
    ensures FieldsPlaced(OsdFormat(t))
  {
    ByteMasks();
  }

  lemma ByteMasks()
    ensures Pow2(8) - 1 == 255 == Shl(255, 0)
    ensures Shl(255, 8) == 0xFF00 && Shl(255, 16) == 0xFF0000 && Shl(255, 24) == 0xFF000000
  {
    PowersOfTwo();
    ShlByte(255, 0);
    ShlByte(255, 8);
    ShlByte(255, 16);
  }

  lemma ShlByte(a: nat, k: nat)
    ensures Shl(a, k + 8) == 256 * Shl(a, k)
  {
    assert Shl(a, k + 2) == 4 * Shl(a, k);
    assert Shl(a, k + 4) == 4 * Shl(a, k + 2);
    assert Shl(a, k + 6) == 4 * Shl(a, k + 4);
  }

  /** Mask m fills the bits from k up to k'. */
  predicate Fills(k: nat, m: nat, k': nat) {
    Or(Pow2(k) - 1, m) == Pow2(k') - 1
  }

  /** Four masks, joined in this order, are the `bits` lowest bits. */
  predicate Cover(m0: nat, m1: nat, m2: nat, m3: nat, bits: nat) {
    Joined(m0, m1, m2, m3) == Pow2(bits) - 1
  }

  lemma StackedMasks(f0: Field, f1: Field, f2: Field, f3: Field, bits: nat)
    requires Stacked(f0, f1, f2, f3, bits)
    ensures Cover(f0.mask, f1.mask, f2.mask, f3.mask, bits)
  {
    var top := f2.offset + 8 - f2.shift;
    StackBase(f0, f1.offset);
    StackOne(f1, f2.offset);
    StackOne(f2, top);
    StackTop(f3, top, bits);
    JoinStack(f0.mask, f1.mask, f2.mask, f3.mask, f1.offset, f2.offset, top, bits);
  }

  lemma StackBase(f: Field, to: nat)
    requires WellPlaced(f) && f.mask != 0 && f.offset == 0 && to == 8 - f.shift
    ensures Fills(0, f.mask, to)
  {
  }

  lemma StackOne(f: Field, to: nat)
    requires WellPlaced(f) && f.mask != 0 && to == f.offset + 8 - f.shift
    ensures Fills(f.offset, f.mask, to)
  {
    FillsUpTo(f.offset, 8 - f.shift, to);
  }

  lemma FillsUpTo(k: nat, w: nat, to: nat)
    requires to == k + w
    ensures Fills(k, Shl(Pow2(w) - 1, k), to)
  {
    OrStacks(k, w);
  }

  lemma StackTop(f: Field, from: nat, to: nat)
    requires WellPlaced(f)
    requires if f.mask != 0 then f.offset == from && to == from + 8 - f.shift else to == from
    ensures Fills(from, f.mask, to)
  {
    if f.mask != 0 {
      StackOne(f, to);
    } else {
      OrZero(Pow2(from) - 1);
    }
  }

  lemma JoinStack(m0: nat, m1: nat, m2: nat, m3: nat, k1: nat, k2: nat, k3: nat, k4: nat)
    requires Fills(0, m0, k1) && Fills(k1, m1, k2) && Fills(k2, m2, k3) && Fills(k3, m3, k4)
    ensures Cover(m0, m1, m2, m3, k4)
  {
  }

  /** The order of the parts does not matter. */
  lemma JoinedInAnyOrder(r: nat, g: nat, b: nat, a: nat)
    ensures Joined(r, g, b, a) == Joined(b, g, r, a) == Joined(a, r, g, b) == Joined(a, b, g, r)
  {
    OrCommutes(r, g);
    OrAssociates(g, r, b);
    OrCommutes(r, b);
    OrAssociates(g, b, r);
    OrCommutes(g, b);
    OrCommutes(Or(Or(r, g), b), a);
    OrAssociates(a, Or(r, g), b);
    OrAssociates(a, r, g);
    OrAssociates(a, Or(b, g), r);
    OrAssociates(a, b, g);
  }

  lemma CoverMasks(f: Format)
    requires FieldsCover(f)
    ensures WellPlaced(f.r) && WellPlaced(f.g) && WellPlaced(f.b) && WellPlaced(f.a)
    ensures Cover(f.r.mask, f.g.mask, f.b.mask, f.a.mask, 8 * f.bpp)
  {
    var bits := 8 * f.bpp;
    JoinedInAnyOrder(f.r.mask, f.g.mask, f.b.mask, f.a.mask);
    if Stacked(f.b, f.g, f.r, f.a, bits) {
      StackedMasks(f.b, f.g, f.r, f.a, bits);
    } else if Stacked(f.r, f.g, f.b, f.a, bits) {
      StackedMasks(f.r, f.g, f.b, f.a, bits);
    } else if Stacked(f.a, f.r, f.g, f.b, bits) {
      StackedMasks(f.a, f.r, f.g, f.b, bits);
    } else {
      StackedMasks(f.a, f.b, f.g, f.r, bits);
    }
  }

  lemma MaskedParts(pix: nat, r: nat, g: nat, b: nat, a: nat)
    ensures Joined(And(pix, r), And(pix, g), And(pix, b), And(pix, a)) == And(pix, Joined(r, g, b, a))
  {
    AndOverOr(pix, r, g);
    AndOverOr(pix, Or(r, g), b);
    AndOverOr(pix, Or(Or(r, g), b), a);
  }

  /**
   * Decoding a pixel to a colour and encoding the colour again is the identity on pixels of the
   * format's size.
   */
  lemma ColorRoundTrip(f: Format, pix: nat)
    requires FieldsCover(f)
    requires pix < Pow2(8 * f.bpp)
    ensures ColorToPixel(f, PixelToColor(f, pix)) == pix
  {
    CoverMasks(f);
    PixelParts(f, pix, PixelToColor(f, pix));
    MaskedParts(pix, f.r.mask, f.g.mask, f.b.mask, f.a.mask);
    AndLowMask(pix, 8 * f.bpp);
  }

  /** Encoding the colour of a pixel joins the pixel's own bits under each mask. */
  lemma PixelParts(f: Format, pix: nat, c: Color)
    requires FieldsPlaced(f) && c == PixelToColor(f, pix)
    ensures ColorToPixel(f, c) == Joined(And(pix, f.r.mask), And(pix, f.g.mask), And(pix, f.b.mask), And(pix, f.a.mask))
  {
    FieldLossless(f.r, pix);
    FieldLossless(f.g, pix);
    FieldLossless(f.b, pix);
    if f.a.mask == 0 {
      NoField(f.a, c.a, pix);
    } else {
      FieldLossless(f.a, pix);
    }
  }

  /**
   * Between surfaces of one format, with alpha and key off, the conversion loop stores the source
   * pixel's own bytes.
   */
  lemma SameFormatCopies(t: FormatType, palette: seq<Color>, para: BlitPara, scaling: bool, s: seq<byte>, d: seq<byte>)
    requires |s| == |d| == OsdFormat(t).bpp
    requires !para.enableAlpha && !para.enableKey
    ensures PixelOut(OsdFormat(t), palette, OsdFormat(t), para, scaling, s, d) == s
  {
    PutGet(s);
    if t.Palette256? {
      assert s == [s[0]] && d[1..] == [];
    } else {
      TableFieldsCover(t);
      ColorRoundTrip(OsdFormat(t), GetPixel(s));
    }
  }
}
