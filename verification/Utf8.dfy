// The UTF-8 decoder and cleaner of am_adp/am_misc/am_misc.c, for the forms of one to six bytes of section 2 of
// RFC 2279. Masks and shifts of bytes are written as divisions, remainders and products.

module Utf8 {
  import opened Bits
  import opened Seqs

  const LIMIT := 0x8000_0000

  // ---- the encoding of RFC 2279 -----------------------------------------------------------------

  /** How many bytes the shortest encoding of a value takes. */
  function Width(v: nat): (n: nat)
    ensures 1 <= n <= 6
  {
    if v < 0x80 then 1 else if v < 0x800 then 2 else if v < 0x1_0000 then 3
    else if v < 0x20_0000 then 4 else if v < 0x400_0000 then 5 else 6
  }

  /** What marks the first byte of an n-byte form. */
  function Tag(n: nat): nat
    requires 1 <= n <= 6
  {
    if n == 1 then 0 else if n == 2 then 0xC0 else if n == 3 then 0xE0 else if n == 4 then 0xF0
    else if n == 5 then 0xF8 else 0xFC
  }

  /** How many values the first byte of an n-byte form has room for. */
  function LeadRoom(n: nat): nat
    requires 1 <= n <= 6
  {
    if n == 1 then 0x80 else if n == 2 then 32 else if n == 3 then 16 else if n == 4 then 8
    else if n == 5 then 4 else 2
  }

  /** The value without its k lowest groups of six bits. */
  function Top(v: nat, k: nat): nat {
    if k == 0 then v else Top(v / 64, k - 1)
  }

  /** The k lowest groups of six bits, each marked 10. */
  function Tail(v: nat, k: nat): (s: seq<byte>)
    ensures |s| == k
  {
    if k == 0 then [] else Tail(v / 64, k - 1) + [0x80 + v % 64]
  }

  lemma TopFits(v: nat, n: nat)
    requires 1 <= n <= 6
    ensures Top(v, n - 1) < LeadRoom(n) <==>
            v < (if n == 1 then 0x80 else if n == 2 then 0x800 else if n == 3 then 0x1_0000
                 else if n == 4 then 0x20_0000 else if n == 5 then 0x400_0000 else LIMIT)
  {
    var a := v / 64;
    var b := a / 64;
    var c := b / 64;
    var d := c / 64;
    var e := d / 64;
    assert Top(v, 0) == v && Top(v, 1) == Top(a, 0) == a;
    assert Top(v, 2) == Top(a, 1) == Top(b, 0) == b;
    assert Top(v, 3) == Top(a, 2) == Top(b, 1) == Top(c, 0) == c;
    assert Top(v, 4) == Top(a, 3) == Top(b, 2) == Top(c, 1) == Top(d, 0) == d;
    assert Top(v, 5) == Top(a, 4) == Top(b, 3) == Top(c, 2) == Top(d, 1) == Top(e, 0) == e;
  }

  /** The shortest encoding of a value. */
  function Encode(v: nat): (s: seq<byte>)
    requires v < LIMIT
    ensures |s| == Width(v)
  {
    TopFits(v, Width(v));
    [Tag(Width(v)) + Top(v, Width(v) - 1)] + Tail(v, Width(v) - 1)
  }

  /** The bytes of each form, as RFC 2279 lists them. */
  lemma EncodeBytes(v: nat)
    requires v < LIMIT
    ensures Encode(v) ==
            if v < 0x80 then [v]
            else if v < 0x800 then [0xC0 + v / 0x40, 0x80 + v % 0x40]
            else if v < 0x1_0000 then [0xE0 + v / 0x1000, 0x80 + v / 0x40 % 0x40, 0x80 + v % 0x40]
            else if v < 0x20_0000 then
              [0xF0 + v / 0x4_0000, 0x80 + v / 0x1000 % 0x40, 0x80 + v / 0x40 % 0x40, 0x80 + v % 0x40]
            else if v < 0x400_0000 then
              [0xF8 + v / 0x100_0000, 0x80 + v / 0x4_0000 % 0x40, 0x80 + v / 0x1000 % 0x40, 0x80 + v / 0x40 % 0x40,
               0x80 + v % 0x40]
            else
              [0xFC + v / 0x4000_0000, 0x80 + v / 0x100_0000 % 0x40, 0x80 + v / 0x4_0000 % 0x40,
               0x80 + v / 0x1000 % 0x40, 0x80 + v / 0x40 % 0x40, 0x80 + v % 0x40]
  {
    var a, b, c, d := v / 0x40, v / 0x1000, v / 0x4_0000, v / 0x100_0000;
    Quotients(v);
    TailBytes(v, a, b, c, d);
  }

  /** Divisions by powers of 64, and the highest part of each form. */
  lemma Quotients(v: nat)
    ensures v / 0x1000 == v / 64 / 64 && v / 0x4_0000 == v / 0x1000 / 64
    ensures v / 0x100_0000 == v / 0x4_0000 / 64 && v / 0x4000_0000 == v / 0x100_0000 / 64
    ensures Top(v, 0) == v && Top(v, 1) == v / 64 && Top(v, 2) == v / 0x1000 && Top(v, 3) == v / 0x4_0000
    ensures Top(v, 4) == v / 0x100_0000 && Top(v, 5) == v / 0x4000_0000
  {
    var a := v / 64;
    var b := a / 64;
    var c := b / 64;
    var d := c / 64;
    var e := d / 64;
    assert b == v / 0x1000 && c == v / 0x4_0000 && d == v / 0x100_0000 && e == v / 0x4000_0000;
    assert Top(v, 0) == v && Top(v, 1) == Top(a, 0) == a;
    assert Top(v, 2) == Top(a, 1) == Top(b, 0) == b;
    assert Top(v, 3) == Top(a, 2) == Top(b, 1) == Top(c, 0) == c;
    assert Top(v, 4) == Top(a, 3) == Top(b, 2) == Top(c, 1) == Top(d, 0) == d;
    assert Top(v, 5) == Top(a, 4) == Top(b, 3) == Top(c, 2) == Top(d, 1) == Top(e, 0) == e;
  }

  function TailByte(v: nat): byte {
    0x80 + v % 64
  }

  lemma TailBytes(v: nat, a: nat, b: nat, c: nat, d: nat)
    requires a == v / 64 && b == a / 64 && c == b / 64 && d == c / 64
    ensures Tail(v, 0) == [] && Tail(v, 1) == [TailByte(v)] && Tail(v, 2) == [TailByte(a), TailByte(v)]
    ensures Tail(v, 3) == [TailByte(b), TailByte(a), TailByte(v)]
    ensures Tail(v, 4) == [TailByte(c), TailByte(b), TailByte(a), TailByte(v)]
    ensures Tail(v, 5) == [TailByte(d), TailByte(c), TailByte(b), TailByte(a), TailByte(v)]
  {
    assert Tail(a, 1) == Tail(b, 0) + [TailByte(a)] && Tail(b, 1) == Tail(c, 0) + [TailByte(b)];
    assert Tail(c, 1) == Tail(d, 0) + [TailByte(c)] && Tail(d, 1) == [TailByte(d)];
    assert Tail(c, 2) == Tail(d, 1) + [TailByte(c)];
    assert Tail(b, 2) == Tail(c, 1) + [TailByte(b)] && Tail(b, 3) == Tail(c, 2) + [TailByte(b)];
    assert Tail(a, 2) == Tail(b, 1) + [TailByte(a)] && Tail(a, 3) == Tail(b, 2) + [TailByte(a)];
    assert Tail(a, 4) == Tail(b, 3) + [TailByte(a)];
  }

  // ---- the decoder ------------------------------------------------------------------------------

  /** The answers of UTF8_getc: a character and its width, 0 for no input, or one of the errors -1 to -4. */
  datatype Decoded = Char(value: nat, width: nat) | NoInput | TooShort | Illegal | BadTail | Overlong

  predicate IsTail(b: byte) {
    b / 64 == 2
  }

  predicate AllTail(s: seq<byte>) {
    forall i :: 0 <= i < |s| ==> IsTail(s[i])
  }

  /** The value of a first byte's bits followed by tail bytes. */
  function Assemble(lead: nat, tail: seq<byte>): nat
    decreases |tail|
  {
    if tail == [] then lead else 64 * Assemble(lead, tail[..|tail| - 1]) + tail[|tail| - 1] % 64
  }

  /** The branch of UTF8_getc for a form of n bytes whose smallest permitted value is `least`. */
  function GetForm(s: seq<byte>, n: nat, lead: nat, least: nat): Decoded
    requires n >= 1
  {
    if |s| < n then TooShort
    else if !AllTail(s[1..n]) then BadTail
    else if Assemble(lead, s[1..n]) < least then Overlong
    else Char(Assemble(lead, s[1..n]), n)
  }

  /** UTF8_getc. */
  function Getc(s: seq<byte>): Decoded {
    if s == [] then NoInput
    else if s[0] / 128 == 0 then Char(s[0], 1)
    else if s[0] / 32 == 6 then GetForm(s, 2, s[0] % 32, 0x80)
    else if s[0] / 16 == 14 then GetForm(s, 3, s[0] % 16, 0x800)
    else if s[0] / 8 == 30 then GetForm(s, 4, s[0] % 8, 0x1_0000)
    else if s[0] / 4 == 62 then GetForm(s, 5, s[0] % 4, 0x20_0000)
    else if s[0] / 2 == 126 then GetForm(s, 6, s[0] % 2, 0x400_0000)
    else Illegal
  }

  // ---- the decoder is the exact inverse of the encoding -----------------------------------------

  lemma {:induction false} AssembleTail(v: nat, k: nat)
    ensures AllTail(Tail(v, k)) && Assemble(Top(v, k), Tail(v, k)) == v
  {
    if k > 0 {
      AssembleTail(v / 64, k - 1);
      assert Tail(v, k)[..k - 1] == Tail(v / 64, k - 1);
    }
  }

  lemma {:induction false} TailAssembled(lead: nat, tail: seq<byte>)
    requires AllTail(tail)
    ensures var v := Assemble(lead, tail); Top(v, |tail|) == lead && Tail(v, |tail|) == tail
    decreases |tail|
  {
    if tail != [] {
      var init, last := tail[..|tail| - 1], tail[|tail| - 1];
      assert IsTail(last);
      TailAssembled(lead, init);
      var v := Assemble(lead, tail);
      assert v / 64 == Assemble(lead, init) && v % 64 == last % 64;
      assert tail == init + [last];
    }
  }

  /** The least value of each form. */
  function Least(n: nat): nat
    requires 1 <= n <= 6
  {
    if n == 1 then 0 else if n == 2 then 0x80 else if n == 3 then 0x800 else if n == 4 then 0x1_0000
    else if n == 5 then 0x20_0000 else 0x400_0000
  }

  /** The first byte has the tag of an n-byte form. */
  predicate IsLead(b: byte, n: nat)
    requires 1 <= n <= 6
  {
    Tag(n) <= b < Tag(n) + LeadRoom(n)
  }

  /** The branches of UTF8_getc, by the form that the first byte announces. */
  lemma GetcByForm(s: seq<byte>, n: nat)
    requires s != [] && 1 <= n <= 6 && IsLead(s[0], n)
    ensures Getc(s) == GetForm(s, n, s[0] - Tag(n), Least(n))
  {
    if n == 1 {
      assert s[1..1] == [];
    }
  }

  lemma NoForm(s: seq<byte>)
    requires s != [] && forall n :: 1 <= n <= 6 ==> !IsLead(s[0], n)
    ensures Getc(s) == Illegal
  {
    assert !IsLead(s[0], 1) && !IsLead(s[0], 2) && !IsLead(s[0], 3);
    assert !IsLead(s[0], 4) && !IsLead(s[0], 5) && !IsLead(s[0], 6);
  }

  lemma EncodeDecodes(v: nat, rest: seq<byte>)
    requires v < LIMIT
    ensures Getc(Encode(v) + rest) == Char(v, Width(v))
  {
    var n, s := Width(v), Encode(v) + rest;
    TopFits(v, n);
    AssembleTail(v, n - 1);
    assert s[1..n] == Tail(v, n - 1);
    GetcByForm(s, n);
  }

  lemma DecodedIsEncoded(s: seq<byte>)
    requires Getc(s).Char?
    ensures var d := Getc(s);
            d.value < LIMIT && d.width == Width(d.value) && d.width <= |s| && s[..d.width] == Encode(d.value)
  {
    if n :| 1 <= n <= 6 && IsLead(s[0], n) {
      GetcByForm(s, n);
      FormIsEncoded(s, n, Getc(s).value);
    } else {
      NoForm(s);
    }
  }

  lemma FormIsEncoded(s: seq<byte>, n: nat, v: nat)
    requires s != [] && 1 <= n <= 6 && IsLead(s[0], n)
    requires GetForm(s, n, s[0] - Tag(n), Least(n)) == Char(v, n)
    ensures v < LIMIT && n == Width(v) && n <= |s| && s[..n] == Encode(v)
  {
    var tail := s[1..n];
    TailAssembled(s[0] - Tag(n), tail);
    TopFits(v, n);
    assert Width(v) == n;
    assert s[..n] == [s[0]] + tail;
  }

  /**
   * The decoder is an exact inverse: it answers value and width exactly when the input starts with the shortest
   * encoding of that value, so its success depends on those bytes alone.
   */
  lemma DecodesExactly(s: seq<byte>, v: nat, n: nat)
    ensures Getc(s) == Char(v, n) <==> v < LIMIT && n == Width(v) && n <= |s| && s[..n] == Encode(v)
  {
    if Getc(s) == Char(v, n) {
      DecodedIsEncoded(s);
    }
    if v < LIMIT && n == Width(v) && n <= |s| && s[..n] == Encode(v) {
      EncodeDecodes(v, s[n..]);
      assert Encode(v) + s[n..] == s;
    }
  }

  /** How many bytes the first byte announces; 0 for one that starts no form. */
  function Announced(b: byte): nat {
    if b < 0x80 then 1 else if b < 0xC0 then 0 else if b < 0xE0 then 2 else if b < 0xF0 then 3 else if b < 0xF8 then 4
    else if b < 0xFC then 5 else if b < 0xFE then 6 else 0
  }

  /** What each error means; one that is left over is a longer form of a value than need be. */
  lemma ErrorsMean(s: seq<byte>)
    ensures Getc(s) == NoInput <==> s == []
    ensures Getc(s) == Illegal <==> s != [] && Announced(s[0]) == 0
    ensures Getc(s) == TooShort <==> s != [] && Announced(s[0]) > |s|
    ensures Getc(s) == BadTail <==>
            && s != [] && Announced(s[0]) <= |s|
            && exists i :: 1 <= i < Announced(s[0]) && !(0x80 <= s[i] < 0xC0)
  {
    if s != [] {
      if n :| 1 <= n <= 6 && IsLead(s[0], n) {
        GetcByForm(s, n);
        assert Announced(s[0]) == n;
        if n <= |s| {
          assert forall i :: 1 <= i < n ==> s[i] == s[1..n][i - 1] && (IsTail(s[i]) <==> 0x80 <= s[i] < 0xC0);
        }
      } else {
        NoForm(s);
        assert !IsLead(s[0], 1) && !IsLead(s[0], 2) && !IsLead(s[0], 3);
        assert !IsLead(s[0], 4) && !IsLead(s[0], 5) && !IsLead(s[0], 6);
      }
    }
  }

  /** No encoding is the beginning of another one. */
  lemma PrefixFree(v: nat, w: nat)
    requires v < LIMIT && w < LIMIT && Encode(v) <= Encode(w)
    ensures v == w
  {
    EncodeDecodes(w, []);
    assert Encode(w) + [] == Encode(w);
    EncodeDecodes(v, Encode(w)[Width(v)..]);
    assert Encode(v) + Encode(w)[Width(v)..] == Encode(w);
  }

  // ---- the cleaner ------------------------------------------------------------------------------

  /** The encoded characters of a string; bytes that do not start one are skipped one by one. */
  function Chars(s: seq<byte>): seq<seq<byte>>
    decreases |s|
  {
    if s == [] then []
    else if Getc(s).Char? then
      DecodedIsEncoded(s);
      [s[..Getc(s).width]] + Chars(s[Getc(s).width..])
    else Chars(s[1..])
  }

  function Concat(cs: seq<seq<byte>>): seq<byte> {
    if cs == [] then [] else cs[0] + Concat(cs[1..])
  }

  /** The leading characters that fit; the first one that does not ends the output. */
  function Fitting(cs: seq<seq<byte>>, room: int): seq<seq<byte>>
    decreases |cs|
  {
    if cs == [] || |cs[0]| > room then [] else [cs[0]] + Fitting(cs[1..], room - |cs[0]|)
  }

  /** What AM_Check_UTF8 leaves in the destination. */
  function Filter(src: seq<byte>, room: int): seq<byte> {
    Concat(Fitting(Chars(src), room))
  }

  /** A concatenation of shortest encodings. */
  ghost predicate IsEncoding(c: seq<byte>) {
    exists v: nat :: v < LIMIT && c == Encode(v)
  }

  ghost predicate AllEncodings(cs: seq<seq<byte>>) {
    forall i :: 0 <= i < |cs| ==> IsEncoding(cs[i])
  }

  ghost predicate WellFormed(s: seq<byte>) {
    exists cs :: AllEncodings(cs) && s == Concat(cs)
  }

  /** A character in front is taken whole. */
  lemma CharsTake(v: nat, rest: seq<byte>)
    requires v < LIMIT
    ensures Chars(Encode(v) + rest) == [Encode(v)] + Chars(rest)
  {
    var s := Encode(v) + rest;
    EncodeDecodes(v, rest);
    assert s[..Width(v)] == Encode(v) && s[Width(v)..] == rest;
  }

  lemma NoneStarts(s: seq<byte>)
    requires forall v :: 0 <= v < LIMIT ==> !(Encode(v) <= s)
    ensures !Getc(s).Char?
  {
    if Getc(s).Char? {
      DecodedIsEncoded(s);
    }
  }

  /** Bytes in front at which no encoding starts are left out, and nothing behind them. */
  lemma {:induction false} CharsSkip(stray: seq<byte>, rest: seq<byte>)
    requires forall i, v :: 0 <= i < |stray| && 0 <= v < LIMIT ==> !(Encode(v) <= (stray + rest)[i..])
    ensures Chars(stray + rest) == Chars(rest)
    decreases |stray|
  {
    var s := stray + rest;
    if stray == [] {
      assert s == rest;
    } else {
      forall v | 0 <= v < LIMIT
        ensures !(Encode(v) <= s)
      {
        assert s[0..] == s;
      }
      NoneStarts(s);
      assert s[1..] == stray[1..] + rest;
      forall i, v | 0 <= i < |stray[1..]| && 0 <= v < LIMIT
        ensures !(Encode(v) <= (stray[1..] + rest)[i..])
      {
        assert (stray[1..] + rest)[i..] == s[i + 1..];
      }
      CharsSkip(stray[1..], rest);
    }
  }

  lemma {:induction false} CharsAreEncodings(s: seq<byte>)
    ensures AllEncodings(Chars(s))
    decreases |s|
  {
    if s != [] {
      if Getc(s).Char? {
        DecodedIsEncoded(s);
        CharsAreEncodings(s[Getc(s).width..]);
      } else {
        CharsAreEncodings(s[1..]);
      }
    }
  }

  lemma {:induction false} CharsOfConcat(cs: seq<seq<byte>>)
    requires AllEncodings(cs)
    ensures Chars(Concat(cs)) == cs
    decreases |cs|
  {
    if cs != [] {
      assert IsEncoding(cs[0]);
      var v: nat :| v < LIMIT && cs[0] == Encode(v);
      var s := Concat(cs);
      EncodeDecodes(v, Concat(cs[1..]));
      assert s[..Width(v)] == cs[0] && s[Width(v)..] == Concat(cs[1..]);
      CharsOfConcat(cs[1..]);
    }
  }

  lemma {:induction false} FittingFits(cs: seq<seq<byte>>, room: int)
    requires AllEncodings(cs)
    ensures var f := Fitting(cs, room);
            && |f| <= |cs| && f == cs[..|f|] && |Concat(f)| <= (if room < 0 then 0 else room)
            && (|f| < |cs| ==> |Concat(f)| + |cs[|f|]| > room)
    decreases |cs|
  {
    if cs != [] && |cs[0]| <= room {
      assert IsEncoding(cs[0]);
      assert forall i :: 0 <= i < |cs[1..]| ==> cs[1..][i] == cs[i + 1];
      FittingFits(cs[1..], room - |cs[0]|);
      var f, g := Fitting(cs, room), Fitting(cs[1..], room - |cs[0]|);
      assert f[1..] == g;
      if |f| < |cs| {
        assert cs[|f|] == cs[1..][|g|];
      }
    }
  }

  lemma {:induction false} AllFit(cs: seq<seq<byte>>, room: int)
    requires |Concat(cs)| <= room
    ensures Fitting(cs, room) == cs
    decreases |cs|
  {
    if cs != [] {
      AllFit(cs[1..], room - |cs[0]|);
    }
  }

  /**
   * For every input and every room the output fits, is a sequence of valid encodings, namely the leading
   * characters of the input, and stops only before one that would not fit.
   */
  lemma FilterCleans(src: seq<byte>, room: int)
    ensures var out := Filter(src, room);
            && WellFormed(out) && |out| <= (if room < 0 then 0 else room)
            && Chars(out) <= Chars(src)
            && (|Chars(out)| < |Chars(src)| ==> |out| + |Chars(src)[|Chars(out)|]| > room)
  {
    var cs := Chars(src);
    CharsAreEncodings(src);
    FittingFits(cs, room);
    var f := Fitting(cs, room);
    assert AllEncodings(f);
    CharsOfConcat(f);
  }

  /** Well-formed input that fits is unchanged, and only such input. */
  lemma FilterKeepsExactly(src: seq<byte>, room: int)
    ensures Filter(src, room) == src <==> WellFormed(src) && (src == [] || |src| <= room)
  {
    if WellFormed(src) && (src == [] || |src| <= room) {
      var cs :| AllEncodings(cs) && src == Concat(cs);
      CharsOfConcat(cs);
      if src != [] {
        AllFit(cs, room);
      }
    }
    if Filter(src, room) == src {
      FilterCleans(src, room);
    }
  }

  /** Filtering twice is filtering once. */
  lemma FilterIdempotent(src: seq<byte>, room: int)
    ensures Filter(Filter(src, room), room) == Filter(src, room)
  {
    var out := Filter(src, room);
    FilterCleans(src, room);
    FilterKeepsExactly(out, room);
  }

  /** `out` has been written, `left` is still to be read. */
  predicate Progress(out: seq<byte>, left: seq<byte>, room: int, all: seq<byte>) {
    out + Filter(left, room - |out|) == all
  }

  lemma Skips(out: seq<byte>, left: seq<byte>, room: int, all: seq<byte>)
    requires Progress(out, left, room, all) && left != [] && !Getc(left).Char?
    ensures Progress(out, left[1..], room, all)
  {
  }

  lemma Takes(out: seq<byte>, left: seq<byte>, room: int, all: seq<byte>)
    requires Progress(out, left, room, all) && Getc(left).Char? && |out| + Getc(left).width <= room
    ensures var n := Getc(left).width;
            1 <= n <= |left| && Progress(out + left[..n], left[n..], room, all)
  {
    var n := Getc(left).width;
    DecodedIsEncoded(left);
    var more := Fitting(Chars(left[n..]), room - |out| - n);
    assert Fitting(Chars(left), room - |out|) == [left[..n]] + more && ([left[..n]] + more)[1..] == more;
    Regroup(out, left[..n], Concat(more));
  }

  lemma Stops(out: seq<byte>, left: seq<byte>, room: int, all: seq<byte>)
    requires Progress(out, left, room, all)
    requires left == [] || (Getc(left).Char? && |out| + Getc(left).width > room)
    ensures out == all
  {
    if left != [] {
      DecodedIsEncoded(left);
    }
    assert Filter(left, room - |out|) == [];
  }

  /** `out` stands at the beginning of the destination, and the rest is as before. */
  ghost predicate Written(dest: seq<byte>, before: seq<byte>, out: seq<byte>) {
    |out| <= |dest| == |before| && dest[..|out|] == out && dest[|out|..] == before[|out|..]
  }

  /** memcpy behind what has been written. */
  method CopyBytes(dest: array<byte>, at: nat, src: array<byte>, from: nat, n: nat,
                   ghost before: seq<byte>, ghost out: seq<byte>, ghost bytes: seq<byte>)
    requires at + n <= dest.Length && from + n <= src.Length && src != dest
    requires Written(dest[..], before, out) && |out| == at && bytes == src[from..from + n]
    modifies dest
    ensures Written(dest[..], before, out + bytes)
  {
    forall k | 0 <= k < n {
      dest[at + k] := src[from + k];
    }
  }

  /** A byte that starts no character is left out. */
  lemma SkipsAt(text: seq<byte>, p: nat, out: seq<byte>, room: int, all: seq<byte>)
    requires p < |text| && Progress(out, text[p..], room, all) && !Getc(text[p..]).Char?
    ensures Progress(out, text[p + 1..], room, all)
  {
    Skips(out, text[p..], room, all);
    assert text[p..][1..] == text[p + 1..];
  }

  /** A character that fits is copied. */
  method TakeChar(dest: array<byte>, at: nat, src: array<byte>, p: nat, n: nat, room: int,
                  ghost before: seq<byte>, ghost text: seq<byte>, ghost out: seq<byte>, ghost all: seq<byte>)
    returns (ghost more: seq<byte>)
    requires src != dest && p < |text| <= src.Length && text == src[..|text|]
    requires Progress(out, text[p..], room, all) && Written(dest[..], before, out) && |out| == at
    requires Getc(text[p..]).Char? && n == Getc(text[p..]).width && at + n <= room <= dest.Length
    modifies dest
    ensures 1 <= n && p + n <= |text| && |more| == at + n && Written(dest[..], before, more)
    ensures Progress(more, text[p + n..], room, all)
  {
    ghost var left := text[p..];
    Takes(out, left, room, all);
    assert left[..n] == src[p..p + n] && left[n..] == text[p + n..];
    CopyBytes(dest, at, src, p, n, before, out, left[..n]);
    more := out + left[..n];
  }

  /**
   * AM_Check_UTF8 with traverse_string. A negative length of the source would not end in the original; a negative
   * length of the destination leaves no room.
   */
  method CheckUtf8(src: array<byte>, srcLen: nat, dest: array<byte>, destLen: int) returns (nchar: nat)
    requires srcLen <= src.Length && destLen <= dest.Length && src != dest
    modifies dest
    ensures nchar == |Filter(src[..srcLen], destLen)| <= dest.Length
    ensures dest[..nchar] == Filter(src[..srcLen], destLen) && dest[nchar..] == old(dest[nchar..])
  {
    nchar := 0;
    var p: nat, len: nat := 0, srcLen;
    ghost var before, text, out := dest[..], src[..srcLen], [];
    ghost var all := Filter(text, destLen);
    ghost var left := text;
    while len != 0
      invariant p + len == srcLen && |out| == nchar && left == text[p..]
      invariant Progress(out, left, destLen, all) && Written(dest[..], before, out)
      decreases len
    {
      assert src[p..srcLen] == left;
      var d := Getc(src[p..srcLen]);
      if !d.Char? {
        SkipsAt(text, p, out, destLen, all);
        len := len - 1;
        p := p + 1;
        left := text[p..];
        continue;
      }
      var ret := d.width;
      if nchar + ret > destLen {
        break;
      }
      out := TakeChar(dest, nchar, src, p, ret, destLen, before, text, out, all);
      len := len - ret;
      p := p + ret;
      nchar := nchar + ret;
      left := text[p..];
    }
    Stops(out, left, destLen, all);
  }
}
