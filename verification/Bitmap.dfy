/** The 24-bit BMP codec: a header, then rows from the bottom up, each padded to a multiple of four. */
module Bitmap {
  import opened Bytes
  import opened Powers

  const HEADER: nat := 54
  const U16: nat := 0x1_0000

  /** The largest width and height that a reader accepts. */
  const SIDE: nat := 0x7FFF

  type Pixel = x: int | 0 <= x < 0x1_0000_0000

  /** What `bmp_parse` reports of a file. */
  datatype Picture = NoPicture | Picture(w: nat, h: nat, off: nat)

  // ---- Numbers in a file ----------------------------------------------------------------

  function Put16(v: nat): (b: seq<Byte>)
    ensures |b| == 2
  {
    [v % 0x100, v / 0x100 % 0x100]
  }

  function Put32(v: nat): (b: seq<Byte>)
    ensures |b| == 4
  {
    Put16(v) + Put16(v / U16)
  }

  function Get16(b: seq<Byte>, at: nat): (v: nat)
    requires at + 2 <= |b|
    ensures v < U16
  {
    b[at] as int + 0x100 * b[at + 1] as int
  }

  function Get32(b: seq<Byte>, at: nat): (v: nat)
    requires at + 4 <= |b|
    ensures v < U32
  {
    Get16(b, at) + U16 * Get16(b, at + 2)
  }

  lemma Get16Reads(b: seq<Byte>, at: nat, v: nat)
    requires at + 2 <= |b| && v < U16 && b[at..at + 2] == Put16(v)
    ensures Get16(b, at) == v
  {
    assert b[at] == b[at..at + 2][0] && b[at + 1] == b[at..at + 2][1];
  }

  lemma Get32Reads(b: seq<Byte>, at: nat, v: nat)
    requires at + 4 <= |b| && v < U32 && b[at..at + 4] == Put32(v)
    ensures Get32(b, at) == v
  {
    assert b[at..at + 2] == b[at..at + 4][..2] && b[at + 2..at + 4] == b[at..at + 4][2..];
    Low16(b, at, v);
    Get16Reads(b, at + 2, v / U16);
  }

  lemma Low16(b: seq<Byte>, at: nat, v: nat)
    requires at + 2 <= |b| && b[at..at + 2] == Put16(v)
    ensures Get16(b, at) == v % U16
  {
    assert b[at] == b[at..at + 2][0] && b[at + 1] == b[at..at + 2][1];
  }

  // ---- Geometry -------------------------------------------------------------------------

  /** `bmp_stride`: computed in 32 bits. */
  function Stride(w: int): nat {
    if w <= 0 then 0 else (3 * w + 3) % U32 / 4 * 4
  }

  /** A row holds its pixels and at most three bytes more, while the width is one a reader accepts. */
  lemma StrideHolds(w: nat)
    requires 0 < w <= SIDE
    ensures 3 * w <= Stride(w) < 3 * w + 4 && Stride(w) % 4 == 0
  {
  }

  function Size(w: int, h: int): nat {
    if w <= 0 || h <= 0 then 0 else HEADER + Stride(w) * h
  }

  // ---- Writing --------------------------------------------------------------------------

  /** The header up to the size of the picture. */
  function HeaderStart(w: nat, h: nat): (b: seq<Byte>)
    ensures |b| == 26
  {
    [66, 77] + Put32(Size(w, h)) + Put32(0) + Put32(HEADER) + Put32(40) + Put32(w) + Put32(h)
  }

  /** The bytes of `bmp_header`. */
  function Header(w: nat, h: nat): (b: seq<Byte>)
    ensures |b| == HEADER
  {
    HeaderStart(w, h) + Put16(1) + Put16(24) + Put32(0) + Put32(Stride(w) * h)
    + Put32(2835) + Put32(2835) + Put32(0) + Put32(0)
  }

  /** The bytes of pixels, blue first. */
  function Colours(px: seq<Pixel>): (b: seq<Byte>)
    ensures |b| == 3 * |px|
  {
    if px == [] then []
    else
      var p := px[|px| - 1];
      Colours(px[..|px| - 1]) + [p % 0x100, p / 0x100 % 0x100, p / 0x1_0000 % 0x100]
  }

  lemma {:induction false} ColourAt(px: seq<Pixel>, x: nat)
    requires x < |px|
    ensures var p, b := px[x], Colours(px);
            b[3 * x] == p % 0x100 && b[3 * x + 1] == p / 0x100 % 0x100 && b[3 * x + 2] == p / 0x1_0000 % 0x100
  {
    if x < |px| - 1 {
      ColourAt(px[..|px| - 1], x);
    }
  }

  /** A row as the file holds it. */
  function Row(px: seq<Pixel>): (b: seq<Byte>)
    requires 0 < |px| <= SIDE
    ensures |b| == Stride(|px|)
  {
    StrideHolds(|px|);
    Colours(px) + seq(Stride(|px|) - 3 * |px|, _ => 0)
  }

  /** `bmp_header`: zeros, then each field at its place. */
  method BmpHeader(out: array<Byte>, w: int, h: int) returns (ok: bool)
    requires HEADER <= out.Length
    modifies out
    ensures ok <==> w > 0 && h > 0 && Size(w, h) < U32
    ensures ok ==> out[..HEADER] == Header(w, h)
    ensures out[HEADER..] == old(out[HEADER..])
    ensures !ok ==> out[..] == old(out[..])
  {
    if w <= 0 || h <= 0 {
      return false;
    }
    var total := Size(w, h);
    if total > 0xFFFF_FFFF {
      return false;
    }
    var i := 0;
    while i < HEADER
      invariant i <= HEADER && forall k :: 0 <= k < i ==> out[k] == 0
      invariant out[HEADER..] == old(out[HEADER..])
    {
      out[i] := 0;
      i := i + 1;
    }
    out[0], out[1] := 66, 77;
    Fields(out, w, h, total);
    ok := true;
  }

  /** The fields that are not zero, in the order `bmp_header` writes them. */
  method Fields(out: array<Byte>, w: nat, h: nat, total: nat)
    requires HEADER <= out.Length && w > 0 && h > 0 && total == Size(w, h)
    requires out[0] == 66 && out[1] == 77 && Zeros(out[2..HEADER])
    modifies out
    ensures out[..HEADER] == Header(w, h) && out[HEADER..] == old(out[HEADER..])
  {
    hide Put16, Put32, Stride, Size, HeaderStart;
    ZeroFields();
    ghost var b := StartFields(out, w, h, total);
    b := Field(out, 26, Put16(1), b);
    b := Field(out, 28, Put16(24), b);
    b := Field(out, 30, Put32(0), b);
    b := Field(out, 34, Put32(Stride(w) * h), b);
    b := Field(out, 38, Put32(2835), b);
    b := Field(out, 42, Put32(2835), b);
    b := Gap(out, 46, 4, b);
    b := Gap(out, 50, 4, b);
  }

  method StartFields(out: array<Byte>, w: nat, h: nat, total: nat) returns (ghost b: seq<Byte>)
    requires HEADER <= out.Length && w > 0 && h > 0 && total == Size(w, h)
    requires out[0] == 66 && out[1] == 77 && Zeros(out[2..HEADER])
    modifies out
    ensures out[..26] == HeaderStart(w, h) == b && Zeros(out[26..HEADER]) && out[HEADER..] == old(out[HEADER..])
  {
    hide Put16, Put32, Stride, Size;
    ZeroFields();
    b := [66, 77];
    assert out[..2] == b;
    b := Field(out, 2, Put32(total), b);
    b := Gap(out, 6, 4, b);
    b := Field(out, 10, Put32(HEADER), b);
    b := Field(out, 14, Put32(40), b);
    b := Field(out, 18, Put32(w), b);
    b := Field(out, 22, Put32(h), b);
  }

  predicate Zeros(b: seq<Byte>) {
    forall k :: 0 <= k < |b| ==> b[k] == 0
  }

  lemma ZeroFields()
    ensures Put32(0) == [0, 0, 0, 0]
  {
  }

  /** One field of the header, behind those written so far. */
  method Field(out: array<Byte>, at: nat, f: seq<Byte>, ghost b: seq<Byte>) returns (ghost b': seq<Byte>)
    requires at + |f| <= HEADER <= out.Length && out[..at] == b && Zeros(out[at..HEADER])
    modifies out
    ensures b' == b + f && out[..at + |f|] == b' && Zeros(out[at + |f|..HEADER])
    ensures out[HEADER..] == old(out[HEADER..])
  {
    ghost var was, end := out[..], at + |f|;
    CopyInto(out, at, f);
    b' := b + f;
    assert out[end..] == was[end..];
    forall k | end <= k < out.Length ensures out[k] == was[k] {
      assert out[k] == out[end..][k - end] && was[k] == was[end..][k - end];
    }
    forall k | end <= k < HEADER ensures out[k] == 0 {
      assert was[k] == was[at..HEADER][k - at];
    }
  }

  /** A field that the header leaves zero. */
  ghost method Gap(out: array<Byte>, at: nat, n: nat, b: seq<Byte>) returns (b': seq<Byte>)
    requires at + n <= HEADER <= out.Length && out[..at] == b && Zeros(out[at..HEADER])
    ensures b' == b + seq(n, _ => 0) && out[..at + n] == b' && Zeros(out[at + n..HEADER])
  {
    b' := b + seq(n, _ => 0);
    assert forall k :: at <= k < HEADER ==> out[k] == out[at..HEADER][k - at];
  }

  /** `bmp_row`: the pixels and then zeros up to the stride. */
  method BmpRow(out: array<Byte>, at: nat, px: seq<Pixel>)
    requires 0 < |px| <= SIDE && at + Stride(|px|) <= out.Length
    modifies out
    ensures out[..at + Stride(|px|)] == old(out[..at]) + Row(px)
    ensures out[at + Stride(|px|)..] == old(out[at + Stride(|px|)..])
  {
    StrideHolds(|px|);
    var stride := Stride(|px|);
    PutPixels(out, at, px);
    ghost var was := out[..];
    Pad(out, at + 3 * |px|, stride - 3 * |px|);
    assert was[at + 3 * |px|..][stride - 3 * |px|..] == was[at + stride..];
    assert old(out[at + 3 * |px|..])[stride - 3 * |px|..] == old(out[at + stride..]);
  }

  /** The pixels of a row. */
  method PutPixels(out: array<Byte>, at: nat, px: seq<Pixel>)
    requires at + 3 * |px| <= out.Length
    modifies out
    ensures out[..at + 3 * |px|] == old(out[..at]) + Colours(px)
    ensures out[at + 3 * |px|..] == old(out[at + 3 * |px|..])
  {
    var pos := at;
    for x := 0 to |px|
      invariant pos == at + 3 * x && out[..pos] == old(out[..at]) + Colours(px[..x])
      invariant out[pos..] == old(out[pos..])
    {
      assert px[..x + 1][..x] == px[..x];
      ghost var was := out[pos..];
      PutPixel(out, pos, px[x]);
      assert was[3..] == old(out[pos + 3..]);
      pos := pos + 3;
    }
    assert px[..|px|] == px;
  }

  method PutPixel(out: array<Byte>, at: nat, p: Pixel)
    requires at + 3 <= out.Length
    modifies out
    ensures out[..at + 3] == old(out[..at]) + [p % 0x100, p / 0x100 % 0x100, p / 0x1_0000 % 0x100]
    ensures out[at + 3..] == old(out[at..])[3..]
  {
    out[at] := p % 0x100;
    out[at + 1] := p / 0x100 % 0x100;
    out[at + 2] := p / 0x1_0000 % 0x100;
  }

  /** The padding of a row. */
  method Pad(out: array<Byte>, at: nat, n: nat)
    requires at + n <= out.Length
    modifies out
    ensures out[..at + n] == old(out[..at]) + seq(n, _ => 0) && out[at + n..] == old(out[at + n..])
  {
    for i := 0 to n
      invariant out[..at + i] == old(out[..at]) + seq(i, _ => 0) && out[at + i..] == old(out[at + i..])
    {
      out[at + i] := 0;
    }
  }

  // ---- Reading --------------------------------------------------------------------------

  /** `bmp_parse`. */
  function Parse(b: seq<Byte>): (p: Picture)
  {
    if |b| < HEADER || b[0] != 66 || b[1] != 77 then NoPicture
    else
      var off, hdr, w, h := Get32(b, 10), Get32(b, 14), Get32(b, 18), Get32(b, 22);
      var bpp, comp := Get16(b, 28), Get32(b, 30);
      if hdr < 40 || bpp != 24 || comp != 0 then NoPicture
      else if w == 0 || h == 0 || w > SIDE || h > SIDE then NoPicture
      else if off < HEADER || off > |b| then NoPicture
      else if |b| - off < Stride(w) * h then NoPicture
      else Picture(w, h, off)
  }

  /** `bmp_pixel`, for coordinates from the top left; black outside. */
  function PixelAt(b: seq<Byte>, p: Picture, x: int, y: int): nat
    requires p.Picture? && Parse(b) == p
  {
    if x < 0 || y < 0 || x >= p.w || y >= p.h then 0
    else
      PixelIsInside(b, p, x, y);
      var at := p.off + Stride(p.w) * (p.h - 1 - y) + 3 * x;
      b[at] as int + 0x100 * b[at + 1] as int + 0x1_0000 * b[at + 2] as int
  }

  /** Whatever a file that parses contains, every pixel of it lies inside the file. */
  lemma PixelIsInside(b: seq<Byte>, p: Picture, x: nat, y: nat)
    requires p.Picture? && Parse(b) == p && x < p.w && y < p.h
    ensures Stride(p.w) * (p.h - 1 - y) >= 0
    ensures p.off + Stride(p.w) * (p.h - 1 - y) + 3 * x + 2 < |b|
  {
    hide Get32, Get16, Stride;
    StrideHolds(p.w);
    RowIsInside(Stride(p.w), p.h, p.h - 1 - y);
  }

  lemma RowIsInside(stride: nat, h: nat, f: nat)
    requires f < h
    ensures stride * f + stride <= stride * h
  {
    assert stride * (h - 1 - f) >= 0;
    assert stride * h == stride * f + stride + stride * (h - 1 - f);
  }

  /** Four bytes of a file as a number, the lowest first. */
  function Little(b: seq<Byte>, at: nat): nat
    requires at + 4 <= |b|
  {
    b[at] as int + 256 * b[at + 1] as int + 65536 * b[at + 2] as int + 16777216 * b[at + 3] as int
  }

  lemma LittleIsGet(b: seq<Byte>, at: nat)
    requires at + 4 <= |b|
    ensures Little(b, at) == Get32(b, at)
  {
  }

  /** Where the fields of a written header stand. */
  lemma HeaderBytes(w: nat, h: nat)
    requires 0 < w && 0 < h && Size(w, h) < U32 && w < U32 && h < U32
    ensures var b := Header(w, h);
            && b[0] == 66 && b[1] == 77 && Little(b, 2) == 54 + Stride(w) * h && Little(b, 10) == 54
            && Little(b, 14) == 40 && Little(b, 18) == w && Little(b, 22) == h
            && b[26] == 1 && b[27] == 0 && b[28] == 24 && b[29] == 0
            && Little(b, 30) == 0 && Little(b, 34) == Stride(w) * h
  {
    hide Stride, Put16, Put32, Get16, Get32, Little;
    var b := Header(w, h);
    assert b[2..6] == Put32(Size(w, h)) && b[10..14] == Put32(HEADER) && b[14..18] == Put32(40);
    assert b[18..22] == Put32(w) && b[22..26] == Put32(h);
    assert b[30..34] == Put32(0) && b[34..38] == Put32(Stride(w) * h);
    FieldReads(b, 2, Size(w, h));
    FieldReads(b, 10, HEADER);
    FieldReads(b, 14, 40);
    FieldReads(b, 18, w);
    FieldReads(b, 22, h);
    FieldReads(b, 30, 0);
    FieldReads(b, 34, Stride(w) * h);
    ShortFields(b);
  }

  lemma ShortFields(b: seq<Byte>)
    requires |b| == HEADER && b[26..30] == Put16(1) + Put16(24)
    ensures b[26] == 1 && b[27] == 0 && b[28] == 24 && b[29] == 0
  {
    assert b[26..30][0] == b[26] && b[26..30][1] == b[27] && b[26..30][2] == b[28] && b[26..30][3] == b[29];
  }

  lemma FieldReads(b: seq<Byte>, at: nat, v: nat)
    requires at + 4 <= |b| && v < U32 && b[at..at + 4] == Put32(v)
    ensures Little(b, at) == v
  {
    hide Put32, Get32;
    Get32Reads(b, at, v);
    LittleIsGet(b, at);
  }

  /** What a reader accepts, by the bytes of the file: the two letters, a header of at least 40 bytes, 24
      bits without compression, sides from 1 to 32767, and pixels inside the file. */
  lemma FileIsRead(b: seq<Byte>)
    ensures Parse(b).Picture? <==>
              && |b| >= 54 && b[0] == 66 && b[1] == 77 && Little(b, 14) >= 40
              && b[28] == 24 && b[29] == 0 && Little(b, 30) == 0
              && 1 <= Little(b, 18) <= 32767 && 1 <= Little(b, 22) <= 32767 && 54 <= Little(b, 10) <= |b|
              && |b| - Little(b, 10) >= Stride(Little(b, 18)) * Little(b, 22)
    ensures Parse(b).Picture? ==> Parse(b) == Picture(Little(b, 18), Little(b, 22), Little(b, 10))
  {
    hide Stride, Get32, Little;
    if |b| >= 54 {
      LittleIsGet(b, 10);
      LittleIsGet(b, 14);
      LittleIsGet(b, 18);
      LittleIsGet(b, 22);
      LittleIsGet(b, 30);
      assert Get16(b, 28) == 24 <==> b[28] == 24 && b[29] == 0;
    }
  }
}
