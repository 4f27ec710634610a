/** The screenshot program: a rectangle of the screen, read in strips from the bottom up and encoded as
    a bitmap. */
module Capture {
  import opened Bytes
  import opened Common
  import opened Bitmap
  import opened Powers

  const MAX_WIDTH: nat := 1024
  const STRIP: nat := 32
  const MAX_FILE: nat := 2560 * 1024

  datatype Rect = Rect(x: int, y: int, w: int, h: int)

  /** The desktop: its size and the pixel at every place of it. */
  datatype Screen = Screen(width: int, height: int, pixel: (int, int) -> Pixel)

  // ---- Strips ---------------------------------------------------------------------------

  /** `snap_strips`. */
  function Strips(h: int, strip: int): nat {
    if h <= 0 || strip <= 0 then 0 else (h + strip - 1) / strip
  }

  /** `snap_strip_top`. */
  function StripTop(h: int, strip: int, i: nat): (top: nat) {
    if h - (i + 1) * strip < 0 then 0 else h - (i + 1) * strip
  }

  /** `snap_strip_rows`. */
  function StripRows(h: int, strip: int, i: int): int {
    if i < 0 || i >= Strips(h, strip) then 0 else (h - i * strip) - StripTop(h, strip, i)
  }

  /** The strips tile the image: for every positive strip height, each begins where the one before it
      ended, none is empty or higher than a strip, and the last one ends at the top. */
  lemma StripsTile(h: int, strip: int, i: nat)
    requires h > 0 && strip > 0 && i < Strips(h, strip)
    ensures 0 < StripRows(h, strip, i) <= strip
    ensures StripTop(h, strip, i) + StripRows(h, strip, i) == h - i * strip
    ensures i + 1 < Strips(h, strip) ==> StripTop(h, strip, i) == h - (i + 1) * strip && StripRows(h, strip, i) == strip
    ensures i + 1 == Strips(h, strip) ==> StripTop(h, strip, i) == 0
  {
    var n := Strips(h, strip);
    LastStrip(h, strip);
    Below(i, n - 1, strip);
    MulDistributes(i, 1, strip);
    MulDistributes(n - 1, 1, strip);
  }

  lemma LastStrip(h: int, strip: int)
    requires h > 0 && strip > 0
    ensures (Strips(h, strip) - 1) * strip < h <= Strips(h, strip) * strip
  {
    var q, r := (h + strip - 1) / strip, (h + strip - 1) % strip;
    assert h + strip - 1 == q * strip + r;
    assert (q - 1) * strip == q * strip - strip;
  }

  // ---- The file -------------------------------------------------------------------------

  /** Row `y` of the rectangle, as the screen shows it. */
  function ScreenRow(s: Screen, r: Rect, y: int): (px: seq<Pixel>)
    requires r.w > 0
    ensures |px| == r.w
  {
    seq<Pixel>(r.w, x requires 0 <= x < r.w => s.pixel(r.x + x, r.y + y))
  }

  predicate Narrow(r: Rect) { 0 < r.w <= MAX_WIDTH && r.h > 0 }

  /** The lowest `n` rows of the rectangle, from the bottom up. */
  function Body(s: Screen, r: Rect, n: nat): (b: seq<Byte>)
    requires Narrow(r)
    ensures |b| == Stride(r.w) * n
  {
    if n == 0 then []
    else
      assert Stride(r.w) * n == Stride(r.w) * (n - 1) + Stride(r.w);
      Body(s, r, n - 1) + Row(ScreenRow(s, r, r.h - n))
  }

  function File(s: Screen, r: Rect, n: nat): (b: seq<Byte>)
    requires Narrow(r)
    ensures |b| == HEADER + Stride(r.w) * n
  {
    Header(r.w, r.h) + Body(s, r, n)
  }

  lemma {:induction false} BodyRow(s: Screen, r: Rect, n: nat, f: nat)
    requires Narrow(r) && f < n
    ensures Stride(r.w) * f + Stride(r.w) <= |Body(s, r, n)|
    ensures Body(s, r, n)[Stride(r.w) * f..Stride(r.w) * f + Stride(r.w)] == Row(ScreenRow(s, r, r.h - 1 - f))
  {
    hide Stride, Row, ScreenRow;
    var stride := Stride(r.w);
    RowIsInside(stride, n, f);
    RowLength(s, r, r.h - n);
    var above, row := Body(s, r, n - 1), Row(ScreenRow(s, r, r.h - n));
    assert Body(s, r, n) == above + row;
    hide Body;
    if f < n - 1 {
      RowIsInside(stride, n - 1, f);
      BodyRow(s, r, n - 1, f);
      assert (above + row)[stride * f..stride * f + stride] == above[stride * f..stride * f + stride];
    } else {
      assert stride * f == |above| && (above + row)[|above|..] == row;
    }
  }

  lemma RowLength(s: Screen, r: Rect, y: int)
    requires Narrow(r)
    ensures |ScreenRow(s, r, y)| == r.w && |Row(ScreenRow(s, r, y))| == Stride(r.w)
  {
  }

  /** The header a reader finds is the one written; the height is the only limit left. */
  lemma HeaderReads(b: seq<Byte>, w: nat, h: nat)
    requires 0 < w <= MAX_WIDTH && 0 < h < U32 && |b| == Size(w, h) && b[..HEADER] == Header(w, h)
    ensures Parse(b) == if h <= SIDE then Picture(w, h, HEADER) else NoPicture
  {
    hide Put16, Put32, Get16, Get32, Stride;
    FieldsRead(b, w, h);
    var t := b[..HEADER];
    assert b[0] == t[0] && b[1] == t[1];
  }

  lemma FieldsRead(b: seq<Byte>, w: nat, h: nat)
    requires HEADER <= |b| && w < U32 && h < U32 && b[..HEADER] == Header(w, h)
    ensures Get32(b, 10) == HEADER && Get32(b, 14) == 40 && Get32(b, 18) == w && Get32(b, 22) == h
    ensures Get16(b, 28) == 24 && Get32(b, 30) == 0
  {
    hide Put16, Put32, Get16, Get32, Stride, Size, Header;
    HeaderSlices(w, h);
    var t := b[..HEADER];
    assert b[10..14] == t[10..14] && b[14..18] == t[14..18] && b[18..22] == t[18..22];
    assert b[22..26] == t[22..26] && b[28..30] == t[28..30] && b[30..34] == t[30..34];
    Get32Reads(b, 10, HEADER);
    Get32Reads(b, 14, 40);
    Get32Reads(b, 18, w);
    Get32Reads(b, 22, h);
    Get16Reads(b, 28, 24);
    Get32Reads(b, 30, 0);
  }

  lemma HeaderSlices(w: nat, h: nat)
    ensures Header(w, h)[10..14] == Put32(HEADER) && Header(w, h)[14..18] == Put32(40)
    ensures Header(w, h)[18..22] == Put32(w) && Header(w, h)[22..26] == Put32(h)
    ensures Header(w, h)[28..30] == Put16(24) && Header(w, h)[30..34] == Put32(0)
  {
    hide Put16, Put32, Stride, Size;
  }

  /** What is captured is what is read back: the file parses with the size of the rectangle, and its
      pixels are the low 24 bits of the screen's. */
  lemma CaptureReadsBack(s: Screen, r: Rect, x: nat, y: nat)
    requires Narrow(r) && r.h <= SIDE && x < r.w && y < r.h
    ensures var b := File(s, r, r.h);
            && Parse(b) == Picture(r.w, r.h, HEADER)
            && PixelAt(b, Picture(r.w, r.h, HEADER), x, y) == s.pixel(r.x + x, r.y + y) % 0x100_0000
  {
    hide Get16, Get32, Stride, Parse, Header, Body, Row, PixelAt;
    var b, px := File(s, r, r.h), ScreenRow(s, r, y);
    assert b[..HEADER] == Header(r.w, r.h);
    SizeIs(r);
    HeaderReads(b, r.w, r.h);
    RowInFile(s, r, r.h - 1 - y, Stride(r.w) * (r.h - 1 - y));
    PixelFromRow(b, Picture(r.w, r.h, HEADER), x, y, px, HEADER + Stride(r.w) * (r.h - 1 - y));
    ThreeBytes(px[x]);
  }

  lemma RowInFile(s: Screen, r: Rect, f: nat, at: nat)
    requires Narrow(r) && f < r.h && at == Stride(r.w) * f
    ensures HEADER + at + Stride(r.w) <= |File(s, r, r.h)|
    ensures File(s, r, r.h)[HEADER + at..HEADER + at + Stride(r.w)] == Row(ScreenRow(s, r, r.h - 1 - f))
  {
    hide Stride, Header, Body, Row, ScreenRow;
    BodyRow(s, r, r.h, f);
    var file, body := File(s, r, r.h), Body(s, r, r.h);
    assert file[HEADER..HEADER + |body|] == body;
    SliceOfSlice(file, HEADER, |body|, at, Stride(r.w));
  }

  lemma PixelFromRow(b: seq<Byte>, p: Picture, x: nat, y: nat, px: seq<Pixel>, at: nat)
    requires p.Picture? && Parse(b) == p && x < p.w <= SIDE && y < p.h && |px| == p.w
    requires at == p.off + Stride(p.w) * (p.h - 1 - y) && at + Stride(p.w) <= |b|
    requires b[at..at + Stride(p.w)] == Row(px)
    ensures PixelAt(b, p, x, y) == px[x] % 0x100 + 0x100 * (px[x] / 0x100 % 0x100)
            + 0x1_0000 * (px[x] / 0x1_0000 % 0x100)
  {
    hide Get16, Get32, Stride, Parse, Colours, Row;
    StrideHolds(p.w);
    RowBytes(b, at, px, x);
    ColourAt(px, x);
  }

  lemma RowBytes(b: seq<Byte>, at: nat, px: seq<Pixel>, x: nat)
    requires 0 < |px| <= SIDE && x < |px| && at + Stride(|px|) <= |b| && b[at..at + Stride(|px|)] == Row(px)
    ensures at + 3 * x + 2 < |b| && 3 * x + 2 < |Colours(px)|
    ensures b[at + 3 * x] == Colours(px)[3 * x] && b[at + 3 * x + 1] == Colours(px)[3 * x + 1]
    ensures b[at + 3 * x + 2] == Colours(px)[3 * x + 2]
  {
    hide Stride, Colours;
    StrideHolds(|px|);
    var row := Row(px);
    forall k | 0 <= k < 3 * |px| ensures b[at + k] == Colours(px)[k] {
      assert b[at..at + Stride(|px|)][k] == b[at + k] && row[k] == Colours(px)[k];
    }
  }

  lemma SizeIs(r: Rect)
    requires Narrow(r) && r.h <= SIDE
    ensures Size(r.w, r.h) == HEADER + Stride(r.w) * r.h && r.h < U32
  {
  }

  lemma ThreeBytes(p: Pixel)
    ensures p % 0x100 + 0x100 * (p / 0x100 % 0x100) + 0x1_0000 * (p / 0x1_0000 % 0x100) == p % 0x100_0000
  {
    var q := p / 0x100;
    assert q / 0x100 == p / 0x1_0000 && q % 0x1_0000 == q % 0x100 + 0x100 * (q / 0x100 % 0x100);
    assert p % 0x100_0000 == p % 0x100 + 0x100 * (q % 0x1_0000);
  }

  // ---- Taking it ------------------------------------------------------------------------

  /** `snap_valid`. */
  predicate Valid(r: Rect, s: Screen) {
    r.w > 0 && r.h > 0 && r.x >= 0 && r.y >= 0 && r.x <= s.width - r.w && r.y <= s.height - r.h
  }

  /** A rectangle is taken if and only if it has pixels and all of them are on the screen. */
  lemma ValidIsInside(r: Rect, s: Screen)
    ensures Valid(r, s) <==>
              r.w > 0 && r.h > 0 && forall x, y :: r.x <= x < r.x + r.w && r.y <= y < r.y + r.h ==> OnScreen(s, x, y)
  {
    if r.w > 0 && r.h > 0 {
      if OnScreen(s, r.x, r.y) && OnScreen(s, r.x + r.w - 1, r.y + r.h - 1) {
        assert Valid(r, s);
      }
    }
  }

  predicate OnScreen(s: Screen, x: int, y: int) { 0 <= x < s.width && 0 <= y < s.height }

  /** The rows of a strip one after the other, as the kernel's screen copy delivers them. */
  function Copied(s: Screen, r: Rect, top: int, rows: nat): (px: seq<Pixel>)
    requires r.w > 0
    ensures |px| == r.w * rows
  {
    if rows == 0 then []
    else
      assert r.w * rows == r.w * (rows - 1) + r.w;
      Copied(s, r, top, rows - 1) + ScreenRow(s, r, top + rows - 1)
  }

  lemma {:induction false} CopiedRow(s: Screen, r: Rect, top: int, rows: nat, k: nat)
    requires r.w > 0 && k < rows
    ensures r.w * k + r.w <= |Copied(s, r, top, rows)|
    ensures Copied(s, r, top, rows)[r.w * k..r.w * k + r.w] == ScreenRow(s, r, top + k)
  {
    hide ScreenRow;
    RowIsInside(r.w, rows, k);
    if k < rows - 1 {
      RowIsInside(r.w, rows - 1, k);
      CopiedRow(s, r, top, rows - 1, k);
    }
  }

  /** The inner loop of `snap_capture`: one strip, its rows from the bottom up. */
  method EncodeStrip(s: Screen, r: Rect, out: array<Byte>, strip: seq<Pixel>, first: nat, top: nat, rows: nat)
    requires Narrow(r) && strip == Copied(s, r, top, rows) && first + rows <= r.h && top + rows == r.h - first
    requires HEADER + Stride(r.w) * r.h <= out.Length && File(s, r, first) <= out[..]
    modifies out
    ensures File(s, r, first + rows) <= out[..]
  {
    hide Stride, ScreenRow, File, Copied;
    var k: int := rows - 1;
    ghost var done := first;
    while k >= 0
      invariant -1 <= k < rows && done == first + (rows - 1 - k)
      invariant File(s, r, done) <= out[..]
    {
      CopiedRow(s, r, top, rows, k);
      EncodeRow(s, r, out, strip[k * r.w..k * r.w + r.w], first + (rows - 1 - k));
      k, done := k - 1, done + 1;
    }
  }

  /** One row of it, as row `f` of the file. */
  method EncodeRow(s: Screen, r: Rect, out: array<Byte>, px: seq<Pixel>, f: nat)
    requires Narrow(r) && f < r.h && px == ScreenRow(s, r, r.h - 1 - f)
    requires HEADER + Stride(r.w) * r.h <= out.Length && File(s, r, f) <= out[..]
    modifies out
    ensures File(s, r, f + 1) <= out[..]
  {
    hide Stride, ScreenRow, File, Row;
    RowIsInside(Stride(r.w), r.h, f);
    RowLength(s, r, r.h - 1 - f);
    FileRow(s, r, f);
    BmpRow(out, HEADER + f * Stride(r.w), px);
  }

  lemma FileRow(s: Screen, r: Rect, f: nat)
    requires Narrow(r) && f < r.h
    ensures File(s, r, f + 1) == File(s, r, f) + Row(ScreenRow(s, r, r.h - 1 - f))
    ensures HEADER + Stride(r.w) * f + Stride(r.w) == HEADER + Stride(r.w) * (f + 1)
  {
    hide Stride, ScreenRow, Row, Header;
  }

  /** `snap_capture` up to the finished file: `copies` says which of the kernel's screen copies work. */
  method SnapCapture(s: Screen, r: Rect, out: array<Byte>, copies: nat -> bool) returns (rc: int)
    requires out.Length == MAX_FILE
    modifies out
    ensures rc == 0 ==> Narrow(r) && |File(s, r, r.h)| == Size(r.w, r.h) && File(s, r, r.h) <= out[..]
    ensures rc == -2 <==> !Valid(r, s)
    ensures rc == -3 <==> Valid(r, s) && r.w > 1024
    ensures rc == -9 <==> Valid(r, s) && r.w <= 1024 && Size(r.w, r.h) > 2621440
    ensures rc == 0 <==> Valid(r, s) && r.w <= 1024 && Size(r.w, r.h) <= 2621440
                         && forall i: nat :: i < Strips(r.h, STRIP) ==> copies(i)
    ensures rc in {0, -2, -3, -9, -7}
  {
    if !Valid(r, s) {
      return -2;
    }
    if r.w > MAX_WIDTH {
      return -3;
    }
    if Size(r.w, r.h) > MAX_FILE {
      return -9;
    }
    var ok := BmpHeader(out, r.w, r.h);
    rc := EncodeAll(s, r, out, copies);
  }

  method EncodeAll(s: Screen, r: Rect, out: array<Byte>, copies: nat -> bool) returns (rc: int)
    requires Narrow(r) && Size(r.w, r.h) <= out.Length && Header(r.w, r.h) <= out[..]
    modifies out
    ensures rc == 0 || rc == -7
    ensures rc == 0 <==> forall i: nat :: i < Strips(r.h, STRIP) ==> copies(i)
    ensures rc == 0 ==> File(s, r, r.h) <= out[..]
  {
    hide Stride, Copied, File, Strips, StripTop, StripRows;
    var n := Strips(r.h, STRIP);
    LastStrip(r.h, STRIP);
    var i, first := 0, 0;
    NoRows(s, r);
    while i < n
      invariant i <= n && first == Min(i * STRIP, r.h) && forall k: nat :: k < i ==> copies(k)
      invariant File(s, r, first) <= out[..]
    {
      var rows, top := StripRows(r.h, STRIP, i), StripTop(r.h, STRIP, i);
      StripsTile(r.h, STRIP, i);
      if !copies(i) {
        return -7;
      }
      EncodeStrip(s, r, out, Copied(s, r, top, rows), i * STRIP, top, rows);
      first := first + rows;
      i := i + 1;
    }
    rc := 0;
  }

  lemma NoRows(s: Screen, r: Rect)
    requires Narrow(r)
    ensures File(s, r, 0) == Header(r.w, r.h)
  {
  }
}
