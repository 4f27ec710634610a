/** Which chunked bodies are refused, by their bytes. */
module ChunkLaws {
  import opened Bytes
  import opened HttpChunks
  import opened HttpMessage

  /** The hexadecimal digits, in both cases. */
  lemma HexDigits(c: Byte)
    ensures HexValue(c) == if 48 <= c <= 57 then c - 48
                           else if 65 <= c <= 70 then c - 55
                           else if 97 <= c <= 102 then c - 87
                           else -1
  {
  }

  /** Digits up to the first other byte `c`: a size of at most six digits, below 131072, that ends with a CR
      or a semicolon. Without a digit the size is taken for unfinished. */
  lemma SizeIsRead(d: seq<Byte>, c: Byte, rest: seq<Byte>)
    requires AllHex(d) && HexValue(c) < 0
    ensures ReadSize(d + ([c] + rest), 0, 0) ==
              if |d| > 6 || HexNumber(d, 0) >= 131072 || c !in {13, 59} then Bad
              else if d == [] then More
              else Got(HexNumber(d, 0), [c] + rest)
  {
    SizeFrom(d, c, rest, 0, 0);
  }

  lemma {:induction false} SizeFrom(d: seq<Byte>, c: Byte, rest: seq<Byte>, z: nat, digits: nat)
    requires AllHex(d) && HexValue(c) < 0 && z < 131072 && digits <= 6
    ensures ReadSize(d + ([c] + rest), z, digits) ==
              if digits + |d| > 6 || HexNumber(d, z) >= 131072 || c !in {13, 59} then Bad
              else if digits + |d| == 0 then More
              else Got(HexNumber(d, z), [c] + rest)
    decreases |d|
  {
    hide HexValue;
    var s := d + ([c] + rest);
    if d == [] {
      assert s == [c] + rest;
    } else {
      var v := HexValue(d[0]);
      assert s[0] == d[0] && s[1..] == d[1..] + ([c] + rest);
      HexDigits(d[0]);
      HexGrows(d[1..], z * 16 + v);
      if digits < 6 && z * 16 + v < 131072 {
        SizeFrom(d[1..], c, rest, z * 16 + v, digits + 1);
      }
    }
  }

  /** A size line, as far as its line end: what stands between the digits and the CR is nothing, or an
      extension that begins with a semicolon. */
  predicate Extension(ext: seq<Byte>) { ext == [] || (ext[0] == 59 && 13 !in ext) }

  lemma {:induction false} SkipsToCr(a: seq<Byte>, rest: seq<Byte>)
    requires 13 !in a
    ensures SkipToCr(a + ([13] + rest)) == [13] + rest
  {
    var s := a + ([13] + rest);
    if a == [] {
      assert s == [13] + rest;
    } else {
      assert s[0] == a[0] && s[1..] == a[1..] + ([13] + rest);
      SkipsToCr(a[1..], rest);
    }
  }

  lemma ExtensionIsSkipped(ext: seq<Byte>, rest: seq<Byte>)
    requires Extension(ext)
    ensures SkipExtension(ext + ([13] + rest)) == [13] + rest
  {
    hide SkipToCr;
    if ext != [] {
      SkipsToCr(ext, rest);
    } else {
      assert ext + ([13] + rest) == [13] + rest;
    }
  }

  /** The digits, an extension, a CR and one byte more. */
  lemma HeadIsRead(d: seq<Byte>, ext: seq<Byte>, b: Byte, rest: seq<Byte>)
    requires AllHex(d) && Extension(ext)
    ensures ReadHead(d + (ext + ([13] + ([b] + rest)))) ==
              if |d| > 6 || HexNumber(d, 0) >= 131072 then Bad
              else if d == [] then More
              else if b != 10 then Bad
              else Got(HexNumber(d, 0), rest)
  {
    hide ReadSize, SkipToCr, SkipExtension, HexValue, HexNumber, AllHex, AtCrlf;
    var tail := [13] + ([b] + rest);
    SizeBefore(d, ext, tail);
    ExtensionIsSkipped(ext, [b] + rest);
    LineEndIs(b, rest);
  }

  lemma LineEndIs(b: Byte, rest: seq<Byte>)
    ensures var tail := [13] + ([b] + rest); |tail| >= 2 && (AtCrlf(tail) <==> b == 10) && tail[2..] == rest
  {
  }

  lemma SizeBefore(d: seq<Byte>, ext: seq<Byte>, tail: seq<Byte>)
    requires AllHex(d) && Extension(ext) && tail != [] && tail[0] == 13
    ensures ReadSize(d + (ext + tail), 0, 0) ==
              if |d| > 6 || HexNumber(d, 0) >= 131072 then Bad
              else if d == [] then More
              else Got(HexNumber(d, 0), ext + tail)
  {
    hide ReadSize, HexValue, HexNumber, AllHex;
    var t := ext + tail;
    HexDigits(t[0]);
    assert t[0] in {13, 59} && t == [t[0]] + t[1..];
    SizeIsRead(d, t[0], t[1..]);
  }

  /** What is refused at the size line: seven digits, 131072 bytes or more, a byte that is no digit in front
      of the CR or semicolon, and a CR without its newline. */
  lemma SizeIsRefused(d: seq<Byte>, c: Byte, ext: seq<Byte>, b: Byte, rest: seq<Byte>, total: nat)
    requires AllHex(d) && Extension(ext)
    ensures !(48 <= c <= 57 || 65 <= c <= 70 || 97 <= c <= 102) && c != 13 && c != 59 ==>
              ReadBody(d + ([c] + rest), total) == Bad
    ensures |d| > 6 || HexNumber(d, 0) >= 131072 || (d != [] && b != 10) ==>
              ReadBody(d + (ext + ([13] + ([b] + rest))), total) == Bad
    ensures d == [] ==> ReadBody(ext + ([13] + ([b] + rest)), total) == More
  {
    hide ReadSize, SkipToCr, HexValue;
    HexDigits(c);
    if HexValue(c) < 0 {
      SizeIsRead(d, c, rest);
    }
    HeadIsRead(d, ext, b, rest);
    assert d == [] ==> d + (ext + ([13] + ([b] + rest))) == ext + ([13] + ([b] + rest));
  }

  /** What is refused behind it: data without a line end, and 131072 bytes of data or more in all. */
  lemma DataIsRefused(d: seq<Byte>, ext: seq<Byte>, data: seq<Byte>, a: Byte, b: Byte, rest: seq<Byte>, total: nat)
    requires AllHex(d) && 0 < |d| <= 6 && Extension(ext) && HexNumber(d, 0) == |data| < 131072 && data != []
    requires (a, b) != (13, 10) || total + |data| >= 131072
    ensures ReadBody(d + (ext + ([13] + ([10] + (data + ([a, b] + rest))))), total) == Bad
  {
    hide ReadHead;
    var t := data + ([a, b] + rest);
    HeadIsRead(d, ext, 10, t);
    assert t[|data|..] == [a, b] + rest;
  }

  function Lines(ls: seq<seq<Byte>>): seq<Byte> {
    if ls == [] then [] else ls[0] + ([13, 10] + Lines(ls[1..]))
  }

  /** The last size is 0: trailer lines are skipped up to the empty one, if they take no more than 8192
      bytes. */
  lemma TrailersAreSkipped(d: seq<Byte>, ext: seq<Byte>, ls: seq<seq<Byte>>, rest: seq<Byte>, total: nat)
    requires AllHex(d) && 0 < |d| <= 6 && Extension(ext) && HexNumber(d, 0) == 0
    requires forall i :: 0 <= i < |ls| ==> ls[i] != [] && 13 !in ls[i]
    ensures ReadBody(d + (ext + ([13] + ([10] + (Lines(ls) + ([13, 10] + rest))))), total) ==
              if |Lines(ls)| <= 8192 then Got([], rest) else Bad
  {
    hide ReadHead, ReadTrailers;
    var t := Lines(ls) + ([13, 10] + rest);
    HeadIsRead(d, ext, 10, t);
    TrailersFrom(ls, rest, 0);
  }

  lemma {:induction false} TrailersFrom(ls: seq<seq<Byte>>, rest: seq<Byte>, used: nat)
    requires used <= 8192 && forall i :: 0 <= i < |ls| ==> ls[i] != [] && 13 !in ls[i]
    ensures ReadTrailers(Lines(ls) + ([13, 10] + rest), used) ==
              if used + |Lines(ls)| <= 8192 then Got((), rest) else Bad
    decreases |ls|
  {
    hide ReadTrailers;
    var end := [13, 10] + rest;
    if ls == [] {
      assert Lines(ls) + end == end;
      NoTrailer(rest, used);
    } else {
      var more := Lines(ls[1..]) + end;
      assert Lines(ls) + end == ls[0] + ([13, 10] + more);
      OneTrailer(ls[0], more, used);
      if used + |ls[0]| + 2 <= 8192 {
        TrailersFrom(ls[1..], rest, used + |ls[0]| + 2);
      }
    }
  }

  lemma NoTrailer(rest: seq<Byte>, used: nat)
    ensures ReadTrailers([13, 10] + rest, used) == Got((), rest)
  {
    assert ([13, 10] + rest)[2..] == rest;
  }

  lemma OneTrailer(a: seq<Byte>, more: seq<Byte>, used: nat)
    requires a != [] && 13 !in a
    ensures var s := a + ([13, 10] + more);
            ReadTrailers(s, used) == if used + |a| + 2 > 8192 then Bad else ReadTrailers(more, used + |a| + 2)
  {
    hide NextCrlf;
    var s := a + ([13, 10] + more);
    NextCrlfIs(a, more);
    assert s[0] == a[0] && s[|a| + 2..] == more;
  }
}
