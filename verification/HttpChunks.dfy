/** The chunked coding (section 7.1 of RFC 9112) as trees, and the proof that the reader of chunked
    bodies accepts exactly the encodings within its limits and yields their payload. */
module HttpChunks {
  import opened Bytes
  import opened HttpMessage

  const CRLF: seq<Byte> := [CR, LF]

  /** A chunk with its size digits and extension as written. */
  datatype Chunk = Chunk(size: seq<Byte>, ext: seq<Byte>, data: seq<Byte>)

  datatype Coded = Coded(chunks: seq<Chunk>, last: Chunk, trailers: seq<seq<Byte>>)

  function EncodeChunk(c: Chunk): seq<Byte> {
    c.size + c.ext + CRLF + c.data + CRLF
  }

  function EncodeLines(lines: seq<seq<Byte>>): seq<Byte> {
    if lines == [] then CRLF else lines[0] + CRLF + EncodeLines(lines[1..])
  }

  function EncodeEnd(last: Chunk, trailers: seq<seq<Byte>>): seq<Byte> {
    last.size + last.ext + CRLF + EncodeLines(trailers)
  }

  function Encode(chunks: seq<Chunk>, end: seq<Byte>): seq<Byte> {
    if chunks == [] then end else EncodeChunk(chunks[0]) + Encode(chunks[1..], end)
  }

  function EncodeBody(c: Coded): seq<Byte> {
    Encode(c.chunks, EncodeEnd(c.last, c.trailers))
  }

  function Payload(chunks: seq<Chunk>): seq<Byte> {
    if chunks == [] then [] else chunks[0].data + Payload(chunks[1..])
  }

  // ---- Well-formed codings within the limits --------------------------------------------

  predicate AllHex(s: seq<Byte>) {
    forall i :: 0 <= i < |s| ==> HexValue(s[i]) >= 0
  }

  function HexNumber(s: seq<Byte>, z: nat): nat
    requires AllHex(s)
  {
    if s == [] then z else HexNumber(s[1..], z * 16 + HexValue(s[0]))
  }

  predicate GoodSize(s: seq<Byte>, z: nat, digits: nat, value: nat) {
    AllHex(s) && digits + |s| <= SIZE_DIGITS && HexNumber(s, z) == value < BODY_MAX
  }

  predicate GoodExtension(e: seq<Byte>) {
    e == [] || (e[0] == SEMI && CR !in e)
  }

  predicate GoodChunk(c: Chunk) {
    c.size != [] && GoodSize(c.size, 0, 0, |c.data|) && GoodExtension(c.ext)
  }

  /** Each line is the text up to the first line end; together they stay within the trailer limit. */
  predicate GoodLines(lines: seq<seq<Byte>>, used: nat) {
    lines == [] || (
      && NextCrlf(lines[0] + CRLF) == |lines[0]| > 0
      && used + |lines[0]| + 2 <= HEADER_MAX
      && GoodLines(lines[1..], used + |lines[0]| + 2))
  }

  predicate GoodChunks(chunks: seq<Chunk>, total: nat) {
    chunks == [] || (
      && GoodChunk(chunks[0]) && chunks[0].data != []
      && total + |chunks[0].data| < BODY_MAX
      && GoodChunks(chunks[1..], total + |chunks[0].data|))
  }

  predicate GoodEnd(last: Chunk, trailers: seq<seq<Byte>>) {
    GoodChunk(last) && last.data == [] && GoodLines(trailers, 0)
  }

  predicate GoodBody(c: Coded) {
    GoodChunks(c.chunks, 0) && GoodEnd(c.last, c.trailers)
  }

  // ---- The reader accepts every coding --------------------------------------------------

  lemma {:induction false} HexGrows(s: seq<Byte>, z: nat)
    requires AllHex(s)
    ensures HexNumber(s, z) >= z
  {
    if s != [] {
      HexGrows(s[1..], z * 16 + HexValue(s[0]));
    }
  }

  predicate EndsSize(t: seq<Byte>) {
    t != [] && (t[0] == CR || t[0] == SEMI)
  }

  lemma {:induction false} SizeAccepted(s: seq<Byte>, z: nat, digits: nat, value: nat, t: seq<Byte>)
    requires GoodSize(s, z, digits, value) && EndsSize(t) && digits + |s| > 0
    ensures ReadSize(s + t, z, digits) == Got(value, t)
  {
    if s == [] {
      assert s + t == t;
    } else {
      var z' := z * 16 + HexValue(s[0]);
      HexGrows(s[1..], z');
      assert (s + t)[1..] == s[1..] + t;
      SizeAccepted(s[1..], z', digits + 1, value, t);
    }
  }

  lemma {:induction false} SkipAccepted(e: seq<Byte>, t: seq<Byte>)
    requires CR !in e && t != [] && t[0] == CR
    ensures SkipToCr(e + t) == t
  {
    if e == [] {
      assert e + t == t;
    } else {
      assert (e + t)[1..] == e[1..] + t;
      SkipAccepted(e[1..], t);
    }
  }

  lemma HeadAccepted(c: Chunk, t: seq<Byte>)
    requires GoodChunk(c)
    ensures ReadHead(c.size + c.ext + CRLF + t) == Got(|c.data|, t)
  {
    var u := CRLF + t;
    assert c.size + c.ext + CRLF + t == c.size + (c.ext + u);
    assert EndsSize(c.ext + u);
    SizeAccepted(c.size, 0, 0, |c.data|, c.ext + u);
    if c.ext == [] {
      assert c.ext + u == u;
    } else {
      SkipAccepted(c.ext, u);
    }
    assert u[2..] == t;
  }

  lemma FirstLine(l: seq<Byte>, tail: seq<Byte>)
    requires NextCrlf(l + CRLF) == |l| > 0
    ensures NextCrlf(l + CRLF + tail) == |l| && !AtCrlf(l + CRLF + tail)
    ensures (l + CRLF + tail)[|l| + 2..] == tail
  {
    NextCrlfStays(l + CRLF, tail);
  }

  lemma {:induction false} LinesAccepted(lines: seq<seq<Byte>>, used: nat, rest: seq<Byte>)
    requires GoodLines(lines, used)
    ensures ReadTrailers(EncodeLines(lines) + rest, used) == Got((), rest)
    decreases |lines|
  {
    hide NextCrlf, ReadTrailers;
    var s := EncodeLines(lines) + rest;
    if lines == [] {
      assert s[2..] == rest;
      NoMoreTrailers(s, used);
    } else {
      var l := lines[0];
      var tail := EncodeLines(lines[1..]) + rest;
      assert s == l + CRLF + tail;
      FirstLine(l, tail);
      LinesAccepted(lines[1..], used + |l| + 2, rest);
      TrailerStep(s, |l|, used);
      assert s[|l| + 2..] == tail;
    }
  }

  lemma NoMoreTrailers(s: seq<Byte>, used: nat)
    requires |s| >= 2 && AtCrlf(s)
    ensures ReadTrailers(s, used) == Got((), s[2..])
  {
  }

  lemma TrailerStep(s: seq<Byte>, i: nat, used: nat)
    requires |s| >= 2 && !AtCrlf(s) && i == NextCrlf(s) && i + 2 <= |s| && used + i + 2 <= HEADER_MAX
    ensures ReadTrailers(s, used) == ReadTrailers(s[i + 2..], used + i + 2)
  {
    hide NextCrlf, AtCrlf;
  }

  lemma {:induction false} BodyAccepted(c: Coded, chunks: seq<Chunk>, total: nat, rest: seq<Byte>)
    requires GoodChunks(chunks, total) && GoodEnd(c.last, c.trailers)
    ensures ReadBody(Encode(chunks, EncodeEnd(c.last, c.trailers)) + rest, total) == Got(Payload(chunks), rest)
    decreases |chunks|
  {
    hide ReadHead, GoodChunk, GoodLines, ReadTrailers;
    var end := EncodeEnd(c.last, c.trailers);
    var s := Encode(chunks, end) + rest;
    if chunks == [] {
      EndAccepted(c, total, rest);
    } else {
      var k := chunks[0];
      var tail := Encode(chunks[1..], end) + rest;
      var t := k.data + (CRLF + tail);
      assert s == k.size + k.ext + CRLF + t;
      HeadAccepted(k, t);
      assert t[..|k.data|] == k.data && t[|k.data|..] == CRLF + tail && t[|k.data| + 2..] == tail;
      BodyAccepted(c, chunks[1..], total + |k.data|, rest);
    }
  }

  lemma EndAccepted(c: Coded, total: nat, rest: seq<Byte>)
    requires GoodChunks([], total) && GoodEnd(c.last, c.trailers)
    ensures ReadBody(Encode([], EncodeEnd(c.last, c.trailers)) + rest, total) == Got([], rest)
  {
    hide ReadHead, GoodLines, ReadTrailers;
    var s, t := Encode([], EncodeEnd(c.last, c.trailers)) + rest, EncodeLines(c.trailers) + rest;
    assert s == c.last.size + c.last.ext + CRLF + t;
    HeadAccepted(c.last, t);
    LinesAccepted(c.trailers, 0, rest);
  }

  /** Every coding within the limits is read back to its payload, whatever follows it. */
  lemma EveryCodingIsRead(c: Coded, rest: seq<Byte>)
    requires GoodBody(c)
    ensures ReadBody(EncodeBody(c) + rest, 0) == Got(Payload(c.chunks), rest)
  {
    BodyAccepted(c, c.chunks, 0, rest);
  }

  // ---- The reader accepts nothing else --------------------------------------------------

  lemma {:induction false} SizeWritten(s: seq<Byte>, z: nat, digits: nat) returns (size: seq<Byte>)
    requires ReadSize(s, z, digits).Got? && (digits == 0 ==> z == 0) && z < BODY_MAX && digits <= SIZE_DIGITS
    ensures var r := ReadSize(s, z, digits);
            && s == size + r.rest && GoodSize(size, z, digits, r.value) && digits + |size| > 0
            && (r.rest != [] ==> EndsSize(r.rest))
  {
    if s == [] || s[0] == CR || s[0] == SEMI {
      size := [];
    } else {
      hide HexValue, AllHex, HexNumber;
      var v := HexValue(s[0]);
      var more := SizeWritten(s[1..], z * 16 + v, digits + 1);
      size := [s[0]] + more;
      Prepend(s[0], s[1..], more, ReadSize(s, z, digits).rest);
      GoodSizeGrows(s[0], more, z, digits, ReadSize(s, z, digits).value);
      assert s == [s[0]] + s[1..];
    }
  }

  lemma GoodSizeGrows(c: Byte, more: seq<Byte>, z: nat, digits: nat, value: nat)
    requires HexValue(c) >= 0 && digits < SIZE_DIGITS && GoodSize(more, z * 16 + HexValue(c), digits + 1, value)
    ensures GoodSize([c] + more, z, digits, value)
  {
    assert ([c] + more)[1..] == more;
  }

  lemma {:induction false} SkipWritten(s: seq<Byte>) returns (e: seq<Byte>)
    ensures s == e + SkipToCr(s) && CR !in e
  {
    if s == [] || s[0] == CR {
      e := [];
    } else {
      var more := SkipWritten(s[1..]);
      e := [s[0]] + more;
      Prepend(s[0], s[1..], more, SkipToCr(s[1..]));
      assert s == [s[0]] + s[1..];
    }
  }

  lemma Prepend(c: Byte, t: seq<Byte>, a: seq<Byte>, b: seq<Byte>)
    requires t == a + b
    ensures [c] + t == [c] + a + b
  {
  }

  lemma HeadWritten(s: seq<Byte>) returns (size: seq<Byte>, ext: seq<Byte>)
    requires ReadHead(s).Got?
    ensures s == size + ext + CRLF + ReadHead(s).rest
    ensures size != [] && GoodSize(size, 0, 0, ReadHead(s).value) && GoodExtension(ext)
  {
    size := SizeWritten(s, 0, 0);
    hide ReadSize, GoodSize, SkipToCr;
    var t := ReadSize(s, 0, 0).rest;
    ext := [];
    if t != [] && t[0] == SEMI {
      ext := SkipWritten(t);
      assert t[0] == (ext + SkipToCr(t))[0];
    }
    var u := SkipExtension(t);
    assert t == ext + u;
    JoinHead(size, ext, t, u);
  }

  lemma JoinHead(size: seq<Byte>, ext: seq<Byte>, t: seq<Byte>, u: seq<Byte>)
    requires t == ext + u && AtCrlf(u)
    ensures size + t == size + ext + CRLF + u[2..]
  {
    assert u == CRLF + u[2..];
  }

  lemma {:induction false} NextCrlfPrefix(s: seq<Byte>)
    requires NextCrlf(s) + 2 <= |s|
    ensures NextCrlf(s[..NextCrlf(s) + 2]) == NextCrlf(s)
  {
    if !AtCrlf(s) {
      NextCrlfPrefix(s[1..]);
      var i := NextCrlf(s);
      assert s[..i + 2][1..] == s[1..][..i + 1];
      assert AtCrlf(s[..i + 2]) == AtCrlf(s);
    }
  }

  lemma NextCrlfCuts(s: seq<Byte>)
    requires NextCrlf(s) + 2 <= |s|
    ensures var i := NextCrlf(s); s == s[..i] + CRLF + s[i + 2..] && NextCrlf(s[..i] + CRLF) == i
  {
    hide NextCrlf;
    var i := NextCrlf(s);
    assert AtCrlf(s[i..]);
    NextCrlfPrefix(s);
    CutAt(s, i);
  }

  lemma CutAt(s: seq<Byte>, i: nat)
    requires i + 2 <= |s| && AtCrlf(s[i..])
    ensures s[..i + 2] == s[..i] + CRLF && s == s[..i] + CRLF + s[i + 2..]
  {
    assert s[i] == CR && s[i + 1] == LF;
  }

  lemma {:induction false} LinesWritten(s: seq<Byte>, used: nat) returns (lines: seq<seq<Byte>>)
    requires ReadTrailers(s, used).Got?
    ensures s == EncodeLines(lines) + ReadTrailers(s, used).rest && GoodLines(lines, used)
    decreases |s|
  {
    hide NextCrlf;
    if AtCrlf(s) {
      lines := [];
      assert s == CRLF + s[2..];
    } else {
      var i := NextCrlf(s);
      NextCrlfCuts(s);
      NotAtCrlf(s);
      var more := LinesWritten(s[i + 2..], used + i + 2);
      lines := [s[..i]] + more;
      LinesGrow(s, s[..i], more, s[i + 2..], ReadTrailers(s, used).rest);
    }
  }

  lemma NotAtCrlf(s: seq<Byte>)
    requires !AtCrlf(s) && |s| >= 2
    ensures NextCrlf(s) > 0
  {
  }

  lemma LinesGrow(s: seq<Byte>, l: seq<Byte>, more: seq<seq<Byte>>, t: seq<Byte>, rest: seq<Byte>)
    requires s == l + CRLF + t && t == EncodeLines(more) + rest
    ensures s == EncodeLines([l] + more) + rest && ([l] + more)[1..] == more
  {
    assert ([l] + more)[1..] == more;
  }

  lemma {:induction false} BodyWritten(s: seq<Byte>, total: nat)
    returns (chunks: seq<Chunk>, last: Chunk, trailers: seq<seq<Byte>>)
    requires ReadBody(s, total).Got?
    ensures GoodChunks(chunks, total) && GoodEnd(last, trailers)
    ensures Payload(chunks) == ReadBody(s, total).value
    ensures s == Encode(chunks, EncodeEnd(last, trailers)) + ReadBody(s, total).rest
    decreases |s|
  {
    hide ReadHead, GoodLines, ReadTrailers, GoodSize, GoodExtension;
    var size, ext := HeadWritten(s);
    ReadHeadShrinks(s);
    var z, t := ReadHead(s).value, ReadHead(s).rest;
    if z == 0 {
      chunks, last := [], Chunk(size, ext, []);
      trailers := LinesWritten(t, 0);
      EndWritten(s, last, trailers, t, ReadTrailers(t, 0).rest);
    } else {
      var k := Chunk(size, ext, t[..z]);
      var more;
      more, last, trailers := BodyWritten(t[z + 2..], total + z);
      chunks := [k] + more;
      ChunkWritten(s, k, t, z);
      EncodeGrows(k, more, EncodeEnd(last, trailers), t[z + 2..], ReadBody(t[z + 2..], total + z).rest);
      assert chunks[1..] == more;
    }
  }

  lemma EndWritten(s: seq<Byte>, last: Chunk, trailers: seq<seq<Byte>>, t: seq<Byte>, rest: seq<Byte>)
    requires s == last.size + last.ext + CRLF + t && t == EncodeLines(trailers) + rest
    ensures s == EncodeEnd(last, trailers) + rest
  {
  }

  lemma EncodeGrows(k: Chunk, more: seq<Chunk>, end: seq<Byte>, t: seq<Byte>, rest: seq<Byte>)
    requires t == Encode(more, end) + rest
    ensures EncodeChunk(k) + t == Encode([k] + more, end) + rest
  {
    assert ([k] + more)[1..] == more;
  }

  lemma ChunkWritten(s: seq<Byte>, k: Chunk, t: seq<Byte>, z: nat)
    requires s == k.size + k.ext + CRLF + t && z + 2 <= |t| && AtCrlf(t[z..]) && k.data == t[..z]
    ensures s == EncodeChunk(k) + t[z + 2..]
  {
    CutAt(t, z);
  }

  /** The reader yields a payload exactly for the encodings of that payload. */
  lemma ReaderAcceptsExactlyCodings(s: seq<Byte>, payload: seq<Byte>, rest: seq<Byte>)
    ensures ReadBody(s, 0) == Got(payload, rest)
       <==> exists c: Coded :: GoodBody(c) && s == EncodeBody(c) + rest && payload == Payload(c.chunks)
  {
    if ReadBody(s, 0) == Got(payload, rest) {
      var chunks, last, trailers := BodyWritten(s, 0);
      var c := Coded(chunks, last, trailers);
      assert GoodBody(c) && s == EncodeBody(c) + rest && payload == Payload(c.chunks);
    }
    if c: Coded :| GoodBody(c) && s == EncodeBody(c) + rest && payload == Payload(c.chunks) {
      EveryCodingIsRead(c, rest);
    }
  }

  // ---- The writer of the fixture --------------------------------------------------------

  /** `%x`: lower-case hexadecimal without leading zeros. */
  function Hex(n: nat): seq<Byte> {
    if n < 16 then [HexDigit(n)] else Hex(n / 16) + [HexDigit(n % 16)]
  }

  function HexDigit(d: nat): Byte
    requires d < 16
  {
    if d < 10 then 48 + d else 87 + d
  }

  /** The payload in pieces of `step` bytes, then the empty last chunk without trailers. */
  function Pieces(payload: seq<Byte>, step: nat): seq<Chunk>
    requires step > 0
    decreases |payload|
  {
    if payload == [] then []
    else
      var n := if |payload| < step then |payload| else step;
      [Chunk(Hex(n), [], payload[..n])] + Pieces(payload[n..], step)
  }

  function Written(payload: seq<Byte>, step: nat): Coded
    requires step > 0
  {
    Coded(Pieces(payload, step), Chunk(Hex(0), [], []), [])
  }

  lemma {:induction false} HexAppend(s: seq<Byte>, d: Byte, z: nat)
    requires AllHex(s) && HexValue(d) >= 0
    ensures AllHex(s + [d]) && HexNumber(s + [d], z) == HexNumber(s, z) * 16 + HexValue(d)
  {
    if s == [] {
      assert s + [d] == [d];
      assert HexNumber([d], z) == HexNumber([d][1..], z * 16 + HexValue(d));
    } else {
      assert (s + [d])[1..] == s[1..] + [d];
      HexAppend(s[1..], d, z * 16 + HexValue(s[0]));
    }
  }

  lemma {:induction false} HexIsNumber(n: nat, k: nat)
    requires k > 0 && n < Power16(k)
    ensures AllHex(Hex(n)) && HexNumber(Hex(n), 0) == n && 0 < |Hex(n)| <= k
  {
    var d := HexDigit(n % 16);
    assert HexValue(d) == n % 16;
    if n < 16 {
      assert HexNumber([d], 0) == HexNumber([d][1..], HexValue(d));
    } else {
      HexIsNumber(n / 16, k - 1);
      HexAppend(Hex(n / 16), d, 0);
    }
  }

  function Power16(k: nat): nat {
    if k == 0 then 1 else 16 * Power16(k - 1)
  }

  lemma FiveDigits()
    ensures Power16(5) == 1_048_576
  {
    assert Power16(2) == 256;
  }

  lemma PieceIsGood(payload: seq<Byte>, n: nat)
    requires n <= |payload| && n < BODY_MAX
    ensures GoodChunk(Chunk(Hex(n), [], payload[..n]))
  {
    FiveDigits();
    HexIsNumber(n, 5);
  }

  lemma {:induction false} PiecesAreGood(payload: seq<Byte>, step: nat, total: nat)
    requires 0 < step < BODY_MAX && total + |payload| < BODY_MAX
    ensures GoodChunks(Pieces(payload, step), total) && Payload(Pieces(payload, step)) == payload
    decreases |payload|
  {
    hide GoodChunk, Hex;
    if payload != [] {
      var n := if |payload| < step then |payload| else step;
      PieceIsGood(payload, n);
      PiecesAreGood(payload[n..], step, total + n);
      var c := Chunk(Hex(n), [], payload[..n]);
      assert ([c] + Pieces(payload[n..], step))[1..] == Pieces(payload[n..], step);
      assert payload[..n] + payload[n..] == payload;
    }
  }

  /** Reading undoes the chunk writer, for every payload below the limit and every piece size. */
  lemma ReadUndoesWriter(payload: seq<Byte>, step: nat, rest: seq<Byte>)
    requires 0 < step < BODY_MAX && |payload| < BODY_MAX
    ensures ReadBody(EncodeBody(Written(payload, step)) + rest, 0) == Got(payload, rest)
  {
    PiecesAreGood(payload, step, 0);
    PieceIsGood(payload, 0);
    EveryCodingIsRead(Written(payload, step), rest);
  }
}
