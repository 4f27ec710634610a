/** `web_response`: the verdict on the bytes received so far. A complete chunked body is compacted in
    place, in a second pass over the same bytes. */
module HttpDecoder {
  import opened Bytes
  import HttpChunks
  import opened HttpMessage

  /** `memmove` within one buffer, safe for overlapping ranges. */
  method MoveWithin(buf: array<Byte>, dst: nat, src: nat, n: nat)
    requires dst + n <= buf.Length && src + n <= buf.Length
    modifies buf
    ensures buf[dst..dst + n] == old(buf[src..src + n])
    ensures forall k :: 0 <= k < buf.Length && !(dst <= k < dst + n) ==> buf[k] == old(buf[k])
  {
    if dst < src {
      for i := 0 to n
        invariant forall k :: dst <= k < dst + i ==> buf[k] == old(buf[k - dst + src])
        invariant forall k :: 0 <= k < buf.Length && !(dst <= k < dst + i) ==> buf[k] == old(buf[k])
      {
        buf[dst + i] := buf[src + i];
      }
    } else {
      for i := n downto 0
        invariant forall k :: dst + i <= k < dst + n ==> buf[k] == old(buf[k - dst + src])
        invariant forall k :: 0 <= k < buf.Length && !(dst + i <= k < dst + n) ==> buf[k] == old(buf[k])
      {
        buf[dst + i] := buf[src + i];
      }
    }
  }

  datatype Outcome = NeedMore | Malformed | Found

  /** A cursor reading of the buffer agrees with the reading of the bytes from `start` on. */
  ghost predicate Agrees<T>(r: Scan<T>, o: Outcome, v: T, rest: seq<Byte>) {
    match r
    case More => o == NeedMore
    case Bad => o == Malformed
    case Got(v', rest') => o == Found && v == v' && rest == rest'
  }

  method ScanSize(b: seq<Byte>, start: nat) returns (o: Outcome, z: nat, pos: nat)
    requires start <= |b|
    ensures start <= pos <= |b|
    ensures Agrees(ReadSize(b[start..], 0, 0), o, z, b[pos..])
  {
    pos, z := start, 0;
    var digits := 0;
    while pos < |b| && b[pos] != CR && b[pos] != SEMI
      invariant start <= pos <= |b|
      invariant ReadSize(b[pos..], z, digits) == ReadSize(b[start..], 0, 0)
    {
      assert b[pos..][1..] == b[pos + 1..];
      var v := HexValue(b[pos]);
      pos := pos + 1;
      if v < 0 || digits >= SIZE_DIGITS || z * 16 + v >= BODY_MAX {
        return Malformed, z, pos;
      }
      digits, z := digits + 1, z * 16 + v;
    }
    o := if digits == 0 then NeedMore else Found;
  }

  method ScanExtension(b: seq<Byte>, start: nat) returns (pos: nat)
    requires start <= |b|
    ensures start <= pos <= |b| && SkipExtension(b[start..]) == b[pos..]
  {
    pos := start;
    if pos < |b| && b[pos] == SEMI {
      while pos < |b| && b[pos] != CR
        invariant start <= pos <= |b| && SkipToCr(b[pos..]) == SkipToCr(b[start..])
      {
        assert b[pos..][1..] == b[pos + 1..];
        pos := pos + 1;
      }
    }
  }

  predicate CrlfAt(b: seq<Byte>, pos: nat) {
    pos + 2 <= |b| && b[pos] == CR && b[pos + 1] == LF
  }

  lemma CrlfAtSlice(b: seq<Byte>, pos: nat)
    requires pos <= |b|
    ensures CrlfAt(b, pos) <==> AtCrlf(b[pos..])
    ensures pos + 2 <= |b| ==> b[pos..][2..] == b[pos + 2..]
  {
  }

  method ScanHead(b: seq<Byte>, start: nat) returns (o: Outcome, z: nat, pos: nat)
    requires start <= |b|
    ensures start <= pos <= |b|
    ensures Agrees(ReadHead(b[start..]), o, z, b[pos..])
  {
    o, z, pos := ScanSize(b, start);
    if o != Found {
      return;
    }
    pos := ScanExtension(b, pos);
    CrlfAtSlice(b, pos);
    if pos + 2 > |b| {
      return NeedMore, z, pos;
    }
    if !CrlfAt(b, pos) {
      return Malformed, z, pos;
    }
    pos := pos + 2;
  }

  method ScanLine(b: seq<Byte>, start: nat) returns (pos: nat)
    requires start < |b|
    ensures start <= pos < |b| && NextCrlf(b[start..]) == pos - start
  {
    pos := start;
    while pos + 1 < |b| && !CrlfAt(b, pos)
      invariant start <= pos < |b| && NextCrlf(b[start..]) == pos - start + NextCrlf(b[pos..])
    {
      assert b[pos..][1..] == b[pos + 1..];
      pos := pos + 1;
    }
  }

  method ScanTrailers(b: seq<Byte>, start: nat) returns (o: Outcome, pos: nat)
    requires start <= |b|
    ensures start <= pos <= |b|
    ensures Agrees(ReadTrailers(b[start..], 0), o, (), b[pos..])
  {
    hide AtCrlf, NextCrlf;
    pos := start;
    while true
      invariant start <= pos <= |b|
      invariant ReadTrailers(b[pos..], pos - start) == ReadTrailers(b[start..], 0)
      decreases |b| - pos
    {
      CrlfAtSlice(b, pos);
      if pos + 2 > |b| {
        return NeedMore, pos;
      }
      if CrlfAt(b, pos) {
        return Found, pos + 2;
      }
      var stop := ScanLine(b, pos);
      if stop + 2 > |b| {
        return NeedMore, pos;
      }
      assert b[pos..][stop - pos + 2..] == b[stop + 2..];
      if stop + 2 - start > HEADER_MAX {
        return Malformed, pos;
      }
      pos := stop + 2;
    }
  }

  /** What remains to be read, put behind what has been read, is the whole body. */
  ghost predicate Continues(whole: Scan<seq<Byte>>, done: seq<Byte>, r: Scan<seq<Byte>>) {
    match r
    case More => whole == More
    case Bad => whole == Bad
    case Got(p, rest) => whole == Got(done + p, rest)
  }

  /** One chunk at `start`, of which `total` bytes came before; `last` tells the empty one. */
  method ScanChunk(b: seq<Byte>, start: nat, total: nat) returns (o: Outcome, z: nat, data: nat, pos: nat, last: bool)
    requires start <= |b|
    ensures start <= pos <= |b|
    ensures o == Found && !last ==> start < data && data + z + 2 == pos && total + z < BODY_MAX
    ensures o == Found && !last ==>
              Continues(ReadBody(b[start..], total), b[data..data + z], ReadBody(b[pos..], total + z))
    ensures o != Found || last ==> Agrees(ReadBody(b[start..], total), o, [], b[pos..])
  {
    hide ReadHead, ReadTrailers, AtCrlf;
    o, z, data := ScanHead(b, start);
    pos, last := start, false;
    if o != Found {
      return;
    }
    ReadHeadShrinks(b[start..]);
    if z == 0 {
      o, pos := ScanTrailers(b, data);
      last := true;
    } else if z > |b| - data || |b| - data - z < 2 {
      o := NeedMore;
    } else {
      ChunkSlices(b, data, z);
      CrlfAtSlice(b, data + z);
      if !CrlfAt(b, data + z) || total + z >= BODY_MAX {
        o := Malformed;
      } else {
        pos := data + z + 2;
      }
    }
  }

  lemma ChunkSlices(b: seq<Byte>, data: nat, z: nat)
    requires data + z + 2 <= |b|
    ensures b[data..][z..] == b[data + z..] && b[data..][z + 2..] == b[data + z + 2..]
            && b[data..][..z] == b[data..data + z]
  {
  }

  lemma ContinuesChain(w: Scan<seq<Byte>>, done: seq<Byte>, r: Scan<seq<Byte>>, piece: seq<Byte>, r': Scan<seq<Byte>>)
    requires Continues(w, done, r) && Continues(r, piece, r')
    ensures Continues(w, done + piece, r')
  {
    if r'.Got? {
      assert done + (piece + r'.value) == done + piece + r'.value;
    }
  }

  /** `done` stands at `end`, and everything else is as it was. */
  ghost predicate Compacted(now: seq<Byte>, was: seq<Byte>, end: nat, done: seq<Byte>) {
    && |now| == |was| && end + |done| <= |now|
    && now == was[..end] + done + was[end + |done|..]
  }

  lemma CompactMore(now: seq<Byte>, was: seq<Byte>, end: nat, done: seq<Byte>, now': seq<Byte>, piece: seq<Byte>)
    requires Compacted(now, was, end, done) && |now'| == |now| && end + |done| + |piece| <= |now|
    requires now'[end + |done|..end + |done| + |piece|] == piece
    requires forall k :: 0 <= k < |now| && !(end + |done| <= k < end + |done| + |piece|) ==> now'[k] == now[k]
    ensures Compacted(now', was, end, done + piece)
  {
    var all := was[..end] + (done + piece) + was[end + |done + piece|..];
    forall k | 0 <= k < |now| ensures now'[k] == all[k] {
      if end + |done| <= k < end + |done| + |piece| {
        assert now'[k] == now'[end + |done|..end + |done| + |piece|][k - end - |done|];
      }
    }
  }

  lemma RestUntouched(now: seq<Byte>, was: seq<Byte>, end: nat, done: seq<Byte>, pos: nat, n: nat)
    requires Compacted(now, was, end, done) && end + |done| <= pos <= n <= |now|
    ensures now[..n][pos..] == was[pos..n]
  {
  }

  /** Copy the data of a chunk down behind the payload so far. */
  method MoveChunk(buf: array<Byte>, end: nat, total: nat, data: nat, z: nat, ghost was: seq<Byte>,
                   ghost done: seq<Byte>)
    requires total == |done| && end + total <= data && data + z <= buf.Length
    requires Compacted(buf[..], was, end, done)
    modifies buf
    ensures Compacted(buf[..], was, end, done + was[data..data + z])
  {
    ghost var before := buf[..];
    RestUntouched(before, was, end, done, data, |before|);
    assert before[data..data + z] == was[data..data + z];
    MoveWithin(buf, end + total, data, z);
    CompactMore(before, was, end, done, buf[..], was[data..data + z]);
  }

  /** One pass over a chunked body; the second pass compacts the data as it goes. The bytes it writes
      always lie before the bytes it has yet to read. */
  method ChunkPass(buf: array<Byte>, n: nat, end: nat, second: bool) returns (o: Outcome, total: nat)
    requires end <= n <= buf.Length
    modifies buf
    ensures match ReadBody(old(buf[end..n]), 0)
            case More => o == NeedMore
            case Bad => o == Malformed
            case Got(p, _) => o == Found && total == |p| && (second ==> Compacted(buf[..], old(buf[..]), end, p))
    ensures !second ==> buf[..] == old(buf[..])
  {
    hide ReadBody, Compacted, Continues, Agrees;
    ghost var was := buf[..];
    ghost var whole := ReadBody(was[end..n], 0);
    ghost var done: seq<Byte> := [];
    var pos := end;
    total := 0;
    assert was[end..n] == buf[end..n];
    NothingDone(whole);
    NothingMoved(was, end);
    while true
      invariant end + total <= pos <= n && total == |done|
      invariant if second then Compacted(buf[..], was, end, done) else buf[..] == was
      invariant Continues(whole, done, ReadBody(was[pos..n], total))
      decreases n - pos
    {
      if second {
        RestUntouched(buf[..], was, end, done, pos, n);
      }
      ghost var b := buf[..n];
      assert b[pos..] == was[pos..n];
      var z, data, next, last;
      o, z, data, next, last := ScanChunk(buf[..n], pos, total);
      if o != Found || last {
        PassEnds(whole, done, ReadBody(was[pos..n], total), o, b[next..]);
        return;
      }
      SlicesAgree(b, was, n, pos, next, data, z);
      ContinuesChain(whole, done, ReadBody(was[pos..n], total), was[data..data + z], ReadBody(was[next..n], total + z));
      if second {
        MoveChunk(buf, end, total, data, z, was, done);
      }
      done := done + was[data..data + z];
      total, pos := total + z, next;
    }
  }

  lemma NothingMoved(was: seq<Byte>, end: nat)
    requires end <= |was|
    ensures Compacted(was, was, end, [])
  {
    assert was == was[..end] + [] + was[end..];
  }

  lemma NothingDone(whole: Scan<seq<Byte>>)
    ensures Continues(whole, [], whole)
  {
    if whole.Got? {
      assert [] + whole.value == whole.value;
    }
  }

  lemma PassEnds(whole: Scan<seq<Byte>>, done: seq<Byte>, r: Scan<seq<Byte>>, o: Outcome, rest: seq<Byte>)
    requires Continues(whole, done, r) && Agrees(r, o, [], rest)
    ensures match whole case More => o == NeedMore case Bad => o == Malformed case Got(p, _) => o == Found && p == done
  {
  }

  lemma SlicesAgree(b: seq<Byte>, was: seq<Byte>, n: nat, pos: nat, next: nat, data: nat, z: nat)
    requires |b| == n <= |was| && pos <= data && data + z <= next <= n && b[pos..] == was[pos..n]
    ensures b[next..] == was[next..n] && b[data..data + z] == was[data..data + z]
  {
    assert forall k :: pos <= k < n ==> b[k] == b[pos..][k - pos] == was[pos..n][k - pos] == was[k];
  }

  // ---- The header -----------------------------------------------------------------------

  method FindHeaderEnd(b: seq<Byte>) returns (end: nat)
    ensures end == HeaderEnd(b)
  {
    var i := 0;
    while i + 3 < |b|
      invariant i <= |b|
      invariant HeaderEnd(b) == if HeaderEnd(b[i..]) == 0 then 0 else i + HeaderEnd(b[i..])
    {
      if b[i] == CR && b[i + 1] == LF && b[i + 2] == CR && b[i + 3] == LF {
        return i + 4;
      }
      assert b[i..][1..] == b[i + 1..];
      i := i + 1;
    }
    end := 0;
  }

  method ReadStatus(b: seq<Byte>) returns (status: nat, ok: bool)
    requires |b| >= 12
    ensures status == Status(b[9..12], 0) && (ok <==> IsDigit(b[9]) && IsDigit(b[10]) && IsDigit(b[11]))
  {
    status, ok := 0, true;
    var i := 9;
    while i < 12
      invariant 9 <= i <= 12 && Status(b[i..12], status) == Status(b[9..12], 0)
      invariant forall k :: 9 <= k < i ==> IsDigit(b[k])
    {
      if !IsDigit(b[i]) {
        return status, false;
      }
      assert b[i..12][1..] == b[i + 1..12];
      status := status * 10 + (b[i] - 48);
      i := i + 1;
    }
  }

  /** The header lines: the field loop of `web_response`. */
  method ReadHeader(h: seq<Byte>) returns (p: Parsed)
    requires h != []
    ensures p == HeaderFields(h)
  {
    hide ReadFields, NextCrlf;
    var first := ScanLine(h, 0);
    assert h[0..] == h;
    if first + 2 > |h| {
      return Parsed(true, NO_FIELDS);
    }
    p := ReadHeaderLines(h, first + 2);
  }

  method ReadHeaderLines(h: seq<Byte>, start: nat) returns (p: Parsed)
    requires start <= |h|
    ensures p == ReadFields(h[start..], NO_FIELDS)
  {
    hide ReadField, NextCrlf;
    var pos := start;
    p := Parsed(true, NO_FIELDS);
    while pos + 2 < |h|
      invariant pos <= |h| && p.ok
      invariant ReadFields(h[pos..], p.f) == ReadFields(h[start..], NO_FIELDS)
    {
      var stop := ScanLine(h, pos);
      assert h[pos..][..stop - pos] == h[pos..stop];
      p := ReadField(h[pos..stop], p.f);
      if !p.ok || stop + 2 > |h| {
        return;
      }
      assert h[pos..][stop - pos + 2..] == h[stop + 2..];
      pos := stop + 2;
    }
  }

  /** The body of a chunked message: the two passes. */
  method ReadChunked(buf: array<Byte>, n: nat, end: nat) returns (o: Outcome, length: nat)
    requires end <= n <= buf.Length
    modifies buf
    ensures match ReadBody(old(buf[end..n]), 0)
            case More => o == NeedMore && length == 0 && buf[..] == old(buf[..])
            case Bad => o == Malformed && length == 0 && buf[..] == old(buf[..])
            case Got(p, _) => o == Found && length == |p| && Compacted(buf[..], old(buf[..]), end, p)
  {
    o, length := ChunkPass(buf, n, end, false);
    if o != Found {
      length := 0;
      return;
    }
    assert buf[end..n] == buf[..][end..n];
    o, length := ChunkPass(buf, n, end, true);
  }

  /** The buffer after the call: a complete chunked message has its payload where the body begins and
      nothing else changed; in every other case nothing changed. */
  ghost predicate BufferAfter(now: seq<Byte>, was: seq<Byte>, n: nat, end: nat, chunked: bool, v: Verdict)
    requires end <= n <= |was|
  {
    if chunked && v == Complete then
      match ReadBody(was[end..n], 0)
      case Got(p, _) => Compacted(now, was, end, p)
      case _ => false
    else now == was
  }

  method ReadBodyPart(buf: array<Byte>, n: nat, end: nat, f: Fields, status: nat, eof: bool)
    returns (v: Verdict, length: nat)
    requires end <= n <= buf.Length
    modifies buf
    ensures (v, length) == Body(f, status, old(buf[end..n]), eof)
    ensures BufferAfter(buf[..], old(buf[..]), n, end, f.chunked, v)
  {
    v, length := Refused, 0;
    if f.chunked {
      if f.length.Some? {
        return;
      }
      assert buf[end..n] == buf[..][end..n];
      var o;
      o, length := ReadChunked(buf, n, end);
      v := if o == Found then Complete else if o == Malformed then Refused else Unfinished(eof);
    } else if f.length.Some? {
      if n - end < f.length.value {
        v := Unfinished(eof);
      } else {
        v, length := Complete, f.length.value;
      }
    } else if status == 204 || status == 304 {
      v := Complete;
    } else if eof {
      v, length := Complete, n - end;
    } else {
      v := Incomplete;
    }
  }

  predicate IsChunked(b: seq<Byte>) {
    HeaderFields(b[..HeaderEnd(b)]).f.chunked
  }

  /** `web_response`. */
  method WebResponse(buf: array<Byte>, n: nat, eof: bool) returns (r: Response)
    requires n <= buf.Length
    modifies buf
    ensures r == Respond(old(buf[..n]), eof)
    ensures BufferAfter(buf[..], old(buf[..]), n, HeaderEnd(old(buf[..n])), IsChunked(old(buf[..n])), r.verdict)
  {
    hide Body, BufferAfter, HeaderFields, HeaderEnd, GoodVersion, ReadBody, Status, IsDigit;
    var b := buf[..n];
    var end := FindHeaderEnd(b);
    Untouched(buf[..], n, end, IsChunked(b));
    if end == 0 {
      return Response(if eof || n > HEADER_MAX then Refused else Incomplete, 0, 0, 0, [], []);
    }
    if end > HEADER_MAX || !GoodVersion(b) {
      return Response(Refused, 0, 0, 0, [], []);
    }
    TwelveBytes(b);
    var status, ok := ReadStatus(b);
    if !ok {
      return Response(Refused, status, 0, 0, [], []);
    }
    var p := ReadHeader(b[..end]);
    if !p.ok {
      return Response(Refused, status, 0, 0, p.f.location, p.f.ctype);
    }
    assert b[end..] == buf[end..n];
    var v, length := ReadBodyPart(buf, n, end, p.f, status, eof);
    r := Response(v, status, end, length, p.f.location, p.f.ctype);
  }

  lemma Untouched(now: seq<Byte>, n: nat, end: nat, chunked: bool)
    requires end <= n <= |now|
    ensures BufferAfter(now, now, n, end, chunked, Refused) && BufferAfter(now, now, n, end, chunked, Incomplete)
  {
  }

  /** Where the body is a coding, the body area ends up as its payload, and nothing before it or behind
      the payload changes. */
  lemma PayloadStands(now: seq<Byte>, was: seq<Byte>, n: nat, end: nat, c: HttpChunks.Coded, rest: seq<Byte>)
    requires end <= n <= |was| && BufferAfter(now, was, n, end, true, Complete)
    requires HttpChunks.GoodBody(c) && was[end..n] == HttpChunks.EncodeBody(c) + rest
    ensures var payload := HttpChunks.Payload(c.chunks);
            && end + |payload| <= |now| && now[end..end + |payload|] == payload
            && now[..end] == was[..end] && now[end + |payload|..] == was[end + |payload|..]
  {
    HttpChunks.EveryCodingIsRead(c, rest);
  }
}
