/** What a received HTTP message means to the browser: the header fields it reads, the chunked body,
    and the verdict on a message of which only a prefix has arrived. */
module HttpMessage {
  import opened Bytes
  import opened Common

  const BODY_MAX: nat := 131072
  const HEADER_MAX: nat := 8192
  const URL_MAX: nat := 512
  const TYPE_MAX: nat := 80
  const KEY_MAX: nat := 64
  const SIZE_DIGITS: nat := 6

  const CR: Byte := 13
  const LF: Byte := 10
  const SEMI: Byte := 59
  const COLON: Byte := 58

  predicate IsSuffix(r: seq<Byte>, s: seq<Byte>) {
    |r| <= |s| && r == s[|s| - |r|..]
  }

  predicate AtCrlf(s: seq<Byte>) {
    |s| >= 2 && s[0] == CR && s[1] == LF
  }

  /** Where the next line ends: the first CR LF, or one before the end when there is none. */
  function NextCrlf(s: seq<Byte>): (i: nat)
    ensures i < |s| || (i == 0 && s == [])
    ensures i + 1 < |s| ==> AtCrlf(s[i..])
  {
    if |s| < 2 || AtCrlf(s) then 0 else 1 + NextCrlf(s[1..])
  }

  lemma {:induction false} NextCrlfIs(a: seq<Byte>, rest: seq<Byte>)
    requires 13 !in a
    ensures NextCrlf(a + ([13, 10] + rest)) == |a|
  {
    if a != [] {
      assert (a + ([13, 10] + rest))[1..] == a[1..] + ([13, 10] + rest);
      NextCrlfIs(a[1..], rest);
    }
  }

  // ---- Chunked bodies -------------------------------------------------------------------

  function HexValue(c: Byte): int {
    var l := Lower(c);
    if 48 <= l <= 57 then l - 48 else if 97 <= l <= 102 then l - 87 else -1
  }

  /** The outcome of reading a piece of the message: not all of it is there, it is malformed, or a
      value and the bytes behind it. */
  datatype Scan<T> = More | Bad | Got(value: T, rest: seq<Byte>)

  function ReadSize(s: seq<Byte>, z: nat, digits: nat): Scan<nat> {
    if s == [] || s[0] == CR || s[0] == SEMI then (if digits == 0 then More else Got(z, s))
    else
      var v := HexValue(s[0]);
      if v < 0 || digits >= SIZE_DIGITS || z * 16 + v >= BODY_MAX then Bad
      else ReadSize(s[1..], z * 16 + v, digits + 1)
  }

  function SkipToCr(s: seq<Byte>): (r: seq<Byte>)
    ensures IsSuffix(r, s)
  {
    if s == [] || s[0] == CR then s else SkipToCr(s[1..])
  }

  /** A chunk extension is skipped up to the end of its line. */
  function SkipExtension(s: seq<Byte>): (r: seq<Byte>)
    ensures IsSuffix(r, s)
  {
    if s != [] && s[0] == SEMI then SkipToCr(s) else s
  }

  /** The size line of a chunk. */
  function ReadHead(s: seq<Byte>): Scan<nat> {
    match ReadSize(s, 0, 0)
    case More => More
    case Bad => Bad
    case Got(z, t) =>
      var u := SkipExtension(t);
      if |u| < 2 then More else if !AtCrlf(u) then Bad else Got(z, u[2..])
  }

  /** Trailer lines up to the empty line; `used` bytes of them have gone by. */
  function ReadTrailers(s: seq<Byte>, used: nat): Scan<()>
    decreases |s|
  {
    if |s| < 2 then More
    else if AtCrlf(s) then Got((), s[2..])
    else
      var i := NextCrlf(s);
      if i + 2 > |s| then More
      else if used + i + 2 > HEADER_MAX then Bad
      else ReadTrailers(s[i + 2..], used + i + 2)
  }

  lemma {:induction false} ReadSizeShrinks(s: seq<Byte>, z: nat, digits: nat)
    requires ReadSize(s, z, digits).Got?
    ensures var r := ReadSize(s, z, digits).rest;
            IsSuffix(r, s) && (digits == 0 ==> |r| < |s|)
  {
    hide IsSuffix, HexValue;
    if s == [] || s[0] == CR || s[0] == SEMI {
      WholeIsSuffix(s);
    } else {
      var v := HexValue(s[0]);
      ReadSizeShrinks(s[1..], z * 16 + v, digits + 1);
      TailSuffix(ReadSize(s, z, digits).rest, s);
    }
  }

  lemma WholeIsSuffix(s: seq<Byte>)
    ensures IsSuffix(s, s)
  {
  }

  lemma TailSuffix(r: seq<Byte>, s: seq<Byte>)
    requires s != [] && IsSuffix(r, s[1..])
    ensures IsSuffix(r, s) && |r| < |s|
  {
  }

  /** A size line takes at least three bytes. */
  lemma ReadHeadShrinks(s: seq<Byte>)
    requires ReadHead(s).Got?
    ensures |ReadHead(s).rest| + 3 <= |s| && IsSuffix(ReadHead(s).rest, s)
  {
    hide IsSuffix, AtCrlf;
    ReadSizeShrinks(s, 0, 0);
    var t := ReadSize(s, 0, 0).rest;
    var u := SkipExtension(t);
    SuffixLength(u, t);
    DropSuffix(u);
    SuffixOfSuffix(u[2..], u, t);
    SuffixOfSuffix(u[2..], t, s);
  }

  lemma SuffixLength(r: seq<Byte>, s: seq<Byte>)
    requires IsSuffix(r, s)
    ensures |r| <= |s|
  {
  }

  lemma DropSuffix(u: seq<Byte>)
    requires |u| >= 2
    ensures IsSuffix(u[2..], u)
  {
  }

  lemma SuffixOfSuffix(a: seq<Byte>, b: seq<Byte>, c: seq<Byte>)
    requires IsSuffix(a, b) && IsSuffix(b, c)
    ensures IsSuffix(a, c)
  {
  }

  /** The payload of the chunks from here to the end, when `total` bytes came before. */
  function ReadBody(s: seq<Byte>, total: nat): Scan<seq<Byte>>
    decreases |s|
  {
    match ReadHead(s)
    case More => More
    case Bad => Bad
    case Got(z, t) =>
      ReadHeadShrinks(s);
      if z == 0 then
        match ReadTrailers(t, 0)
        case More => More
        case Bad => Bad
        case Got(_, rest) => Got([], rest)
      else if z > |t| || |t| - z < 2 then More
      else if !AtCrlf(t[z..]) || total + z >= BODY_MAX then Bad
      else
        match ReadBody(t[z + 2..], total + z)
        case More => More
        case Bad => Bad
        case Got(payload, rest) => Got(t[..z] + payload, rest)
  }

  // ---- Header fields --------------------------------------------------------------------

  predicate IsSpace(c: Byte) {
    c == 32 || c == 9 || c == 13 || c == 10 || c == 12
  }

  function TrimLeft(s: seq<Byte>): (r: seq<Byte>)
    ensures IsSuffix(r, s)
  {
    if s != [] && IsSpace(s[0]) then TrimLeft(s[1..]) else s
  }

  function TrimRight(s: seq<Byte>): (r: seq<Byte>)
    ensures |r| <= |s| && r == s[..|r|]
  {
    if s != [] && IsSpace(s[|s| - 1]) then TrimRight(s[..|s| - 1]) else s
  }

  /** `web_equal`: C strings equal up to ASCII case. */
  predicate EqualText(a: seq<Byte>, b: seq<Byte>) {
    LowerAll(UpToNul(a)) == LowerAll(UpToNul(b))
  }

  datatype Fields = Fields(length: Option<nat>, chunked: bool, location: seq<Byte>, ctype: seq<Byte>)

  const NO_FIELDS: Fields := Fields(None, false, [], [])

  /** A decimal length below the body limit. */
  function ReadLength(v: seq<Byte>, len: nat): Option<nat> {
    if v == [] then Some(len)
    else if v[0] < 48 || v[0] > 57 || len * 10 + (v[0] - 48) >= BODY_MAX then None
    else ReadLength(v[1..], len * 10 + (v[0] - 48))
  }

  /** The fields read so far, and whether the message is still acceptable. */
  datatype Parsed = Parsed(ok: bool, f: Fields)

  function UseField(key: seq<Byte>, v: seq<Byte>, f: Fields): Parsed {
    if EqualText(key, Ascii("Content-Length")) then
      if f.length.Some? || v == [] then Parsed(false, f)
      else match ReadLength(v, 0)
           case None => Parsed(false, f)
           case Some(n) => Parsed(true, f.(length := Some(n)))
    else if EqualText(key, Ascii("Transfer-Encoding")) then
      Parsed(!f.chunked && EqualText(v, Ascii("chunked")), f.(chunked := true))
    else if EqualText(key, Ascii("Content-Encoding")) then
      Parsed(EqualText(v, Ascii("identity")), f)
    else if EqualText(key, Ascii("Location")) then Parsed(true, f.(location := v))
    else if EqualText(key, Ascii("Content-Type")) then
      var t := v[..Find(v, SEMI)];
      if |t| >= TYPE_MAX then Parsed(false, f) else Parsed(true, f.(ctype := t))
    else Parsed(true, f)
  }

  /** One header line. */
  function ReadField(line: seq<Byte>, f: Fields): Parsed {
    var colon := Find(line, COLON);
    if colon == |line| then Parsed(false, f)
    else
      var key, value := line[..colon], TrimRight(TrimLeft(line[colon + 1..]));
      if |key| >= KEY_MAX || |value| >= URL_MAX then Parsed(false, f) else UseField(key, UpToNul(value), f)
  }

  /** The header lines from here to the empty line. */
  function ReadFields(s: seq<Byte>, f: Fields): Parsed
    decreases |s|
  {
    if |s| <= 2 then Parsed(true, f)
    else
      var stop := NextCrlf(s);
      var p := ReadField(s[..stop], f);
      if !p.ok || stop + 2 > |s| then p else ReadFields(s[stop + 2..], p.f)
  }

  // ---- The whole message ----------------------------------------------------------------

  predicate AtBlankLine(s: seq<Byte>) {
    |s| >= 4 && AtCrlf(s) && AtCrlf(s[2..])
  }

  /** The length of the header with its empty line, or 0 when the empty line has not arrived. */
  function HeaderEnd(s: seq<Byte>): (e: nat)
    ensures e == 0 || 4 <= e <= |s|
  {
    if |s| < 4 then 0 else if AtBlankLine(s) then 4
    else var e := HeaderEnd(s[1..]); if e == 0 then 0 else e + 1
  }

  /** `HTTP/1.0` or `HTTP/1.1` and a blank. */
  predicate GoodVersion(b: seq<Byte>) {
    |b| >= 12 && b[..7] == Ascii("HTTP/1.") && (b[7] == 48 || b[7] == 49) && b[8] == 32
  }

  /** The number the digits up to the first byte that is none stand for. */
  function Status(d: seq<Byte>, acc: nat): nat {
    if d == [] || !IsDigit(d[0]) then acc else Status(d[1..], acc * 10 + (d[0] - 48))
  }

  datatype Verdict = Incomplete | Complete | Refused

  datatype Response = Response(verdict: Verdict, status: nat, body: nat, length: nat,
                               location: seq<Byte>, ctype: seq<Byte>)

  function Unfinished(eof: bool): Verdict {
    if eof then Refused else Incomplete
  }

  function HeaderFields(h: seq<Byte>): Parsed
  {
    var first := NextCrlf(h);
    if first + 2 > |h| then Parsed(true, NO_FIELDS) else ReadFields(h[first + 2..], NO_FIELDS)
  }

  /** What `web_response` reports on the bytes received so far. */
  function Respond(b: seq<Byte>, eof: bool): Response {
    var end := HeaderEnd(b);
    if end == 0 then
      Response(if eof || |b| > HEADER_MAX then Refused else Incomplete, 0, 0, 0, [], [])
    else if end > HEADER_MAX || !GoodVersion(b) then Response(Refused, 0, 0, 0, [], [])
    else
      var status := Status(b[9..12], 0);
      if !(IsDigit(b[9]) && IsDigit(b[10]) && IsDigit(b[11])) then Response(Refused, status, 0, 0, [], [])
      else
        var p := HeaderFields(b[..end]);
        if !p.ok then Response(Refused, status, 0, 0, p.f.location, p.f.ctype)
        else
          var (verdict, length) := Body(p.f, status, b[end..], eof);
          Response(verdict, status, end, length, p.f.location, p.f.ctype)
  }

  /** The verdict and the length of the body, from the bytes behind the header. */
  function Body(f: Fields, status: nat, s: seq<Byte>, eof: bool): (Verdict, nat) {
    if f.chunked then
      if f.length.Some? then (Refused, 0)
      else match ReadBody(s, 0)
           case More => (Unfinished(eof), 0)
           case Bad => (Refused, 0)
           case Got(payload, _) => (Complete, |payload|)
    else if f.length.Some? then
      if |s| < f.length.value then (Unfinished(eof), 0) else (Complete, f.length.value)
    else if status == 204 || status == 304 then (Complete, 0)
    else if eof then (Complete, |s|) else (Incomplete, 0)
  }

  // ---- Delivery independence ------------------------------------------------------------

  lemma {:induction false} HeaderEndStays(b: seq<Byte>, x: seq<Byte>)
    ensures if HeaderEnd(b) != 0 then HeaderEnd(b + x) == HeaderEnd(b)
            else HeaderEnd(b + x) == 0 || HeaderEnd(b + x) > |b|
  {
    if |b| >= 4 {
      assert AtBlankLine(b + x) == AtBlankLine(b);
      assert (b + x)[1..] == b[1..] + x;
      HeaderEndStays(b[1..], x);
    }
  }

  /** Once reading a piece has come to a result, more bytes behind it do not change the result. */
  ghost predicate Stays<T>(r: Scan<T>, r': Scan<T>, x: seq<Byte>) {
    match r
    case More => true
    case Bad => r' == Bad
    case Got(v, rest) => r' == Got(v, rest + x)
  }

  lemma {:induction false} ReadSizeStays(s: seq<Byte>, z: nat, digits: nat, x: seq<Byte>)
    requires s != []
    ensures match ReadSize(s, z, digits)
            case More => true
            case Bad => ReadSize(s + x, z, digits) == Bad
            case Got(v, rest) => rest != [] ==> ReadSize(s + x, z, digits) == Got(v, rest + x)
  {
    if s[0] != CR && s[0] != SEMI {
      var v := HexValue(s[0]);
      assert (s + x)[1..] == s[1..] + x;
      if v >= 0 && digits < SIZE_DIGITS && z * 16 + v < BODY_MAX && |s| > 1 {
        ReadSizeStays(s[1..], z * 16 + v, digits + 1, x);
      }
    }
  }

  lemma {:induction false} SkipToCrStays(s: seq<Byte>, x: seq<Byte>)
    requires SkipToCr(s) != []
    ensures SkipToCr(s + x) == SkipToCr(s) + x
  {
    if s[0] != CR {
      assert (s + x)[1..] == s[1..] + x;
      SkipToCrStays(s[1..], x);
    }
  }

  lemma ExtensionStays(t: seq<Byte>, x: seq<Byte>)
    requires t != [] && SkipExtension(t) != []
    ensures SkipExtension(t + x) == SkipExtension(t) + x
  {
    if t[0] == SEMI {
      SkipToCrStays(t, x);
    }
  }

  lemma CrlfStays(u: seq<Byte>, x: seq<Byte>)
    requires |u| >= 2
    ensures AtCrlf(u + x) == AtCrlf(u) && (u + x)[2..] == u[2..] + x
  {
  }

  lemma ReadHeadStays(s: seq<Byte>, x: seq<Byte>)
    ensures Stays(ReadHead(s), ReadHead(s + x), x)
  {
    hide ReadSize, SkipExtension, AtCrlf;
    if s == [] {
      EmptySize();
    } else {
      ReadSizeStays(s, 0, 0, x);
      match ReadSize(s, 0, 0)
      case More =>
      case Bad =>
      case Got(z, t) =>
        var u := SkipExtension(t);
        if |u| >= 2 {
          ExtensionStays(t, x);
          CrlfStays(u, x);
        }
    }
  }

  lemma EmptySize()
    ensures ReadSize([], 0, 0) == More
  {
  }

  lemma {:induction false} NextCrlfStays(s: seq<Byte>, x: seq<Byte>)
    requires NextCrlf(s) + 2 <= |s|
    ensures NextCrlf(s + x) == NextCrlf(s)
  {
    assert AtCrlf(s + x) == AtCrlf(s);
    if !AtCrlf(s) {
      assert (s + x)[1..] == s[1..] + x;
      NextCrlfStays(s[1..], x);
    }
  }

  lemma {:induction false} ReadTrailersStays(s: seq<Byte>, used: nat, x: seq<Byte>)
    ensures Stays(ReadTrailers(s, used), ReadTrailers(s + x, used), x)
    decreases |s|
  {
    hide AtCrlf, NextCrlf;
    if |s| >= 2 {
      CrlfStays(s, x);
      var i := NextCrlf(s);
      if !AtCrlf(s) && i + 2 <= |s| {
        NextCrlfStays(s, x);
        assert (s + x)[i + 2..] == s[i + 2..] + x;
        ReadTrailersStays(s[i + 2..], used + i + 2, x);
      }
    }
  }

  /** The data of one chunk and the line end behind it. */
  lemma ChunkStays(t: seq<Byte>, z: nat, x: seq<Byte>)
    requires z + 2 <= |t|
    ensures AtCrlf((t + x)[z..]) == AtCrlf(t[z..]) && (t + x)[..z] == t[..z] && (t + x)[z + 2..] == t[z + 2..] + x
  {
    assert (t + x)[z..] == t[z..] + x;
    CrlfStays(t[z..], x);
  }

  lemma {:induction false} ReadBodyStays(s: seq<Byte>, total: nat, x: seq<Byte>)
    ensures Stays(ReadBody(s, total), ReadBody(s + x, total), x)
    decreases |s|
  {
    hide ReadHead, AtCrlf, ReadTrailers;
    ReadHeadStays(s, x);
    match ReadHead(s)
    case More =>
    case Bad =>
    case Got(z, t) =>
      ReadHeadShrinks(s);
      if z == 0 {
        ReadTrailersStays(t, 0, x);
      } else if z + 2 <= |t| {
        ChunkStays(t, z, x);
        ReadBodyStays(t[z + 2..], total + z, x);
      }
  }

  lemma BodyStays(f: Fields, status: nat, s: seq<Byte>, x: seq<Byte>)
    requires Body(f, status, s, false).0 != Incomplete
    ensures Body(f, status, s + x, false) == Body(f, status, s, false)
  {
    ReadBodyStays(s, 0, x);
  }

  /** How the network cuts the message into deliveries cannot change the outcome: while the
      connection is open, a verdict on a prefix, with everything reported beside it, is the verdict
      on every extension of the prefix. */
  lemma DeliveryIndependence(b: seq<Byte>, x: seq<Byte>)
    requires Respond(b, false).verdict != Incomplete
    ensures Respond(b + x, false) == Respond(b, false)
  {
    hide HeaderEnd, GoodVersion, HeaderFields, Body, Status, IsDigit;
    HeaderEndStays(b, x);
    VersionStays(b, x);
    var end := HeaderEnd(b);
    if end != 0 && GoodVersion(b) && end <= HEADER_MAX {
      TwelveBytes(b);
      assert (b + x)[9..12] == b[9..12] && (b + x)[..end] == b[..end] && (b + x)[end..] == b[end..] + x;
      var p := HeaderFields(b[..end]);
      var status := Status(b[9..12], 0);
      if p.ok && Body(p.f, status, b[end..], false).0 != Incomplete {
        BodyStays(p.f, status, b[end..], x);
      }
    }
  }

  lemma TwelveBytes(b: seq<Byte>)
    requires GoodVersion(b)
    ensures |b| >= 12
  {
  }

  lemma {:induction false} BlankLineBeforeEnd(b: seq<Byte>)
    requires HeaderEnd(b) != 0
    ensures AtBlankLine(b[HeaderEnd(b) - 4..])
  {
    if !AtBlankLine(b) {
      BlankLineBeforeEnd(b[1..]);
      assert b[1..][HeaderEnd(b[1..]) - 4..] == b[HeaderEnd(b) - 4..];
    } else {
      assert b[0..] == b;
    }
  }

  /** A header that ends within the first twelve bytes never has a good status line. */
  lemma VersionStays(b: seq<Byte>, x: seq<Byte>)
    ensures HeaderEnd(b) != 0 ==> GoodVersion(b + x) == GoodVersion(b)
  {
    assert |b| >= 12 ==> (b + x)[..7] == b[..7];
    if HeaderEnd(b) != 0 && |b| < 12 {
      BlankLineBeforeEnd(b);
      CrIsNoVersion(b + x, HeaderEnd(b) - 4);
    }
  }

  lemma CrIsNoVersion(s: seq<Byte>, i: nat)
    requires i < 8 && i < |s| && s[i] == CR
    ensures !GoodVersion(s)
  {
    var v := Ascii("HTTP/1.");
    assert forall k :: 0 <= k < 7 ==> v[k] != CR;
    if i < 7 <= |s| {
      assert s[..7][i] == s[i];
    }
  }
}
