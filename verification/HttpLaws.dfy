/** What the browser makes of a message header, said of the bytes that are sent: the printed header with
    any lines, and for each line that counts what it means. */
module HttpLaws {
  import opened Bytes
  import opened Common
  import opened Decimals
  import opened HttpMessage

  // ---- Printing -------------------------------------------------------------------------

  /** A header line: the name, blanks, the value, blanks. */
  datatype Line = Line(name: seq<Byte>, before: seq<Byte>, value: seq<Byte>, after: seq<Byte>)

  /** A status line and header lines: `HTTP/1.x ddd` and whatever follows on the first line. */
  datatype Header = Header(minor: Byte, digits: seq<Byte>, reason: seq<Byte>, lines: seq<Line>)

  predicate Plain(s: seq<Byte>) { 0 !in s && 13 !in s }

  predicate Blanks(s: seq<Byte>) { forall i :: 0 <= i < |s| ==> s[i] in {9, 10, 12, 32} }

  predicate LineOk(l: Line) {
    && Plain(l.name) && 58 !in l.name && Blanks(l.before) && Blanks(l.after) && Plain(l.value)
    && (l.value != [] ==> l.value[0] !in {9, 10, 12, 32} && l.value[|l.value| - 1] !in {9, 10, 12, 32})
  }

  predicate HeaderOk(h: Header) {
    && h.minor in {48, 49} && |h.digits| == 3 && (forall i :: 0 <= i < 3 ==> 48 <= h.digits[i] <= 57)
    && 13 !in h.reason && forall i :: 0 <= i < |h.lines| ==> LineOk(h.lines[i])
  }

  function PrintLine(l: Line): seq<Byte> { l.name + [58] + l.before + l.value + l.after }

  function PrintLines(ls: seq<Line>): seq<Byte> {
    if ls == [] then [] else PrintLine(ls[0]) + [13, 10] + PrintLines(ls[1..])
  }

  function StatusLine(h: Header): seq<Byte> {
    [72, 84, 84, 80, 47, 49, 46, h.minor, 32] + h.digits + h.reason
  }

  function Print(h: Header): seq<Byte> {
    StatusLine(h) + [13, 10] + (PrintLines(h.lines) + [13, 10])
  }

  // ---- What the lines mean --------------------------------------------------------------

  /** Names and words in small letters. */
  const CONTENT_LENGTH: seq<Byte> := [99, 111, 110, 116, 101, 110, 116, 45, 108, 101, 110, 103, 116, 104]
  const TRANSFER_ENCODING: seq<Byte> :=
    [116, 114, 97, 110, 115, 102, 101, 114, 45, 101, 110, 99, 111, 100, 105, 110, 103]
  const CONTENT_ENCODING: seq<Byte> :=
    [99, 111, 110, 116, 101, 110, 116, 45, 101, 110, 99, 111, 100, 105, 110, 103]
  const LOCATION: seq<Byte> := [108, 111, 99, 97, 116, 105, 111, 110]
  const CONTENT_TYPE: seq<Byte> := [99, 111, 110, 116, 101, 110, 116, 45, 116, 121, 112, 101]
  const CHUNKED: seq<Byte> := [99, 104, 117, 110, 107, 101, 100]
  const IDENTITY: seq<Byte> := [105, 100, 101, 110, 116, 105, 116, 121]

  /** The same text, small and capital letters apart. */
  predicate Spells(s: seq<Byte>, word: seq<Byte>) {
    |s| == |word| && forall i :: 0 <= i < |s| ==> s[i] == word[i] || (65 <= s[i] <= 90 && s[i] + 32 == word[i])
  }

  predicate Named(l: Line, word: seq<Byte>) { Spells(l.name, word) }

  predicate Decimal(v: seq<Byte>) { v != [] && forall i :: 0 <= i < |v| ==> IsDigit(v[i]) }

  function UpToSemicolon(v: seq<Byte>): seq<Byte> { v[..Find(v, 59)] }

  /** A line that is acceptable by itself. */
  predicate Sound(l: Line) {
    && |l.name| < 64 && |l.value| < 512
    && (Named(l, CONTENT_LENGTH) ==> Decimal(l.value) && Value(l.value) < 131072)
    && (Named(l, TRANSFER_ENCODING) ==> Spells(l.value, CHUNKED))
    && (Named(l, CONTENT_ENCODING) ==> Spells(l.value, IDENTITY))
    && (Named(l, CONTENT_TYPE) ==> |UpToSemicolon(l.value)| < 80)
  }

  predicate NoneNamed(ls: seq<Line>, word: seq<Byte>) {
    forall i :: 0 <= i < |ls| ==> !Named(ls[i], word)
  }

  /** Every line is acceptable, and neither the length nor the transfer coding is given twice. */
  predicate Accepted(ls: seq<Line>)
  {
    ls == [] ||
    var m := |ls| - 1;
    && Accepted(ls[..m]) && Sound(ls[m])
    && (Named(ls[m], CONTENT_LENGTH) ==> NoneNamed(ls[..m], CONTENT_LENGTH))
    && (Named(ls[m], TRANSFER_ENCODING) ==> NoneNamed(ls[..m], TRANSFER_ENCODING))
  }

  /** The value of the last line with that name. */
  function LastValue(ls: seq<Line>, word: seq<Byte>): Option<seq<Byte>> {
    if ls == [] then None
    else if Named(ls[|ls| - 1], word) then Some(ls[|ls| - 1].value) else LastValue(ls[..|ls| - 1], word)
  }

  lemma {:induction false} LastOfNone(ls: seq<Line>, word: seq<Byte>)
    ensures LastValue(ls, word).None? <==> NoneNamed(ls, word)
  {
    if ls != [] {
      LastOfNone(ls[..|ls| - 1], word);
    }
  }

  /** What the lines say. */
  predicate Says(ls: seq<Line>, f: Fields) {
    && (f.chunked <==> !NoneNamed(ls, TRANSFER_ENCODING))
    && f.location == (match LastValue(ls, LOCATION) case None => [] case Some(v) => v)
    && f.ctype == (match LastValue(ls, CONTENT_TYPE) case None => [] case Some(v) => UpToSemicolon(v))
    && match LastValue(ls, CONTENT_LENGTH)
       case None => f.length == None
       case Some(v) => Decimal(v) && f.length == Some(Value(v))
  }

  // ---- One line -------------------------------------------------------------------------

  lemma SpellsIs(s: seq<Byte>, word: seq<Byte>, text: seq<Byte>)
    requires 0 !in s && 0 !in text && LowerAll(text) == word
    requires forall i :: 0 <= i < |word| ==> !(65 <= word[i] <= 90)
    ensures EqualText(s, text) <==> Spells(s, word)
  {
    NoNul(s);
    NoNul(text);
    if |s| == |word| {
      forall i | 0 <= i < |s|
        ensures LowerAll(s)[i] == word[i] <==> s[i] == word[i] || (65 <= s[i] <= 90 && s[i] + 32 == word[i])
      {
      }
      SameText(LowerAll(s), word);
    }
  }

  lemma SameText(a: seq<Byte>, b: seq<Byte>)
    requires |a| == |b|
    ensures a == b <==> forall i :: 0 <= i < |a| ==> a[i] == b[i]
  {
  }

  lemma LowerIs(text: string, word: seq<Byte>)
    requires |text| == |word|
    requires forall i :: 0 <= i < |text| ==>
               text[i] != '\0' && text[i] < 256 as char && Lower(text[i] as Byte) == word[i]
    ensures LowerAll(Ascii(text)) == word && 0 !in Ascii(text)
  {
  }

  lemma ContentLengthIs()
    ensures LowerAll(Ascii("Content-Length")) == CONTENT_LENGTH && 0 !in Ascii("Content-Length")
  {
    hide LowerAll, Ascii;
    LowerIs("Content-Length", CONTENT_LENGTH);
  }

  lemma TransferEncodingIs()
    ensures LowerAll(Ascii("Transfer-Encoding")) == TRANSFER_ENCODING && 0 !in Ascii("Transfer-Encoding")
  {
    hide LowerAll, Ascii;
    LowerIs("Transfer-Encoding", TRANSFER_ENCODING);
  }

  lemma ContentEncodingIs()
    ensures LowerAll(Ascii("Content-Encoding")) == CONTENT_ENCODING && 0 !in Ascii("Content-Encoding")
  {
    hide LowerAll, Ascii;
    LowerIs("Content-Encoding", CONTENT_ENCODING);
  }

  lemma LocationIs()
    ensures LowerAll(Ascii("Location")) == LOCATION && 0 !in Ascii("Location")
  {
    hide LowerAll, Ascii;
    LowerIs("Location", LOCATION);
  }

  lemma ContentTypeIs()
    ensures LowerAll(Ascii("Content-Type")) == CONTENT_TYPE && 0 !in Ascii("Content-Type")
  {
    hide LowerAll, Ascii;
    LowerIs("Content-Type", CONTENT_TYPE);
  }

  lemma ChunkedIs()
    ensures LowerAll(Ascii("chunked")) == CHUNKED && 0 !in Ascii("chunked")
  {
    hide LowerAll, Ascii;
    LowerIs("chunked", CHUNKED);
  }

  lemma IdentityIs()
    ensures LowerAll(Ascii("identity")) == IDENTITY && 0 !in Ascii("identity")
  {
    hide LowerAll, Ascii;
    LowerIs("identity", IDENTITY);
  }

  /** The words the reader compares with are these. */
  lemma TheWords()
    ensures LowerAll(Ascii("Content-Length")) == CONTENT_LENGTH && 0 !in Ascii("Content-Length")
    ensures LowerAll(Ascii("Transfer-Encoding")) == TRANSFER_ENCODING && 0 !in Ascii("Transfer-Encoding")
    ensures LowerAll(Ascii("Content-Encoding")) == CONTENT_ENCODING && 0 !in Ascii("Content-Encoding")
    ensures LowerAll(Ascii("Location")) == LOCATION && 0 !in Ascii("Location")
    ensures LowerAll(Ascii("Content-Type")) == CONTENT_TYPE && 0 !in Ascii("Content-Type")
    ensures LowerAll(Ascii("chunked")) == CHUNKED && 0 !in Ascii("chunked")
    ensures LowerAll(Ascii("identity")) == IDENTITY && 0 !in Ascii("identity")
  {
    hide LowerAll, Ascii;
    ContentLengthIs();
    TransferEncodingIs();
    ContentEncodingIs();
    LocationIs();
    ContentTypeIs();
    ChunkedIs();
    IdentityIs();
  }

  /** A name or a value is compared as if all letters were small. */
  lemma Compares(s: seq<Byte>)
    requires 0 !in s
    ensures EqualText(s, Ascii("Content-Length")) <==> Spells(s, CONTENT_LENGTH)
    ensures EqualText(s, Ascii("Transfer-Encoding")) <==> Spells(s, TRANSFER_ENCODING)
    ensures EqualText(s, Ascii("Content-Encoding")) <==> Spells(s, CONTENT_ENCODING)
    ensures EqualText(s, Ascii("Location")) <==> Spells(s, LOCATION)
    ensures EqualText(s, Ascii("Content-Type")) <==> Spells(s, CONTENT_TYPE)
    ensures EqualText(s, Ascii("chunked")) <==> Spells(s, CHUNKED)
    ensures EqualText(s, Ascii("identity")) <==> Spells(s, IDENTITY)
  {
    hide EqualText, Ascii, LowerAll, Spells;
    TheWords();
    SpellsIs(s, CONTENT_LENGTH, Ascii("Content-Length"));
    SpellsIs(s, TRANSFER_ENCODING, Ascii("Transfer-Encoding"));
    SpellsIs(s, CONTENT_ENCODING, Ascii("Content-Encoding"));
    SpellsIs(s, LOCATION, Ascii("Location"));
    SpellsIs(s, CONTENT_TYPE, Ascii("Content-Type"));
    SpellsIs(s, CHUNKED, Ascii("chunked"));
    SpellsIs(s, IDENTITY, Ascii("identity"));
  }

  /** Digits read after `len`: the number all of them stand for, if it is below the limit. */
  lemma {:induction false} LengthIsRead(v: seq<Byte>, len: nat)
    requires len < 131072
    ensures ReadLength(v, len) ==
              if (forall i :: 0 <= i < |v| ==> IsDigit(v[i])) && Grown(v, len) < 131072 then Some(Grown(v, len))
              else None
  {
    if v != [] && IsDigit(v[0]) {
      var next := len * 10 + (v[0] - 48);
      GrownIsMore(v[1..], next);
      if next < 131072 {
        LengthIsRead(v[1..], next);
      }
      assert (forall i :: 0 <= i < |v| ==> IsDigit(v[i])) <==> forall i :: 0 <= i < |v[1..]| ==> IsDigit(v[1..][i]);
    }
  }

  /** The number of the digits behind `len`, read one at a time. */
  function Grown(v: seq<Byte>, len: nat): nat {
    if v == [] then len else Grown(v[1..], len * 10 + if IsDigit(v[0]) then v[0] - 48 else 0)
  }

  lemma {:induction false} GrownIsMore(v: seq<Byte>, len: nat)
    ensures Grown(v, len) >= len
  {
    if v != [] {
      GrownIsMore(v[1..], len * 10 + if IsDigit(v[0]) then v[0] - 48 else 0);
    }
  }

  lemma {:induction false} GrownIsValue(v: seq<Byte>, len: nat)
    requires forall i :: 0 <= i < |v| ==> IsDigit(v[i])
    ensures v != [] ==> Grown(v, len) == 10 * Grown(v[..|v| - 1], len) + (v[|v| - 1] as int - 48)
    ensures len == 0 ==> Grown(v, 0) == Value(v)
    decreases |v|
  {
    if v != [] {
      var m := |v| - 1;
      if |v| > 1 {
        GrownIsValue(v[1..], len * 10 + (v[0] - 48));
        assert v[1..][..m - 1] == v[..m][1..];
      }
      if len == 0 {
        GrownIsValue(v[..m], 0);
      }
    }
  }

  lemma {:induction false} LeftTrimmed(blanks: seq<Byte>, rest: seq<Byte>)
    requires Blanks(blanks) && (rest != [] ==> !IsSpace(rest[0]))
    ensures TrimLeft(blanks + rest) == rest
  {
    if blanks == [] {
      assert blanks + rest == rest;
    } else {
      assert (blanks + rest)[1..] == blanks[1..] + rest;
      LeftTrimmed(blanks[1..], rest);
    }
  }

  lemma {:induction false} RightTrimmed(rest: seq<Byte>, blanks: seq<Byte>)
    requires Blanks(blanks) && (rest != [] ==> !IsSpace(rest[|rest| - 1]))
    ensures TrimRight(rest + blanks) == rest
  {
    if blanks == [] {
      assert rest + blanks == rest;
    } else {
      var m := |blanks| - 1;
      assert (rest + blanks)[..|rest + blanks| - 1] == rest + blanks[..m];
      RightTrimmed(rest, blanks[..m]);
    }
  }

  lemma AllBlank(a: seq<Byte>, b: seq<Byte>)
    requires Blanks(a) && Blanks(b)
    ensures TrimRight(TrimLeft(a + b)) == []
  {
    forall i | 0 <= i < |a + b| ensures (a + b)[i] in {9, 10, 12, 32} {
      assert (a + b)[i] == if i < |a| then a[i] else b[i - |a|];
    }
    LeftTrimmed(a + b, []);
    assert a + b + [] == a + b;
  }

  lemma ValueIsTrimmed(l: Line)
    requires LineOk(l)
    ensures TrimRight(TrimLeft(l.before + l.value + l.after)) == l.value
  {
    if l.value == [] {
      assert l.before + l.value + l.after == l.before + l.after;
      AllBlank(l.before, l.after);
    } else {
      assert l.before + l.value + l.after == l.before + (l.value + l.after);
      LeftTrimmed(l.before, l.value + l.after);
      RightTrimmed(l.value, l.after);
    }
  }

  lemma {:induction false} FindIs(a: seq<Byte>, c: Byte, b: seq<Byte>)
    requires c !in a
    ensures Find(a + [c] + b, c) == |a|
  {
    if a != [] {
      assert (a + [c] + b)[1..] == a[1..] + [c] + b;
      FindIs(a[1..], c, b);
    }
  }

  /** A line is read as its name and its value without the blanks. */
  lemma LineIsRead(l: Line, f: Fields)
    requires LineOk(l)
    ensures ReadField(PrintLine(l), f) ==
              if |l.name| >= 64 || |l.value| >= 512 then Parsed(false, f) else UseField(l.name, l.value, f)
  {
    hide UseField;
    var line, n := PrintLine(l), |l.name|;
    var rest := l.before + l.value + l.after;
    assert line == l.name + [58] + rest;
    FindIs(l.name, 58, rest);
    assert line[..n] == l.name && line[n + 1..] == rest;
    ValueIsTrimmed(l);
    NoNul(l.value);
  }

  // ---- All lines ------------------------------------------------------------------------

  lemma OneMore(ls: seq<Line>, l: Line)
    ensures var m := ls + [l]; m[..|m| - 1] == ls && m[|m| - 1] == l
  {
  }

  /** A line further: the message stays acceptable if and only if the line is, and then the fields say
      what all lines so far say. */
  lemma LineMeans(ls: seq<Line>, f: Fields, l: Line)
    requires LineOk(l) && Accepted(ls) && Says(ls, f)
    ensures var p := ReadField(PrintLine(l), f);
            (p.ok <==> Accepted(ls + [l])) && (p.ok ==> Says(ls + [l], p.f))
  {
    hide EqualText, Ascii, UseField, ReadField, ReadLength, LineOk;
    OneMore(ls, l);
    LineIsRead(l, f);
    LastOfNone(ls, CONTENT_LENGTH);
    LastOfNone(ls + [l], CONTENT_LENGTH);
    LastOfNone(ls, TRANSFER_ENCODING);
    LastOfNone(ls + [l], TRANSFER_ENCODING);
    if |l.name| < 64 && |l.value| < 512 {
      FieldIsUsed(l, f);
    }
  }

  /** What one line does to the fields. */
  lemma FieldIsUsed(l: Line, f: Fields)
    requires LineOk(l)
    ensures var p := UseField(l.name, l.value, f);
            if Named(l, CONTENT_LENGTH) then
              && (p.ok <==> f.length.None? && Decimal(l.value) && Value(l.value) < 131072)
              && (p.ok ==> p.f == f.(length := Some(Value(l.value))))
            else if Named(l, TRANSFER_ENCODING) then
              (p.ok <==> !f.chunked && Spells(l.value, CHUNKED)) && p.f == f.(chunked := true)
            else if Named(l, CONTENT_ENCODING) then (p.ok <==> Spells(l.value, IDENTITY)) && p.f == f
            else if Named(l, LOCATION) then p.ok && p.f == f.(location := l.value)
            else if Named(l, CONTENT_TYPE) then
              && (p.ok <==> |UpToSemicolon(l.value)| < 80)
              && (p.ok ==> p.f == f.(ctype := UpToSemicolon(l.value)))
            else p.ok && p.f == f
    ensures Named(l, CONTENT_LENGTH) ==> !Named(l, TRANSFER_ENCODING)
    ensures Named(l, CONTENT_LENGTH) || Named(l, TRANSFER_ENCODING) ==> !Named(l, CONTENT_ENCODING)
    ensures Named(l, CONTENT_LENGTH) || Named(l, TRANSFER_ENCODING) || Named(l, CONTENT_ENCODING) ==>
              !Named(l, LOCATION) && !Named(l, CONTENT_TYPE)
    ensures !(Named(l, LOCATION) && Named(l, CONTENT_TYPE))
  {
    hide EqualText, Ascii, ReadLength;
    Compares(l.name);
    Compares(l.value);
    LengthIsRead(l.value, 0);
    if forall i :: 0 <= i < |l.value| ==> IsDigit(l.value[i]) {
      GrownIsValue(l.value, 0);
    }
  }

  lemma {:induction false} AcceptedPrefix(ls: seq<Line>, k: nat)
    requires k <= |ls| && Accepted(ls)
    ensures Accepted(ls[..k])
  {
    if k == |ls| {
      assert ls[..k] == ls;
    } else {
      AcceptedPrefix(ls[..|ls| - 1], k);
      assert ls[..|ls| - 1][..k] == ls[..k];
    }
  }

  /** The lines from number `i` on, read after those before it. */
  lemma {:induction false} LinesAreRead(ls: seq<Line>, i: nat, f: Fields)
    requires i <= |ls| && (forall k :: 0 <= k < |ls| ==> LineOk(ls[k])) && Accepted(ls[..i]) && Says(ls[..i], f)
    ensures var r := ReadFields(PrintLines(ls[i..]) + [13, 10], f);
            (r.ok <==> Accepted(ls)) && (r.ok ==> Says(ls, r.f))
    decreases |ls| - i
  {
    hide Accepted, Says, ReadField, LineOk, PrintLine;
    if i == |ls| {
      assert ls[..i] == ls && ls[i..] == [];
    } else {
      var l := ls[i];
      var rest := PrintLines(ls[i + 1..]) + [13, 10];
      var s := PrintLines(ls[i..]) + [13, 10];
      assert ls[i..][1..] == ls[i + 1..];
      assert s == PrintLine(l) + ([13, 10] + rest);
      NoReturnInLine(l);
      NextCrlfIs(PrintLine(l), rest);
      assert s[..|PrintLine(l)|] == PrintLine(l) && s[|PrintLine(l)| + 2..] == rest;
      LineMeans(ls[..i], f, l);
      assert ls[..i] + [l] == ls[..i + 1];
      var p := ReadField(PrintLine(l), f);
      if p.ok {
        LinesAreRead(ls, i + 1, p.f);
      } else if Accepted(ls) {
        AcceptedPrefix(ls, i + 1);
      }
    }
  }

  lemma NoReturnInLine(l: Line)
    requires LineOk(l)
    ensures 13 !in PrintLine(l) && PrintLine(l) != [] && PrintLine(l)[0] != 13
  {
  }

  // ---- The end of the header ------------------------------------------------------------

  /** The header ends with the first empty line. */
  lemma {:induction false} HeaderEndIsFirst(b: seq<Byte>)
    ensures var e := HeaderEnd(b);
            && (e != 0 ==> 4 <= e <= |b| && b[e - 4..e] == [13, 10, 13, 10])
            && forall i :: 0 <= i && (e == 0 || i < e - 4) ==> !EmptyLineAt(b, i)
  {
    if |b| >= 4 && !AtBlankLine(b) {
      HeaderEndIsFirst(b[1..]);
      var e := HeaderEnd(b[1..]);
      if e != 0 {
        assert b[1..][e - 4..e] == b[e - 3..e + 1];
      }
      StartsEmpty(b);
      hide EmptyLineAt;
      forall i | 0 <= i && (e == 0 || i < e - 3) ensures !EmptyLineAt(b, i) {
        if i > 0 {
          LaterLine(b, i);
        }
      }
    } else if |b| >= 4 {
      assert b[..4] == [13, 10, 13, 10];
    }
  }

  /** The four bytes of an empty line stand there. */
  predicate EmptyLineAt(b: seq<Byte>, i: nat) {
    i + 4 <= |b| && b[i] == 13 && b[i + 1] == 10 && b[i + 2] == 13 && b[i + 3] == 10
  }

  lemma StartsEmpty(b: seq<Byte>)
    requires |b| >= 4
    ensures EmptyLineAt(b, 0) <==> AtBlankLine(b)
  {
  }

  lemma LaterLine(b: seq<Byte>, i: nat)
    requires b != [] && i > 0
    ensures EmptyLineAt(b, i) <==> EmptyLineAt(b[1..], i - 1)
  {
  }

  lemma {:induction false} SkipsText(a: seq<Byte>, rest: seq<Byte>)
    requires 13 !in a && |rest| >= 4
    ensures HeaderEnd(a + rest) == if HeaderEnd(rest) == 0 then 0 else |a| + HeaderEnd(rest)
  {
    if a == [] {
      assert a + rest == rest;
    } else {
      assert (a + rest)[1..] == a[1..] + rest && (a + rest)[0] == a[0];
      SkipsText(a[1..], rest);
    }
  }

  lemma SkipsLine(a: seq<Byte>, rest: seq<Byte>)
    requires 13 !in a && |rest| >= 2 && rest[0] != 13 && HeaderEnd(rest) != 0
    ensures HeaderEnd(a + ([13, 10] + rest)) == |a| + 2 + HeaderEnd(rest)
  {
    var s := [13, 10] + rest;
    SkipsText(a, s);
    assert s[1..] == [10] + rest;
    SkipsText([10], rest);
    assert !AtBlankLine(s);
  }

  /** Behind a line without CR come the other lines, and the empty line is the first one. */
  lemma {:induction false} HeaderEndIs(a: seq<Byte>, ls: seq<Line>, body: seq<Byte>)
    requires 13 !in a && forall k :: 0 <= k < |ls| ==> LineOk(ls[k])
    ensures var tail := PrintLines(ls) + [13, 10];
            HeaderEnd(a + ([13, 10] + (tail + body))) == |a| + 2 + |tail|
    decreases |ls|
  {
    hide LineOk, PrintLine;
    var tail := PrintLines(ls) + [13, 10];
    if ls == [] {
      var s := [13, 10] + (tail + body);
      assert tail == [13, 10] && s[..4] == [13, 10, 13, 10] && AtBlankLine(s);
      SkipsText(a, s);
    } else {
      NoReturnInLine(ls[0]);
      var tail' := PrintLines(ls[1..]) + [13, 10];
      HeaderEndIs(PrintLine(ls[0]), ls[1..], body);
      assert tail + body == PrintLine(ls[0]) + ([13, 10] + (tail' + body));
      SkipsLine(a, tail + body);
    }
  }

  // ---- The message ----------------------------------------------------------------------

  function StatusOf(h: Header): nat
    requires HeaderOk(h)
  {
    100 * (h.digits[0] as int - 48) + 10 * (h.digits[1] as int - 48) + (h.digits[2] as int - 48)
  }

  lemma StatusIsRead(h: Header)
    requires HeaderOk(h)
    ensures Status(h.digits, 0) == StatusOf(h)
  {
    var d := h.digits;
    assert d[1..][1..] == d[2..] && d[2..][1..] == [];
    assert Status(d[2..], 10 * (d[0] as int - 48) + (d[1] as int - 48)) == StatusOf(h) by {
      assert Status(d[2..][1..], StatusOf(h)) == StatusOf(h);
    }
    assert Status(d[1..], d[0] as int - 48) == StatusOf(h);
  }

  lemma HeaderIsFound(h: Header, body: seq<Byte>)
    requires HeaderOk(h)
    ensures HeaderEnd(Print(h) + body) == |Print(h)|
    ensures HeaderFields(Print(h)).ok <==> Accepted(h.lines)
    ensures HeaderFields(Print(h)).ok ==> Says(h.lines, HeaderFields(Print(h)).f)
  {
    hide LineOk, ReadFields, Accepted, Says;
    var first, tail := StatusLine(h), PrintLines(h.lines) + [13, 10];
    assert 13 !in first;
    assert Print(h) + body == first + ([13, 10] + (tail + body));
    HeaderEndIs(first, h.lines, body);
    assert Print(h) == first + ([13, 10] + tail);
    NextCrlfIs(first, tail);
    assert Print(h)[|first| + 2..] == tail;
    assert h.lines[0..] == h.lines && h.lines[..0] == [];
    NothingSaid();
    LinesAreRead(h.lines, 0, NO_FIELDS);
  }

  lemma NothingSaid()
    ensures Accepted([]) && Says([], NO_FIELDS)
  {
  }

  /** The verdict on a printed header and the bytes behind it, whatever lines there are: refused iff the
      lines are not acceptable; else with the status, location and type they give, and complete iff the
      body is there: the bytes that were announced, or the chunks, or none for 204 and 304, or all that
      came before the end of the connection. */
  lemma Responds(h: Header, body: seq<Byte>, eof: bool)
    requires HeaderOk(h) && |Print(h)| <= 8192
    ensures var r, n := Respond(Print(h) + body, eof), LastValue(h.lines, CONTENT_LENGTH);
            && r.status == StatusOf(h) && (r.verdict != Complete ==> r.length == 0)
            && if !Accepted(h.lines) then r.verdict == Refused && r.body == 0
               else
                 && r.body == |Print(h)|
                 && r.location == (match LastValue(h.lines, LOCATION) case None => [] case Some(v) => v)
                 && r.ctype == (match LastValue(h.lines, CONTENT_TYPE) case None => [] case Some(v) => UpToSemicolon(v))
                 && if !NoneNamed(h.lines, TRANSFER_ENCODING) then
                      if n.Some? then r.verdict == Refused
                      else r.verdict == Chunks(body, eof).0 && r.length == Chunks(body, eof).1
                    else if n.Some? then
                      && Decimal(n.value)
                      && (r.verdict == Complete <==> |body| >= Value(n.value))
                      && (r.verdict == Refused <==> |body| < Value(n.value) && eof)
                      && r.length == if r.verdict == Complete then Value(n.value) else 0
                    else if StatusOf(h) == 204 || StatusOf(h) == 304 then r.verdict == Complete && r.length == 0
                    else if eof then r.verdict == Complete && r.length == |body|
                    else r.verdict == Incomplete && r.length == 0
  {
    hide Print, StatusLine, Accepted, LastValue, NoneNamed, HeaderEnd, HeaderFields, Status;
    var b := Print(h) + body;
    HeaderIsFound(h, body);
    StatusIsRead(h);
    StartIs(h, body);
    assert b[..|Print(h)|] == Print(h) && b[|Print(h)|..] == body;
    LastOfNone(h.lines, CONTENT_LENGTH);
  }

  lemma StartIs(h: Header, body: seq<Byte>)
    requires HeaderOk(h)
    ensures var b := Print(h) + body; GoodVersion(b) && b[9..12] == h.digits
                                        && IsDigit(b[9]) && IsDigit(b[10]) && IsDigit(b[11]) && Print(h) != []
  {
    var b := Print(h) + body;
    assert b[..9] == [72, 84, 84, 80, 47, 49, 46, h.minor, 32];
    assert Ascii("HTTP/1.") == [72, 84, 84, 80, 47, 49, 46];
    assert b[..7] == b[..9][..7];
    assert b[9..12] == h.digits;
    assert b[9] == h.digits[0] && b[10] == h.digits[1] && b[11] == h.digits[2];
  }

  /** The verdict on a chunked body, and its length. */
  function Chunks(body: seq<Byte>, eof: bool): (Verdict, nat) {
    match ReadBody(body, 0)
    case More => (if eof then Refused else Incomplete, 0)
    case Bad => (Refused, 0)
    case Got(payload, _) => (Complete, |payload|)
  }

  /** What is refused whatever the lines are: a header that is too long, one that does not begin with
      `HTTP/1.0 ` or `HTTP/1.1 ` and three digits, and one without its end when no more bytes come, or
      more than 8192 have. */
  lemma RefusedAtOnce(b: seq<Byte>, eof: bool)
    ensures HeaderEnd(b) == 0 ==> Respond(b, eof).verdict == if eof || |b| > 8192 then Refused else Incomplete
    ensures HeaderEnd(b) > 8192 ==> Respond(b, eof).verdict == Refused
    ensures HeaderEnd(b) > 0 && !(|b| >= 12 && b[..7] == [72, 84, 84, 80, 47, 49, 46] && b[7] in {48, 49} && b[8] == 32
                                  && IsDigit(b[9]) && IsDigit(b[10]) && IsDigit(b[11])) ==>
              Respond(b, eof).verdict == Refused && Respond(b, eof).body == Respond(b, eof).length == 0
    ensures HeaderEnd(b) == 0 || HeaderEnd(b) > 8192 ==>
              Respond(b, eof) == Response(Respond(b, eof).verdict, 0, 0, 0, [], [])
  {
    hide HeaderEnd, HeaderFields, Body;
    assert Ascii("HTTP/1.") == [72, 84, 84, 80, 47, 49, 46];
  }
}
