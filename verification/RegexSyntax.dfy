/** The pattern language of the editor: its concrete syntax as trees, how a tree prints and what it
    means, and the compiler, which accepts exactly the printed trees and yields their meaning. */
module RegexSyntax {
  import opened Bytes
  import opened Common
  import opened Regex

  const RX_MAX: nat := 48

  /** A byte of the pattern, perhaps behind a backslash. */
  datatype Elem = Elem(escaped: bool, c: Byte)

  datatype Span = Single(e: Elem) | Range(lo: Elem, hi: Elem)

  datatype Base = Lit(e: Elem) | Dot | Class(negate: bool, spans: seq<Span>)

  datatype Item = Item(base: Base, quant: Quant)

  datatype Pattern = Pattern(bol: bool, items: seq<Item>, eol: bool)

  const BACKSLASH: Byte := 92
  const OPEN: Byte := 91
  const CLOSE: Byte := 93
  const CARET: Byte := 94
  const DASH: Byte := 45
  const DOT: Byte := 46
  const DOLLAR: Byte := 36
  const QUESTION: Byte := 63
  const STAR: Byte := 42
  const PLUS: Byte := 43

  /** Bytes that stand for themselves nowhere: ( ) | { } * + ? ^ $ */
  predicate Refused(c: Byte) {
    || c == 40 || c == 41 || c == 124 || c == 123 || c == 125
    || c == STAR || c == PLUS || c == QUESTION || c == CARET || c == DOLLAR
  }

  // ---- Printing and meaning -------------------------------------------------------------

  function PrintElem(e: Elem): seq<Byte> {
    if e.escaped then [BACKSLASH, e.c] else [e.c]
  }

  function PrintSpan(s: Span): seq<Byte> {
    match s
    case Single(e) => PrintElem(e)
    case Range(lo, hi) => PrintElem(lo) + [DASH] + PrintElem(hi)
  }

  function PrintSpans(s: seq<Span>): seq<Byte> {
    if s == [] then [] else PrintSpan(s[0]) + PrintSpans(s[1..])
  }

  function PrintBase(b: Base): seq<Byte> {
    match b
    case Lit(e) => PrintElem(e)
    case Dot => [DOT]
    case Class(negate, spans) => [OPEN] + (if negate then [CARET] else []) + PrintSpans(spans) + [CLOSE]
  }

  function PrintQuant(q: Quant): seq<Byte> {
    match q
    case One => []
    case Opt => [QUESTION]
    case Star => [STAR]
    case Plus => [PLUS]
  }

  function PrintItem(i: Item): seq<Byte> {
    PrintBase(i.base) + PrintQuant(i.quant)
  }

  function PrintItems(items: seq<Item>): seq<Byte> {
    if items == [] then [] else PrintItem(items[0]) + PrintItems(items[1..])
  }

  function Print(p: Pattern): seq<Byte> {
    (if p.bol then [CARET] else []) + PrintItems(p.items) + (if p.eol then [DOLLAR] else [])
  }

  function SpanBits(s: Span): set<Byte> {
    match s
    case Single(e) => {e.c}
    case Range(lo, hi) => set k: Byte | Within(k, lo.c, hi.c)
  }

  predicate Within(k: Byte, lo: Byte, hi: Byte) {
    lo <= k <= hi
  }

  function Complement(bits: set<Byte>): set<Byte> {
    set k: Byte | k !in bits
  }

  function SpansBits(s: seq<Span>): set<Byte> {
    if s == [] then {} else SpanBits(s[0]) + SpansBits(s[1..])
  }

  function BaseBits(b: Base): set<Byte> {
    match b
    case Lit(e) => {e.c}
    case Dot => Complement({NEWLINE})
    case Class(negate, spans) => if negate then Complement(SpansBits(spans)) else SpansBits(spans)
  }

  function Meaning(items: seq<Item>): seq<Atom> {
    if items == [] then [] else [Atom(BaseBits(items[0].base), items[0].quant)] + Meaning(items[1..])
  }

  function Denote(p: Pattern): Regex {
    Regex(Meaning(p.items), p.bol, p.eol)
  }

  // ---- Which trees the language has -----------------------------------------------------

  predicate PlainElem(e: Elem) {
    e.c != 0 && (!e.escaped ==> e.c != BACKSLASH)
  }

  predicate GoodSpan(s: Span) {
    match s
    case Single(e) => PlainElem(e) && e != Elem(false, CLOSE)
    case Range(lo, hi) => PlainElem(lo) && PlainElem(hi) && lo.c <= hi.c
                          && lo != Elem(false, CLOSE) && hi != Elem(false, CLOSE)
  }

  /** After a single byte a bare dash would make a range, unless the class ends right behind it. */
  predicate GoodSpans(s: seq<Span>) {
    s == [] || (GoodSpan(s[0]) && GoodSpans(s[1..])
                && (s[0].Single? && |s| > 1 && PrintSpan(s[1])[0] == DASH ==>
                    |s| == 2 && s[1] == Single(Elem(false, DASH))))
  }

  predicate GoodBase(b: Base) {
    match b
    case Lit(e) => PlainElem(e) && (!e.escaped ==> !Refused(e.c) && e.c != OPEN && e.c != DOT)
    case Dot => true
    case Class(negate, spans) => spans != [] && GoodSpans(spans) && (!negate ==> PrintSpan(spans[0])[0] != CARET)
  }

  predicate Good(p: Pattern) {
    |p.items| <= RX_MAX && forall i :: 0 <= i < |p.items| ==> GoodBase(p.items[i].base)
  }

  // ---- Reading a pattern ----------------------------------------------------------------

  function ReadElem(p: seq<Byte>): Option<(Elem, seq<Byte>)> {
    if p == [] then None
    else if p[0] != BACKSLASH then Some((Elem(false, p[0]), p[1..]))
    else if |p| == 1 then None
    else Some((Elem(true, p[1]), p[2..]))
  }

  function ReadSpan(p: seq<Byte>): Option<(Span, seq<Byte>)> {
    match ReadElem(p)
    case None => None
    case Some((lo, rest)) =>
      if |rest| > 1 && rest[0] == DASH && rest[1] != CLOSE then
        match ReadElem(rest[1..])
        case None => None
        case Some((hi, rest')) => if hi.c < lo.c then None else Some((Range(lo, hi), rest'))
      else Some((Single(lo), rest))
  }

  lemma ReadSpanShrinks(p: seq<Byte>)
    requires ReadSpan(p).Some?
    ensures |ReadSpan(p).value.1| < |p|
  {
  }

  /** The spans up to the closing bracket, and the text behind it. */
  function ReadSpans(p: seq<Byte>): Option<(seq<Span>, seq<Byte>)>
    decreases |p|
  {
    if p == [] then None
    else if p[0] == CLOSE then Some(([], p[1..]))
    else
      match ReadSpan(p)
      case None => None
      case Some((s, rest)) =>
        ReadSpanShrinks(p);
        match ReadSpans(rest)
        case None => None
        case Some((ss, rest')) => Some(([s] + ss, rest'))
  }

  function ReadClass(negate: bool, p: seq<Byte>): Option<(Base, seq<Byte>)> {
    match ReadSpans(p)
    case None => None
    case Some((ss, rest)) => if ss == [] then None else Some((Class(negate, ss), rest))
  }

  function ReadBase(p: seq<Byte>): Option<(Base, seq<Byte>)> {
    if p == [] then None
    else if p[0] == OPEN then
      if |p| > 1 && p[1] == CARET then ReadClass(true, p[2..]) else ReadClass(false, p[1..])
    else if p[0] == DOT then Some((Dot, p[1..]))
    else if p[0] != BACKSLASH && Refused(p[0]) then None
    else match ReadElem(p)
         case None => None
         case Some((e, rest)) => Some((Lit(e), rest))
  }

  function ReadQuant(p: seq<Byte>): (Quant, seq<Byte>) {
    if p == [] then (One, p)
    else if p[0] == QUESTION then (Opt, p[1..])
    else if p[0] == STAR then (Star, p[1..])
    else if p[0] == PLUS then (Plus, p[1..])
    else (One, p)
  }

  lemma {:induction false} ReadSpansShrinks(p: seq<Byte>)
    requires ReadSpans(p).Some?
    ensures |ReadSpans(p).value.1| < |p|
    decreases |p|
  {
    if p[0] != CLOSE {
      ReadSpanShrinks(p);
      ReadSpansShrinks(ReadSpan(p).value.1);
    }
  }

  function ReadItem(p: seq<Byte>): Option<(Item, seq<Byte>)> {
    match ReadBase(p)
    case None => None
    case Some((b, rest)) => var (q, rest') := ReadQuant(rest); Some((Item(b, q), rest'))
  }

  lemma ReadItemShrinks(p: seq<Byte>)
    requires ReadItem(p).Some?
    ensures |ReadItem(p).value.1| < |p|
  {
    if p[0] == OPEN {
      ReadSpansShrinks(if |p| > 1 && p[1] == CARET then p[2..] else p[1..]);
    }
  }

  /** The items of the rest of a pattern, at most `room` of them, and whether it ends in `$`. */
  function ReadItems(p: seq<Byte>, room: nat): Option<(seq<Item>, bool)>
    decreases |p|
  {
    if p == [] then Some(([], false))
    else if p == [DOLLAR] then Some(([], true))
    else if room == 0 then None
    else
      match ReadItem(p)
      case None => None
      case Some((i, rest)) =>
        ReadItemShrinks(p);
        match ReadItems(rest, room - 1)
        case None => None
        case Some((items, eol)) => Some(([i] + items, eol))
  }

  function Read(p: seq<Byte>): Option<Pattern> {
    var bol := p != [] && p[0] == CARET;
    match ReadItems(if bol then p[1..] else p, RX_MAX)
    case None => None
    case Some((items, eol)) => Some(Pattern(bol, items, eol))
  }

  // ---- Reading undoes printing ----------------------------------------------------------

  lemma ReadPrintElem(e: Elem, rest: seq<Byte>)
    requires PlainElem(e)
    ensures ReadElem(PrintElem(e) + rest) == Some((e, rest))
  {
    var p := PrintElem(e) + rest;
    assert p[|PrintElem(e)|..] == rest;
  }

  lemma ReadPrintSpan(s: Span, rest: seq<Byte>)
    requires GoodSpan(s) && |rest| > 0
    requires s.Single? && rest[0] == DASH ==> |rest| == 1 || rest[1] == CLOSE
    ensures ReadSpan(PrintSpan(s) + rest) == Some((s, rest))
    ensures (PrintSpan(s) + rest)[0] != CLOSE
  {
    match s
    case Single(e) =>
      ReadPrintElem(e, rest);
    case Range(lo, hi) =>
      var tail := PrintElem(hi) + rest;
      assert PrintSpan(s) + rest == PrintElem(lo) + ([DASH] + tail);
      ReadPrintElem(lo, [DASH] + tail);
      assert ([DASH] + tail)[1..] == tail;
      ReadPrintElem(hi, rest);
  }

  lemma {:induction false} ReadPrintSpans(s: seq<Span>, rest: seq<Byte>)
    requires GoodSpans(s)
    ensures ReadSpans(PrintSpans(s) + ([CLOSE] + rest)) == Some((s, rest))
  {
    var end := [CLOSE] + rest;
    if s == [] {
      assert PrintSpans(s) + end == end && end[1..] == rest;
    } else {
      var tail := PrintSpans(s[1..]) + end;
      assert PrintSpans(s) + end == PrintSpan(s[0]) + tail;
      if |s| > 1 {
        assert tail[0] == PrintSpan(s[1])[0];
        if s[0].Single? && tail[0] == DASH {
          assert PrintSpans(s[1..]) == PrintSpan(s[1]) + PrintSpans(s[2..]) by { assert s[1..][1..] == s[2..]; }
          assert tail[1] == CLOSE;
        }
      }
      ReadPrintSpan(s[0], tail);
      ReadPrintSpans(s[1..], rest);
      assert [s[0]] + s[1..] == s;
    }
  }

  lemma ReadPrintClass(negate: bool, spans: seq<Span>, rest: seq<Byte>)
    requires GoodBase(Class(negate, spans))
    ensures ReadBase(PrintBase(Class(negate, spans)) + rest) == Some((Class(negate, spans), rest))
  {
    ReadPrintSpans(spans, rest);
    var body := PrintSpans(spans) + ([CLOSE] + rest);
    assert body[0] == PrintSpan(spans[0])[0];
    ClassPrint(negate, spans, rest);
    ClassOpens(negate, body, PrintBase(Class(negate, spans)) + rest);
  }

  lemma ClassPrint(negate: bool, spans: seq<Span>, rest: seq<Byte>)
    ensures PrintBase(Class(negate, spans)) + rest
         == (if negate then [OPEN, CARET] else [OPEN]) + (PrintSpans(spans) + ([CLOSE] + rest))
  {
  }

  lemma ClassOpens(negate: bool, body: seq<Byte>, p: seq<Byte>)
    requires p == (if negate then [OPEN, CARET] else [OPEN]) + body
    requires negate || (body != [] && body[0] != CARET)
    ensures ReadBase(p) == ReadClass(negate, body)
  {
    if negate {
      assert p[2..] == body;
    } else {
      assert p[1..] == body;
    }
  }

  lemma ReadPrintBase(b: Base, rest: seq<Byte>)
    requires GoodBase(b)
    ensures ReadBase(PrintBase(b) + rest) == Some((b, rest))
  {
    var p := PrintBase(b) + rest;
    match b
    case Lit(e) =>
      ReadPrintElem(e, rest);
    case Dot =>
      assert p[1..] == rest;
    case Class(negate, spans) =>
      ReadPrintClass(negate, spans, rest);
  }

  lemma FirstOfBase(b: Base)
    requires GoodBase(b)
    ensures PrintBase(b) != [] && !Refused(PrintBase(b)[0])
  {
  }

  lemma ReadPrintQuant(q: Quant, tail: seq<Byte>)
    requires tail != [] ==> tail[0] == DOLLAR || !Refused(tail[0])
    ensures ReadQuant(PrintQuant(q) + tail) == (q, tail)
  {
    if q == One {
      assert PrintQuant(q) + tail == tail;
    } else {
      assert (PrintQuant(q) + tail)[1..] == tail;
    }
  }

  lemma FirstOfItems(items: seq<Item>, end: seq<Byte>)
    requires forall i :: 0 <= i < |items| ==> GoodBase(items[i].base)
    requires end == [] || end == [DOLLAR]
    ensures var p := PrintItems(items) + end;
            && (p != [] ==> p[0] == DOLLAR || !Refused(p[0]))
            && (items != [] ==> p != [] && !Refused(p[0]))
  {
    if items != [] {
      FirstOfBase(items[0].base);
      assert (PrintItems(items) + end)[0] == PrintBase(items[0].base)[0];
    }
  }

  lemma ReadPrintItem(i: Item, tail: seq<Byte>)
    requires GoodBase(i.base) && (tail != [] ==> tail[0] == DOLLAR || !Refused(tail[0]))
    ensures ReadItem(PrintItem(i) + tail) == Some((i, tail))
  {
    assert PrintItem(i) + tail == PrintBase(i.base) + (PrintQuant(i.quant) + tail);
    ReadPrintBase(i.base, PrintQuant(i.quant) + tail);
    ReadPrintQuant(i.quant, tail);
  }

  lemma {:induction false} ReadPrintItems(items: seq<Item>, end: seq<Byte>, room: nat)
    requires |items| <= room && forall i :: 0 <= i < |items| ==> GoodBase(items[i].base)
    requires end == [] || end == [DOLLAR]
    ensures ReadItems(PrintItems(items) + end, room) == Some((items, end != []))
  {
    hide GoodBase, ReadItem, ReadItems, PrintItem, PrintItems, Refused;
    if items == [] {
      ReadPrintEnd(end, room);
    } else {
      var tail := PrintItems(items[1..]) + end;
      FirstItem(items, end);
      FirstOfItems(items, end);
      FirstOfItems(items[1..], end);
      ReadPrintItem(items[0], tail);
      ReadPrintItems(items[1..], end, room - 1);
      ReadItemsStep(PrintItems(items) + end, items[0], tail, room);
      assert [items[0]] + items[1..] == items;
    }
  }

  lemma ReadPrintEnd(end: seq<Byte>, room: nat)
    requires end == [] || end == [DOLLAR]
    ensures ReadItems(PrintItems([]) + end, room) == Some(([], end != []))
  {
    assert PrintItems([]) + end == end;
  }

  lemma FirstItem(items: seq<Item>, end: seq<Byte>)
    requires items != []
    ensures PrintItems(items) + end == PrintItem(items[0]) + (PrintItems(items[1..]) + end)
  {
  }

  lemma ReadItemsStep(p: seq<Byte>, i: Item, tail: seq<Byte>, room: nat)
    requires room > 0 && p != [] && !Refused(p[0]) && ReadItem(p) == Some((i, tail))
    requires ReadItems(tail, room - 1).Some?
    ensures var (items, eol) := ReadItems(tail, room - 1).value; ReadItems(p, room) == Some(([i] + items, eol))
  {
  }

  /** Every tree of the language is read back from its print. */
  lemma ReadUndoesPrint(t: Pattern)
    requires Good(t)
    ensures Read(Print(t)) == Some(t)
  {
    var end := if t.eol then [DOLLAR] else [];
    hide PrintItems, ReadItems, GoodBase;
    var body := PrintItems(t.items) + end;
    ReadPrintItems(t.items, end, RX_MAX);
    FirstOfItems(t.items, end);
    if t.bol {
      assert Print(t) == [CARET] + body && Print(t)[1..] == body;
    } else {
      assert Print(t) == body;
    }
  }

  // ---- Printing undoes reading ----------------------------------------------------------

  lemma PrintReadElem(p: seq<Byte>)
    requires ReadElem(p).Some? && 0 !in p
    ensures var (e, rest) := ReadElem(p).value; PrintElem(e) + rest == p && PlainElem(e) && 0 !in rest
  {
  }

  lemma PrintReadSpan(p: seq<Byte>)
    requires ReadSpan(p).Some? && 0 !in p && p[0] != CLOSE
    ensures var (s, rest) := ReadSpan(p).value;
            && PrintSpan(s) + rest == p && GoodSpan(s) && 0 !in rest
            && (s.Single? && |rest| > 1 && rest[0] == DASH ==> rest[1] == CLOSE)
  {
    PrintReadElem(p);
    var (lo, rest) := ReadElem(p).value;
    if |rest| > 1 && rest[0] == DASH && rest[1] != CLOSE {
      assert [DASH] + rest[1..] == rest;
      PrintReadElem(rest[1..]);
    }
  }

  lemma {:induction false} PrintReadSpans(p: seq<Byte>)
    requires ReadSpans(p).Some? && 0 !in p
    ensures var (s, rest) := ReadSpans(p).value;
            PrintSpans(s) + ([CLOSE] + rest) == p && GoodSpans(s) && 0 !in rest
    decreases |p|
  {
    if p[0] == CLOSE {
      assert [CLOSE] + p[1..] == p;
    } else {
      PrintReadSpan(p);
      ReadSpanShrinks(p);
      var (s, rest) := ReadSpan(p).value;
      PrintReadSpans(rest);
      var (ss, rest') := ReadSpans(rest).value;
      SpansStep(s, ss, rest, rest');
    }
  }

  lemma PrintFirst(s: Span, ss: seq<Span>)
    ensures PrintSpans([s] + ss) == PrintSpan(s) + PrintSpans(ss)
  {
    assert ([s] + ss)[1..] == ss;
  }

  lemma SpansStep(s: Span, ss: seq<Span>, rest: seq<Byte>, rest': seq<Byte>)
    requires GoodSpan(s) && GoodSpans(ss) && ReadSpans(rest) == Some((ss, rest'))
    requires PrintSpans(ss) + ([CLOSE] + rest') == rest
    requires s.Single? && |rest| > 1 && rest[0] == DASH ==> rest[1] == CLOSE
    ensures GoodSpans([s] + ss) && PrintSpans([s] + ss) + ([CLOSE] + rest') == PrintSpan(s) + rest
  {
    hide GoodSpans, PrintSpans, ReadSpans, PrintSpan, GoodSpan;
    PrintFirst(s, ss);
    assert PrintSpan(s) + PrintSpans(ss) + ([CLOSE] + rest') == PrintSpan(s) + (PrintSpans(ss) + ([CLOSE] + rest'));
    SpansStayGood(s, ss, rest, rest');
  }

  lemma SpansStayGood(s: Span, ss: seq<Span>, rest: seq<Byte>, rest': seq<Byte>)
    requires GoodSpan(s) && GoodSpans(ss) && ReadSpans(rest) == Some((ss, rest'))
    requires PrintSpans(ss) + ([CLOSE] + rest') == rest
    requires s.Single? && |rest| > 1 && rest[0] == DASH ==> rest[1] == CLOSE
    ensures GoodSpans([s] + ss)
  {
    hide ReadSpans;
    assert ([s] + ss)[1..] == ss;
    if s.Single? && |ss| > 0 && PrintSpan(ss[0])[0] == DASH {
      assert rest[0] == DASH;
      DashBeforeClose(rest, ss, rest');
    }
  }

  lemma DashBeforeClose(rest: seq<Byte>, ss: seq<Span>, rest': seq<Byte>)
    requires |rest| > 1 && rest[0] == DASH && rest[1] == CLOSE
    requires ReadSpans(rest) == Some((ss, rest'))
    ensures ss == [Single(Elem(false, DASH))]
  {
    assert ReadSpan(rest) == Some((Single(Elem(false, DASH)), rest[1..]));
    assert ReadSpans(rest[1..]) == Some(([], rest[1..][1..]));
  }

  lemma PrintReadClass(negate: bool, body: seq<Byte>)
    requires ReadClass(negate, body).Some? && 0 !in body
    requires negate || body[0] != CARET
    ensures var (b, rest) := ReadClass(negate, body).value;
            && PrintBase(b) + rest == (if negate then [OPEN, CARET] else [OPEN]) + body
            && GoodBase(b) && 0 !in rest
  {
    PrintReadSpans(body);
    var (ss, rest) := ReadSpans(body).value;
    assert body[0] == PrintSpan(ss[0])[0];
  }

  lemma PrintReadBase(p: seq<Byte>)
    requires ReadBase(p).Some? && 0 !in p
    ensures var (b, rest) := ReadBase(p).value; PrintBase(b) + rest == p && GoodBase(b) && 0 !in rest
  {
    if p[0] == OPEN {
      if |p| > 1 && p[1] == CARET {
        PrintReadClass(true, p[2..]);
      } else {
        PrintReadClass(false, p[1..]);
      }
    } else if p[0] != DOT {
      PrintReadElem(p);
    }
  }

  lemma PrintReadQuant(p: seq<Byte>)
    requires 0 !in p
    ensures var (q, rest) := ReadQuant(p); PrintQuant(q) + rest == p && 0 !in rest
  {
  }

  lemma PrintReadItem(p: seq<Byte>)
    requires ReadItem(p).Some? && 0 !in p
    ensures var (i, rest) := ReadItem(p).value; PrintItem(i) + rest == p && GoodBase(i.base) && 0 !in rest
  {
    PrintReadBase(p);
    PrintReadQuant(ReadBase(p).value.1);
  }

  lemma {:induction false} PrintReadItems(p: seq<Byte>, room: nat)
    requires ReadItems(p, room).Some? && 0 !in p
    ensures var (items, eol) := ReadItems(p, room).value;
            && PrintItems(items) + (if eol then [DOLLAR] else []) == p
            && |items| <= room && forall i :: 0 <= i < |items| ==> GoodBase(items[i].base)
    decreases |p|
  {
    if p != [] && p != [DOLLAR] {
      PrintReadItem(p);
      ReadItemShrinks(p);
      var (i, rest) := ReadItem(p).value;
      PrintReadItems(rest, room - 1);
      var (items, eol) := ReadItems(rest, room - 1).value;
      assert ([i] + items)[1..] == items;
    }
  }

  /** Every pattern the reader accepts is the print of the tree it yields. */
  lemma PrintUndoesRead(p: seq<Byte>)
    requires Read(p).Some? && 0 !in p
    ensures Good(Read(p).value) && Print(Read(p).value) == p
  {
    var bol := p != [] && p[0] == CARET;
    var body := if bol then p[1..] else p;
    PrintReadItems(body, RX_MAX);
    assert p == (if bol then [CARET] else []) + body;
  }

  // ---- The compiler ---------------------------------------------------------------------

  /** What reading the rest of a class adds to the bytes gathered so far. */
  ghost function ClassResult(bits: set<Byte>, have: bool, p: seq<Byte>): Option<(set<Byte>, seq<Byte>)> {
    match ReadSpans(p)
    case None => None
    case Some((ss, rest)) => if ss == [] && !have then None else Some((bits + SpansBits(ss), rest))
  }

  /** What reading the rest of a pattern adds to the atoms compiled so far. */
  ghost function ItemsResult(atoms: seq<Atom>, p: seq<Byte>): Option<(seq<Atom>, bool)> {
    if |atoms| > RX_MAX then None
    else match ReadItems(p, RX_MAX - |atoms|)
         case None => None
         case Some((items, eol)) => Some((atoms + Meaning(items), eol))
  }

  lemma ClassStep(bits: set<Byte>, have: bool, p: seq<Byte>)
    requires p != [] && p[0] != CLOSE
    ensures ClassResult(bits, have, p) == match ReadSpan(p)
                                          case None => None
                                          case Some((s, rest)) => ClassResult(bits + SpanBits(s), true, rest)
  {
    match ReadSpan(p)
    case None =>
    case Some((s, rest)) =>
      ReadSpanShrinks(p);
      match ReadSpans(rest) {
        case None =>
        case Some((ss, _)) =>
          assert ([s] + ss)[1..] == ss;
          assert bits + SpansBits([s] + ss) == (bits + SpanBits(s)) + SpansBits(ss);
      }
  }

  lemma ItemsStep(atoms: seq<Atom>, p: seq<Byte>)
    requires p != [] && p != [DOLLAR] && |atoms| < RX_MAX
    ensures ItemsResult(atoms, p) == match ReadItem(p)
                                     case None => None
                                     case Some((i, rest)) =>
                                       ItemsResult(atoms + [Atom(BaseBits(i.base), i.quant)], rest)
  {
    match ReadItem(p)
    case None =>
    case Some((i, rest)) =>
      ReadItemShrinks(p);
      match ReadItems(rest, RX_MAX - |atoms| - 1) {
        case None =>
        case Some((items, _)) =>
          assert ([i] + items)[1..] == items;
          assert atoms + Meaning([i] + items) == (atoms + [Atom(BaseBits(i.base), i.quant)]) + Meaning(items);
      }
  }

  /** The byte at `at`, or the terminator. */
  function At(p: seq<Byte>, at: nat): Byte {
    if at < |p| then p[at] else 0
  }

  method ReadByte(p: seq<Byte>, at: nat) returns (c: Byte, at': nat, ok: bool)
    requires at < |p| && 0 !in p
    ensures at < at' <= |p|
    ensures ok <==> ReadElem(p[at..]).Some?
    ensures ok ==> ReadElem(p[at..]).value.0.c == c && ReadElem(p[at..]).value.1 == p[at'..]
  {
    c, at', ok := p[at], at + 1, true;
    if c == BACKSLASH {
      if At(p, at') == 0 {
        assert at' == |p|;
        return c, at', false;
      }
      c, at' := p[at'], at' + 1;
    }
  }

  function ByteRange(first: Byte, last: Byte): set<Byte> {
    set k: Byte | Within(k, first, last)
  }

  /** One byte or range of a class. */
  method ReadSpanBits(p: seq<Byte>, start: nat) returns (bits: set<Byte>, at: nat, ok: bool)
    requires start < |p| && 0 !in p
    ensures start < at <= |p|
    ensures ok <==> ReadSpan(p[start..]).Some?
    ensures ok ==> SpanBits(ReadSpan(p[start..]).value.0) == bits && ReadSpan(p[start..]).value.1 == p[at..]
  {
    var first, last;
    bits := {};
    first, at, ok := ReadByte(p, start);
    if !ok {
      return;
    }
    last := first;
    assert ByteRange(first, first) == {first};
    if At(p, at) == DASH && At(p, at + 1) != 0 && At(p, at + 1) != CLOSE {
      assert p[at..][1..] == p[at + 1..];
      last, at, ok := ReadByte(p, at + 1);
      if !ok || last < first {
        return bits, at, false;
      }
    }
    bits := ByteRange(first, last);
  }

  /** The bytes between the brackets: the inner loop of `code_compile`. */
  method ReadClassBits(p: seq<Byte>, start: nat) returns (bits: set<Byte>, at: nat, ok: bool)
    requires start <= |p| && 0 !in p
    ensures start <= at <= |p|
    ensures ClassResult({}, false, p[start..]) == if ok then Some((bits, p[at..])) else None
  {
    bits, at := {}, start;
    var have := false;
    while At(p, at) != 0 && At(p, at) != CLOSE
      invariant start <= at <= |p|
      invariant ClassResult(bits, have, p[at..]) == ClassResult({}, false, p[start..])
      decreases |p| - at
    {
      ClassStep(bits, have, p[at..]);
      var more;
      more, at, ok := ReadSpanBits(p, at);
      if !ok {
        return;
      }
      bits := bits + more;
      have := true;
    }
    if at < |p| {
      assert p[at..][1..] == p[at + 1..];
      assert bits + {} == bits;
    }
    if !have || At(p, at) != CLOSE {
      return bits, at, false;
    }
    at, ok := at + 1, true;
  }

  /** One atom without its quantifier. */
  method ReadAtomBits(p: seq<Byte>, start: nat) returns (bits: set<Byte>, at: nat, ok: bool)
    requires start < |p| && 0 !in p
    ensures start < at <= |p|
    ensures ok <==> ReadBase(p[start..]).Some?
    ensures ok ==> BaseBits(ReadBase(p[start..]).value.0) == bits && ReadBase(p[start..]).value.1 == p[at..]
  {
    bits, at, ok := {}, start + 1, true;
    assert p[start..][1..] == p[start + 1..];
    if p[start] == OPEN {
      var negate := At(p, at) == CARET;
      if negate {
        assert p[start..][2..] == p[start + 2..];
        at := at + 1;
      }
      ClassMeaning(negate, p[at..]);
      bits, at, ok := ReadClassBits(p, at);
      if ok && negate {
        bits := Complement(bits);
      }
    } else if p[start] == DOT {
      bits := Complement({NEWLINE});
    } else if p[start] != BACKSLASH && Refused(p[start]) {
      ok := false;
    } else {
      var c;
      c, at, ok := ReadByte(p, start);
      bits := {c};
    }
  }

  lemma ClassMeaning(negate: bool, p: seq<Byte>)
    ensures match ReadClass(negate, p)
            case None => ClassResult({}, false, p) == None
            case Some((b, rest)) =>
              ClassResult({}, false, p).Some? && ClassResult({}, false, p).value.1 == rest
              && BaseBits(b) == var bits := ClassResult({}, false, p).value.0; if negate then Complement(bits) else bits
  {
    match ReadSpans(p)
    case None =>
    case Some((ss, _)) => assert {} + SpansBits(ss) == SpansBits(ss);
  }

  method ReadQuantAt(p: seq<Byte>, start: nat) returns (q: Quant, at: nat)
    requires start <= |p| && 0 !in p
    ensures start <= at <= |p| && ReadQuant(p[start..]) == (q, p[at..])
  {
    q, at := One, start;
    if at < |p| {
      assert p[at..][1..] == p[at + 1..];
    }
    if At(p, at) == QUESTION {
      q, at := Opt, at + 1;
    } else if At(p, at) == STAR {
      q, at := Star, at + 1;
    } else if At(p, at) == PLUS {
      q, at := Plus, at + 1;
    }
  }

  lemma WholePattern(p: seq<Byte>, bol: bool, body: seq<Byte>)
    requires bol == (p != [] && p[0] == CARET) && body == if bol then p[1..] else p
    ensures match ItemsResult([], body)
            case None => Read(p) == None
            case Some((atoms, eol)) => Read(p).Some? && Denote(Read(p).value) == Regex(atoms, bol, eol)
  {
    match ReadItems(body, RX_MAX)
    case None =>
    case Some((items, _)) => assert [] + Meaning(items) == Meaning(items);
  }

  /** `code_compile`. */
  method CodeCompile(p: seq<Byte>) returns (r: Option<Regex>)
    requires 0 !in p
    ensures r == match Read(p) case None => None case Some(t) => Some(Denote(t))
  {
    var atoms, bol, eol, at := [], false, false, 0;
    if At(p, 0) == CARET {
      bol, at := true, 1;
    }
    ghost var body := p[at..];
    WholePattern(p, bol, body);
    while At(p, at) != 0
      invariant at <= |p|
      invariant |atoms| <= RX_MAX
      invariant ItemsResult(atoms, p[at..]) == ItemsResult([], body)
      invariant !eol
      decreases |p| - at
    {
      if At(p, at) == DOLLAR && At(p, at + 1) == 0 {
        assert p[at..] == [DOLLAR];
        eol := true;
        break;
      }
      assert p[at..] != [DOLLAR];
      if |atoms| == RX_MAX {
        return None;
      }
      ItemsStep(atoms, p[at..]);
      var bits, ok;
      bits, at, ok := ReadAtomBits(p, at);
      if !ok {
        return None;
      }
      var quant;
      quant, at := ReadQuantAt(p, at);
      atoms := atoms + [Atom(bits, quant)];
    }
    assert atoms + [] == atoms;
    r := Some(Regex(atoms, bol, eol));
  }

  /** The compiler accepts exactly the patterns of the language, and gives each its meaning. */
  lemma CompiledLanguage(p: seq<Byte>, t: Pattern)
    requires 0 !in p
    ensures Read(p) == Some(t) <==> Good(t) && Print(t) == p
  {
    if Read(p) == Some(t) {
      PrintUndoesRead(p);
    }
    if Good(t) && Print(t) == p {
      ReadUndoesPrint(t);
    }
  }
}
