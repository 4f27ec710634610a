/** What patterns find, said of the bytes that are typed and the text that is searched: each construct
    of the pattern language on any text, and replace-all of one byte. */
module PatternLaws {
  import opened Bytes
  import opened Common
  import opened Editor
  import opened EditorReplace
  import opened Regex
  import Rx = Regex
  import opened RegexSyntax

  // ---- Patterns of one atom -------------------------------------------------------------

  /** The answer is the first position from `from` on that `hit` holds of, with one byte matched. */
  ghost predicate FirstAt(s: seq<Byte>, from: nat, r: FindResult, hit: nat -> bool) {
    && r.Searched?
    && match r.f
       case NoMatch => forall a :: from <= a < |s| ==> !hit(a)
       case Match(a, b) => from <= a < |s| && b == a + 1 && hit(a) && forall x :: from <= x < a ==> !hit(x)
  }

  /** What a pattern of one atom without quantifier hits. */
  predicate HitBy(p: Regex, bits: set<Byte>, s: seq<Byte>, a: nat) {
    && a < |s| && s[a] in bits
    && (p.bol ==> a == 0 || s[a - 1] == 10) && (p.eol ==> a + 1 == |s| || s[a + 1] == 10)
  }

  lemma SingleMatch(p: Regex, bits: set<Byte>, s: seq<Byte>, from: nat, a: nat, b: nat)
    requires p.atoms == [Atom(bits, One)]
    ensures IsMatch(p, s, from, a, b) <==> from <= a && b == a + 1 && HitBy(p, bits, s, a)
  {
    if a <= b <= |s| {
      OneAtom(p.atoms[0], s, a, b);
      assert b == a + 1 ==> (AllIn(s, a, b, bits) <==> s[a] in bits);
    }
  }

  lemma SingleFinds(t: Pattern, bits: set<Byte>, s: seq<Byte>, from: nat, r: FindResult, hit: nat -> bool)
    requires Good(t) && 0 !in Print(t) && Answers(s, Print(t), from, r) && |s| <= CAP && from <= |s|
    requires Denote(t).atoms == [Atom(bits, One)]
    requires forall a :: from <= a < |s| ==> (hit(a) <==> HitBy(Denote(t), bits, s, a))
    ensures FirstAt(s, from, r, hit)
  {
    hide Good, Print, Read, Denote, LeftmostLongest;
    var p := Denote(t);
    ReadUndoesPrint(t);
    assert LeftmostLongest(p, s, from, r.f);
    SingleBest(p, bits, s, from, r.f);
  }

  lemma SingleBest(p: Regex, bits: set<Byte>, s: seq<Byte>, from: nat, f: Found)
    requires p.atoms == [Atom(bits, One)] && LeftmostLongest(p, s, from, f)
    ensures match f
            case NoMatch => forall a :: from <= a < |s| ==> !HitBy(p, bits, s, a)
            case Match(a, b) => from <= a && b == a + 1 && HitBy(p, bits, s, a)
                                && forall x :: from <= x < a ==> !HitBy(p, bits, s, x)
  {
    forall a | from <= a < |s| ensures IsMatch(p, s, from, a, a + 1) <==> HitBy(p, bits, s, a) {
      SingleMatch(p, bits, s, from, a, a + 1);
    }
    if f.Match? {
      SingleMatch(p, bits, s, from, f.start, f.end);
      forall x | from <= x < f.start ensures !HitBy(p, bits, s, x) {
        assert !IsMatch(p, s, from, x, x + 1);
      }
    } else {
      forall a | from <= a < |s| ensures !HitBy(p, bits, s, a) {
        assert !IsMatch(p, s, from, a, a + 1);
      }
    }
  }

  function Plainly(base: Base, q: Quant): Pattern { Pattern(false, [Item(base, q)], false) }

  lemma OnePrint(bol: bool, base: Base, q: Quant, eol: bool)
    ensures var t := Pattern(bol, [Item(base, q)], eol);
            && Print(t) == (if bol then [94] else []) + PrintBase(base) + PrintQuant(q) + (if eol then [36] else [])
            && Denote(t) == Regex([Atom(BaseBits(base), q)], bol, eol)
            && (Good(t) <==> GoodBase(base))
  {
    var items := [Item(base, q)];
    assert items[1..] == [];
    assert PrintItems(items) == PrintItem(items[0]) + PrintItems([]);
    assert Meaning(items) == [Atom(BaseBits(base), q)] + Meaning([]);
  }

  /** `.` finds the first byte that is no newline. */
  lemma DotFinds(s: seq<Byte>, from: nat, r: FindResult)
    requires Answers(s, [46], from, r) && |s| <= CAP && from <= |s|
    ensures FirstAt(s, from, r, (a: nat) => a < |s| && s[a] != 10)
  {
    OnePrint(false, Dot, One, false);
    SingleFinds(Plainly(Dot, One), BaseBits(Dot), s, from, r, (a: nat) => a < |s| && s[a] != 10);
  }

  /** `[lo-hi]` finds the first byte from `lo` to `hi`, `[^lo-hi]` the first that is not. */
  lemma RangeFinds(negate: bool, lo: Byte, hi: Byte, s: seq<Byte>, from: nat, r: FindResult)
    requires lo <= hi && lo !in {0, 92, 93} && hi !in {0, 92, 93} && (!negate ==> lo != 94)
    requires Answers(s, (if negate then [91, 94] else [91]) + [lo, 45, hi, 93], from, r) && |s| <= CAP && from <= |s|
    ensures FirstAt(s, from, r, (a: nat) => a < |s| && (lo <= s[a] <= hi <==> !negate))
  {
    var span := Span.Range(Elem(false, lo), Elem(false, hi));
    var base := Class(negate, [span]);
    OneSpan(span);
    OnePrint(false, base, One, false);
    assert Print(Plainly(base, One)) == (if negate then [91, 94] else [91]) + [lo, 45, hi, 93];
    SingleFinds(Plainly(base, One), BaseBits(base), s, from, r, (a: nat) => a < |s| && (lo <= s[a] <= hi <==> !negate));
  }

  /** `[c]` finds the first `c`, `[^c]` the first other byte. */
  lemma ByteClassFinds(negate: bool, c: Byte, s: seq<Byte>, from: nat, r: FindResult)
    requires c !in {0, 92, 93} && (!negate ==> c != 94)
    requires Answers(s, (if negate then [91, 94] else [91]) + [c, 93], from, r) && |s| <= CAP && from <= |s|
    ensures FirstAt(s, from, r, (a: nat) => a < |s| && (s[a] == c <==> !negate))
  {
    var span := Single(Elem(false, c));
    var base := Class(negate, [span]);
    OneSpan(span);
    OnePrint(false, base, One, false);
    assert Print(Plainly(base, One)) == (if negate then [91, 94] else [91]) + [c, 93];
    SingleFinds(Plainly(base, One), BaseBits(base), s, from, r, (a: nat) => a < |s| && (s[a] == c <==> !negate));
  }

  lemma OneSpan(span: Span)
    ensures PrintSpans([span]) == PrintSpan(span) && SpansBits([span]) == SpanBits(span)
    ensures GoodSpans([span]) <==> GoodSpan(span)
  {
    assert [span][1..] == [];
    assert PrintSpans([span][1..]) == [] && SpansBits([span][1..]) == {};
  }

  /** `[cd]` finds the first byte that is one of the two. */
  lemma TwoBytesFind(c: Byte, d: Byte, s: seq<Byte>, from: nat, r: FindResult)
    requires c !in {0, 92, 93, 94} && d !in {0, 92, 93}
    requires Answers(s, [91, c, d, 93], from, r) && |s| <= CAP && from <= |s|
    ensures FirstAt(s, from, r, (a: nat) => a < |s| && (s[a] == c || s[a] == d))
  {
    var x, y := Single(Elem(false, c)), Single(Elem(false, d));
    var base := Class(false, [x, y]);
    assert [x, y][1..] == [y];
    OneSpan(y);
    OnePrint(false, base, One, false);
    assert Print(Plainly(base, One)) == [91, c, d, 93];
    SingleFinds(Plainly(base, One), BaseBits(base), s, from, r, (a: nat) => a < |s| && (s[a] == c || s[a] == d));
  }

  /** The bytes that stand for themselves: not ( ) * + . ? [ \ ^ $ { | } */
  predicate Literal(c: Byte) {
    c !in {0, 36, 40, 41, 42, 43, 46, 63, 91, 92, 94, 123, 124, 125}
  }

  /** What a byte means as an atom: a literal, or any byte behind a backslash. */
  function LiteralBase(escaped: bool, c: Byte): Base { Lit(Elem(escaped, c)) }

  lemma LiteralIsGood(escaped: bool, c: Byte)
    requires if escaped then c != 0 else Literal(c)
    ensures GoodBase(LiteralBase(escaped, c)) && BaseBits(LiteralBase(escaped, c)) == {c}
    ensures PrintBase(LiteralBase(escaped, c)) == if escaped then [92, c] else [c]
  {
  }

  function Bol(on: bool): seq<Byte> { if on then [94] else [] }

  function Eol(on: bool): seq<Byte> { if on then [36] else [] }

  /** `c`, `\c`, `^c`, `c$` and `^c$`: the first `c`, where a line begins and where one ends. */
  lemma LiteralFinds(bol: bool, escaped: bool, c: Byte, eol: bool, s: seq<Byte>, from: nat, r: FindResult)
    requires if escaped then c != 0 else Literal(c)
    requires |s| <= CAP && from <= |s|
    requires Answers(s, Bol(bol) + (if escaped then [92, c] else [c]) + Eol(eol), from, r)
    ensures FirstAt(s, from, r, (a: nat) =>
              && a < |s| && s[a] == c
              && (bol ==> a == 0 || s[a - 1] == 10) && (eol ==> a + 1 == |s| || s[a + 1] == 10))
  {
    var base := LiteralBase(escaped, c);
    LiteralIsGood(escaped, c);
    OnePrint(bol, base, One, eol);
    var t := Pattern(bol, [Item(base, One)], eol);
    assert Print(t) == (if bol then [94] else []) + (if escaped then [92, c] else [c]) + (if eol then [36] else []);
    SingleFinds(t, {c}, s, from, r, (a: nat) =>
      && a < |s| && s[a] == c
      && (bol ==> a == 0 || s[a - 1] == 10) && (eol ==> a + 1 == |s| || s[a + 1] == 10));
  }

  // ---- Quantifiers ----------------------------------------------------------------------

  /** The bytes from `a` up to `e` are all `c`, and no longer run of them begins at `a`. */
  predicate RunAt(s: seq<Byte>, c: Byte, a: nat, e: nat) {
    a <= e <= |s| && (forall j :: a <= j < e ==> s[j] == c) && (e < |s| ==> s[e] != c)
  }

  lemma RepeatedMatch(c: Byte, q: Quant, s: seq<Byte>, from: nat, a: nat, b: nat)
    ensures IsMatch(Regex([Atom({c}, q)], false, false), s, from, a, b) <==>
              from <= a <= b <= |s| && Times(q, b - a) && forall j :: a <= j < b ==> s[j] == c
  {
    if a <= b <= |s| {
      OneAtom(Atom({c}, q), s, a, b);
    }
  }

  lemma {:induction false} SomeRun(s: seq<Byte>, c: Byte, a: nat) returns (e: nat)
    requires a <= |s|
    ensures RunAt(s, c, a, e)
    decreases |s| - a
  {
    if a < |s| && s[a] == c {
      e := SomeRun(s, c, a + 1);
    } else {
      e := a;
    }
  }

  lemma RepeatedAnswer(c: Byte, q: Quant, s: seq<Byte>, from: nat, r: FindResult, f: Found)
    requires Literal(c) && |s| <= CAP && from <= |s| && Answers(s, [c] + PrintQuant(q), from, r)
    requires LeftmostLongest(Regex([Atom({c}, q)], false, false), s, from, f)
    ensures r == Searched(f)
  {
    hide LeftmostLongest, Read, Good, GoodBase;
    var base := LiteralBase(false, c);
    LiteralIsGood(false, c);
    OnePrint(false, base, q, false);
    assert Print(Plainly(base, q)) == [c] + PrintQuant(q);
    ReadUndoesPrint(Plainly(base, q));
    LeftmostLongestIsUnique(Denote(Plainly(base, q)), s, from, r.f, f);
  }

  /** `c?` matches where the search begins: the `c` that stands there, or nothing. */
  lemma OptionalFinds(c: Byte, s: seq<Byte>, from: nat, r: FindResult)
    requires Literal(c) && Answers(s, [c, 63], from, r) && |s| <= CAP && from <= |s|
    ensures r == Searched(Match(from, if from < |s| && s[from] == c then from + 1 else from))
  {
    var e := if from < |s| && s[from] == c then from + 1 else from;
    forall a: nat, b: nat ensures IsMatch(Regex([Atom({c}, Opt)], false, false), s, from, a, b) <==>
              from <= a <= b <= |s| && Times(Opt, b - a) && forall j :: a <= j < b ==> s[j] == c {
      RepeatedMatch(c, Opt, s, from, a, b);
    }
    assert [c] + PrintQuant(Opt) == [c, 63];
    RepeatedAnswer(c, Opt, s, from, r, Match(from, e));
  }

  /** `c*` matches where the search begins: the whole run of `c` that stands there, perhaps none. */
  lemma StarFinds(c: Byte, s: seq<Byte>, from: nat, r: FindResult)
    requires Literal(c) && Answers(s, [c, 42], from, r) && |s| <= CAP && from <= |s|
    ensures r.Searched? && r.f.Match? && r.f.start == from && RunAt(s, c, from, r.f.end)
  {
    var e := SomeRun(s, c, from);
    forall a: nat, b: nat ensures IsMatch(Regex([Atom({c}, Star)], false, false), s, from, a, b) <==>
              from <= a <= b <= |s| && forall j :: a <= j < b ==> s[j] == c {
      RepeatedMatch(c, Star, s, from, a, b);
    }
    assert [c] + PrintQuant(Star) == [c, 42];
    RepeatedAnswer(c, Star, s, from, r, Match(from, e));
  }

  /** `c+` matches the first run of `c`, whole, and nothing if there is none. */
  lemma PlusFinds(c: Byte, s: seq<Byte>, from: nat, r: FindResult)
    requires Literal(c) && Answers(s, [c, 43], from, r) && |s| <= CAP && from <= |s|
    ensures r.Searched?
    ensures r.f.NoMatch? <==> forall j :: from <= j < |s| ==> s[j] != c
    ensures r.f.Match? ==> from <= r.f.start < r.f.end && RunAt(s, c, r.f.start, r.f.end)
                           && forall j :: from <= j < r.f.start ==> s[j] != c
  {
    var p := Regex([Atom({c}, Plus)], false, false);
    forall a: nat, b: nat ensures IsMatch(p, s, from, a, b) <==>
              from <= a < b <= |s| && forall j :: a <= j < b ==> s[j] == c {
      RepeatedMatch(c, Plus, s, from, a, b);
    }
    var a := FirstByte(s, c, from);
    var f := NoMatch;
    if a < |s| {
      var e := SomeRun(s, c, a);
      f := Match(a, e);
      assert IsMatch(p, s, from, a, e);
    }
    forall x: nat, y: nat | IsMatch(p, s, from, x, y) ensures f.Match? && (a < x || (a == x && y <= f.end)) {
      assert s[x] == c;
    }
    assert LeftmostLongest(p, s, from, f);
    assert [c] + PrintQuant(Plus) == [c, 43];
    RepeatedAnswer(c, Plus, s, from, r, f);
  }

  lemma {:induction false} FirstByte(s: seq<Byte>, c: Byte, from: nat) returns (a: nat)
    requires from <= |s|
    ensures from <= a <= |s| && (a < |s| ==> s[a] == c) && forall j :: from <= j < a ==> s[j] != c
    decreases |s| - from
  {
    if from < |s| && s[from] != c {
      a := FirstByte(s, c, from + 1);
    } else {
      a := from;
    }
  }

  // ---- Several atoms --------------------------------------------------------------------

  predicate AllLiteral(p: seq<Byte>) {
    forall i :: 0 <= i < |p| ==> Literal(p[i])
  }

  function LiteralItems(p: seq<Byte>): seq<Item> {
    if p == [] then [] else [Item(LiteralBase(false, p[0]), One)] + LiteralItems(p[1..])
  }

  function LiteralAtoms(p: seq<Byte>): (atoms: seq<Atom>)
    ensures |atoms| == |p| && forall i :: 0 <= i < |p| ==> atoms[i] == Atom({p[i]}, One)
  {
    seq(|p|, i requires 0 <= i < |p| => Atom({p[i]}, One))
  }

  lemma {:induction false} LiteralMeaning(p: seq<Byte>)
    ensures Meaning(LiteralItems(p)) == LiteralAtoms(p)
  {
    if p == [] {
      assert LiteralAtoms(p) == [];
    } else {
      LiteralMeaning(p[1..]);
      assert LiteralItems(p)[1..] == LiteralItems(p[1..]);
      assert LiteralAtoms(p) == [Atom({p[0]}, One)] + LiteralAtoms(p[1..]);
    }
  }

  /** Literals are read one by one, as many as there is room for. */
  lemma {:induction false} ReadLiterals(p: seq<Byte>, room: nat)
    requires AllLiteral(p)
    ensures ReadItems(p, room) == if |p| <= room then Some((LiteralItems(p), false)) else None
    decreases |p|
  {
    if p != [] {
      assert Literal(p[0]) && (|p| > 1 ==> Literal(p[1]));
      assert ReadItem(p) == Some((Item(LiteralBase(false, p[0]), One), p[1..]));
      if room > 0 {
        ReadLiterals(p[1..], room - 1);
      }
    }
  }

  lemma {:induction false} LiteralLang(p: seq<Byte>, s: seq<Byte>, i: nat, a: nat, b: nat)
    requires i <= |p| && b <= |s|
    ensures Lang(LiteralAtoms(p), s, i, a, b) <==> b == a + i && s[a..b] == p[..i]
  {
    if i > 0 {
      var atoms := LiteralAtoms(p);
      if b > 0 {
        LiteralLang(p, s, i - 1, a, b - 1);
        OneMore(p, s, i, a, b);
      }
      if b == a + i && s[a..b] == p[..i] {
        assert Rx.Piece(atoms, i, s, b - 1, b) && Lang(atoms, s, i - 1, a, b - 1);
      }
    }
  }

  lemma OneMore(p: seq<Byte>, s: seq<Byte>, i: nat, a: nat, b: nat)
    requires 0 < i <= |p| && 0 < b <= |s|
    ensures b == a + i ==> (s[a..b] == p[..i] <==> s[a..b - 1] == p[..i - 1] && s[b - 1] == p[i - 1])
  {
    if b == a + i {
      assert s[a..b] == s[a..b - 1] + [s[b - 1]] && p[..i] == p[..i - 1] + [p[i - 1]];
    }
  }

  predicate StandsAt(p: seq<Byte>, s: seq<Byte>, a: nat) {
    a + |p| <= |s| && s[a..a + |p|] == p
  }

  /** A pattern of literal bytes finds the first place where the text holds them in a row; more than 48 of
      them are refused. */
  lemma LiteralsFind(p: seq<Byte>, s: seq<Byte>, from: nat, r: FindResult)
    requires p != [] && AllLiteral(p) && Answers(s, p, from, r) && |s| <= CAP && from <= |s|
    ensures r.BadPattern? <==> |p| > 48
    ensures r.Searched? && r.f.NoMatch? ==> forall a :: from <= a ==> !StandsAt(p, s, a)
    ensures r.Searched? && r.f.Match? ==>
              && from <= r.f.start && r.f.end == r.f.start + |p| && StandsAt(p, s, r.f.start)
              && forall a :: from <= a < r.f.start ==> !StandsAt(p, s, a)
  {
    assert Literal(p[0]);
    ReadLiterals(p, 48);
    LiteralMeaning(p);
    if r.Searched? {
      var re := Denote(Read(p).value);
      forall a: nat, b: nat ensures IsMatch(re, s, from, a, b) <==>
                from <= a && b == a + |p| && StandsAt(p, s, a) {
        if b <= |s| {
          LiteralLang(p, s, |p|, a, b);
        }
      }
      forall a | from <= a && StandsAt(p, s, a) ensures IsMatch(re, s, from, a, a + |p|) {
      }
      assert LeftmostLongest(re, s, from, r.f);
      if r.f.Match? {
        assert IsMatch(re, s, from, r.f.start, r.f.end);
      }
    }
  }

  /** What is refused: a quantifier, a group, an alternative or a count where an atom is due, a class
      without an end, without a byte or with a range the wrong way round, and a backslash at the end. */
  lemma Refusals(s: seq<Byte>, p: seq<Byte>, from: nat, r: FindResult, lo: Byte, hi: Byte)
    requires Answers(s, p, from, r) && |s| <= CAP && from <= |s|
    requires Literal(lo) && Literal(hi) && hi < lo && lo != 93 && hi != 93
    requires || p in {[40], [41], [42], [43], [63], [123], [124], [125], [92]}
             || p in {[91], [91, lo], [91, 93], [91, 94, 93], [91, lo, 45, hi, 93]}
    ensures r.BadPattern?
  {
    if p == [91, lo] {
      assert p[1..] == [lo] && [lo][1..] == [];
      assert ReadElem([lo]) == Some((Elem(false, lo), [])) && ReadSpans([lo]).None?;
    } else if p == [91, lo, 45, hi, 93] {
      var q := [lo, 45, hi, 93];
      assert p[1..] == q && q[1..] == [45, hi, 93] && q[1..][1..] == [hi, 93];
      assert ReadElem(q) == Some((Elem(false, lo), [45, hi, 93])) && ReadSpan(q).None?;
      assert ReadSpans([lo, 45, hi, 93]).None?;
    } else if p == [91, 94, 93] {
      assert p[2..] == [93] && [93][1..] == [] && ReadSpans([93]) == Some(([], []));
    } else if p == [91, 93] {
      assert p[1..] == [93] && [93][1..] == [] && ReadSpans([93]) == Some(([], []));
    } else if p == [91] {
      assert p[1..] == [] && ReadSpans([]).None?;
    }
    assert ReadItem(p).None?;
  }

  // ---- Replacing one byte ---------------------------------------------------------------

  /** The parts with `glue` between them. */
  function Glued(parts: seq<seq<Byte>>, glue: seq<Byte>): seq<Byte>
    requires parts != []
  {
    if |parts| == 1 then parts[0] else parts[0] + glue + Glued(parts[1..], glue)
  }

  /** Replacing all `c` in a text of parts without it, with `c` between them, puts the replacement
      between the parts. */
  lemma ReplaceByte(c: Byte, parts: seq<seq<Byte>>, rep: seq<Byte>)
    requires Literal(c) && parts != [] && forall i :: 0 <= i < |parts| ==> c !in parts[i]
    ensures Read([c]).Some?
    ensures var r, s := Denote(Read([c]).value), Glued(parts, [c]);
            ReplaceAll(r, s, 0, rep) == Glued(parts, rep) && |Sites(r, s, 0)| == |parts| - 1
  {
    ReadLiterals([c], 48);
    LiteralMeaning([c]);
    var r := Denote(Read([c]).value);
    assert r.atoms == [Atom({c}, One)];
    ReplaceRest(r, c, Glued(parts, [c]), 0, parts, rep);
  }

  lemma {:induction false} ReplaceRest(r: Regex, c: Byte, s: seq<Byte>, from: nat, parts: seq<seq<Byte>>,
                                       rep: seq<Byte>)
    requires r.atoms == [Atom({c}, One)] && !r.bol && !r.eol && from <= |s|
    requires parts != [] && s[from..] == Glued(parts, [c]) && forall i :: 0 <= i < |parts| ==> c !in parts[i]
    ensures ReplaceAll(r, s, from, rep) == Glued(parts, rep) && |Sites(r, s, from)| == |parts| - 1
    decreases |parts|
  {
    hide LeftmostLongest, ReplaceAll, Sites, FirstMatch;
    var at := from + |parts[0]|;
    var f := FirstMatch(r, s, from);
    FirstGap(r, c, s, from, parts, f);
    ReplaceStep(r, s, from, rep, f);
    if |parts| == 1 {
      assert Glued(parts, [c]) == Glued(parts, rep) == parts[0];
    } else {
      ReplaceRest(r, c, s, at + 1, parts[1..], rep);
      OnePiece(s, from, at, parts, rep, f);
    }
  }

  /** The first match stands behind the first part. */
  lemma FirstGap(r: Regex, c: Byte, s: seq<Byte>, from: nat, parts: seq<seq<Byte>>, f: Found)
    requires r.atoms == [Atom({c}, One)] && !r.bol && !r.eol && from <= |s| && LeftmostLongest(r, s, from, f)
    requires parts != [] && s[from..] == Glued(parts, [c]) && c !in parts[0]
    ensures from + |parts[0]| <= |s| && s[from..from + |parts[0]|] == parts[0]
    ensures |parts| == 1 ==> f == NoMatch
    ensures |parts| > 1 ==> from + |parts[0]| < |s| && f == Match(from + |parts[0]|, from + |parts[0]| + 1)
                            && s[from + |parts[0]| + 1..] == Glued(parts[1..], [c])
  {
    hide LeftmostLongest;
    var n, at := |parts[0]|, from + |parts[0]|;
    var rest := s[from..];
    assert s[from..at] == rest[..n] == parts[0];
    forall x | from <= x < at ensures s[x] != c {
      assert s[x] == s[from..at][x - from];
    }
    SingleBest(r, {c}, s, from, f);
    if |parts| > 1 {
      assert s[at] == rest[n] == c && HitBy(r, {c}, s, at);
      assert s[at + 1..] == rest[n + 1..];
    }
  }

  lemma OnePiece(s: seq<Byte>, from: nat, at: nat, parts: seq<seq<Byte>>, rep: seq<Byte>, f: Found)
    requires |parts| > 1 && from <= at < |s| && s[from..at] == parts[0] && f == Match(at, at + 1)
    ensures FitsAt(s, from, f) && Resume(f) == at + 1
    ensures EditorReplace.Piece(s, from, f, rep) + Glued(parts[1..], rep) == Glued(parts, rep)
  {
  }

  /** The text with `rep` before every byte and at the end. */
  function Between(s: seq<Byte>, rep: seq<Byte>): seq<Byte> {
    if s == [] then rep else rep + [s[0]] + Between(s[1..], rep)
  }

  /** The empty pattern matches at every place of the text, and each match keeps the byte behind it. */
  lemma ReplaceEmpty(s: seq<Byte>, rep: seq<Byte>)
    ensures Read([]).Some?
    ensures var r := Denote(Read([]).value); ReplaceAll(r, s, 0, rep) == Between(s, rep) && |Sites(r, s, 0)| == |s| + 1
  {
    ReadLiterals([], 48);
    EmptyFrom(Denote(Read([]).value), s, 0, rep);
  }

  lemma {:induction false} EmptyFrom(r: Regex, s: seq<Byte>, from: nat, rep: seq<Byte>)
    requires r == Regex([], false, false) && from <= |s|
    ensures ReplaceAll(r, s, from, rep) == Between(s[from..], rep) && |Sites(r, s, from)| == |s| - from + 1
    decreases |s| - from
  {
    hide ReplaceAll, Sites, FirstMatch;
    var f := Match(from, from);
    assert LeftmostLongest(r, s, from, f) by {
      assert IsMatch(r, s, from, from, from);
    }
    hide LeftmostLongest;
    ReplaceStep(r, s, from, rep, f);
    if from == |s| {
      PastTheEnd(r, s, from + 1, rep);
    } else {
      EmptyFrom(r, s, from + 1, rep);
      assert s[from..][1..] == s[from + 1..];
    }
  }
}
