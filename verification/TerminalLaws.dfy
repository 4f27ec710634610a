/** What the escape sequences of the terminal do, said of the bytes that are sent. */
module TerminalLaws {
  import opened Bytes
  import opened Common
  import opened Decimals
  import opened Terminal

  // ---- How a sequence is read -----------------------------------------------------------

  /** Parameters in decimal with `;` between them; one that is missing is 0. */
  function Params(ps: seq<nat>): seq<Byte>
    requires ps != []
  {
    if |ps| == 1 then Param(ps[0]) else Params(ps[..|ps| - 1]) + [59] + Param(ps[|ps| - 1])
  }

  /** Zero may be left out: a parameter that is not written counts the same. */
  function Param(n: nat): seq<Byte> { if n == 0 then [] else Num(n) }

  /** `ESC [`, the parameters, and the byte that says what to do. */
  function Sequence(ps: seq<nat>, c: Byte): seq<Byte>
    requires ps != []
  {
    [27, 91] + Params(ps) + [c]
  }

  predicate Fitting(ps: seq<nat>) {
    0 < |ps| <= 8 && forall i :: 0 <= i < |ps| ==> ps[i] <= 9999
  }

  /** The parameters as the parser holds them. */
  function Held(ps: seq<nat>): seq<nat>
    requires |ps| <= 8
  {
    ps + seq(8 - |ps|, _ => 0)
  }

  lemma {:induction false} DigitsAreRead(t: Term, n: nat)
    requires Ok(t) && t.parser == Control && t.param[t.nparam] == 0 && n <= 9999
    ensures Feed(t, Num(n)) == t.(param := t.param[t.nparam := n])
  {
    var d: Byte := 48 + n % 10;
    if n < 10 {
      FeedOne(t, 48 + n);
    } else {
      DigitsAreRead(t, n / 10);
      FeedSplits(t, Num(n / 10), [d]);
      FeedOne(Feed(t, Num(n / 10)), d);
      assert t.param[t.nparam := n / 10][t.nparam := n] == t.param[t.nparam := n];
    }
  }

  lemma FeedOne(t: Term, c: Byte)
    requires Ok(t)
    ensures Feed(t, [c]) == Step(t, c)
  {
    assert [c][..0] == [];
    assert Feed(t, [c][..0]) == t;
  }

  lemma ParamIsRead(t: Term, n: nat)
    requires Ok(t) && t.parser == Control && t.param[t.nparam] == 0 && n <= 9999
    ensures Feed(t, Param(n)) == t.(param := t.param[t.nparam := n])
  {
    if n == 0 {
      FeedNothing(t);
      assert t.param[t.nparam := 0] == t.param;
    } else {
      DigitsAreRead(t, n);
    }
  }

  /** The state in which the last byte of the sequence finds the parser. */
  function Ready(t: Term, ps: seq<nat>): (u: Term)
    requires Ok(t) && Fitting(ps)
    ensures Ok(u)
  {
    t.(parser := Control, nparam := |ps| - 1, bad := false, param := Held(ps))
  }

  lemma {:induction false} ParamsAreRead(t: Term, ps: seq<nat>)
    requires Ok(t) && Fitting(ps)
    ensures Feed(t, [27, 91] + Params(ps)) == Ready(t, ps)
    decreases |ps|
  {
    hide Step, Feed;
    if |ps| == 1 {
      FeedSplits(t, [27, 91], Param(ps[0]));
      Introduced(t);
      var u := Feed(t, [27, 91]);
      ParamIsRead(u, ps[0]);
      assert u.param[0 := ps[0]] == Held(ps);
    } else {
      var m := |ps| - 1;
      var head := [27, 91] + Params(ps[..m]);
      ParamsAreRead(t, ps[..m]);
      assert [27, 91] + Params(ps) == head + [59] + Param(ps[m]);
      FeedSplits(t, head + [59], Param(ps[m]));
      FeedSplits(t, head, [59]);
      FeedOne(Ready(t, ps[..m]), 59);
      NextParam(Ready(t, ps[..m]));
      var u := Step(Ready(t, ps[..m]), 59);
      ParamIsRead(u, ps[m]);
      assert u.param[m := ps[m]] == Held(ps);
    }
  }

  lemma NextParam(t: Term)
    requires Ok(t) && t.parser == Control && t.nparam < 7
    ensures Step(t, 59) == t.(nparam := t.nparam + 1)
  {
  }

  lemma Introduced(t: Term)
    requires Ok(t)
    ensures Feed(t, [27, 91]) == t.(parser := Control, nparam := 0, bad := false, param := seq(8, _ => 0))
  {
    FeedSplits(t, [27], [91]);
    assert [27] + [91] == [27, 91];
    FeedOne(t, 27);
    FeedOne(Step(t, 27), 91);
  }

  /** A whole sequence acts once, with its parameters, and leaves the parser reading text. */
  lemma SequenceActs(t: Term, ps: seq<nat>, c: Byte)
    requires Ok(t) && Fitting(ps) && 0x40 <= c <= 0x7e
    ensures Feed(t, Sequence(ps, c)) == Csi(Ready(t, ps), c).(parser := Text)
  {
    hide Csi, Feed;
    ParamsAreRead(t, ps);
    FeedSplits(t, [27, 91] + Params(ps), [c]);
    FeedOne(Ready(t, ps), c);
  }

  // ---- Movement -------------------------------------------------------------------------

  /** Only the cursor moved, to this row and column. */
  predicate Moved(t: Term, u: Term, row: int, col: int) {
    && u == t.(row := u.row, col := u.col, param := u.param, nparam := u.nparam, bad := u.bad)
    && u.row == row && u.col == col
  }

  /** `ESC [ n A`, `B`, `C`, `D` and `G`: up, down, right and left by `n`, but not over the edge, and to
      column `n`, counted from 1. No number, written here as n = 0, counts as 1. */
  lemma CursorMoves(t: Term, n: nat)
    requires Ok(t) && t.parser == Text && n <= 9999
    ensures var k := if n == 0 then 1 else n;
            && Moved(t, Feed(t, Sequence([n], 65)), Max(t.row - k, 0), t.col)
            && Moved(t, Feed(t, Sequence([n], 66)), Min(t.row + k, 23), t.col)
            && Moved(t, Feed(t, Sequence([n], 67)), t.row, Min(t.col + k, 71))
            && Moved(t, Feed(t, Sequence([n], 68)), t.row, Max(t.col - k, 0))
            && Moved(t, Feed(t, Sequence([n], 71)), t.row, Min(k - 1, 71))
  {
    hide Feed;
    SequenceActs(t, [n], 65);
    SequenceActs(t, [n], 66);
    SequenceActs(t, [n], 67);
    SequenceActs(t, [n], 68);
    SequenceActs(t, [n], 71);
  }

  /** `ESC [ row ; col H` and `f`: to that place, counted from 1, and to the nearest one there is. */
  lemma CursorGoesTo(t: Term, row: nat, col: nat)
    requires Ok(t) && t.parser == Text && row <= 9999 && col <= 9999
    ensures var r, c := if row == 0 then 1 else row, if col == 0 then 1 else col;
            && Moved(t, Feed(t, Sequence([row, col], 72)), Min(r - 1, 23), Min(c - 1, 71))
            && Moved(t, Feed(t, Sequence([row, col], 102)), Min(r - 1, 23), Min(c - 1, 71))
            && Moved(t, Feed(t, Sequence([row], 72)), Min(r - 1, 23), 0)
  {
    GoesTo(t, [row, col], 72);
    GoesTo(t, [row, col], 102);
    GoesTo(t, [row], 72);
  }

  lemma GoesTo(t: Term, ps: seq<nat>, c: Byte)
    requires Ok(t) && t.parser == Text && Fitting(ps) && |ps| <= 2 && (c == 72 || c == 102)
    ensures var row, col := ps[0], if |ps| == 2 then ps[1] else 0;
            Moved(t, Feed(t, Sequence(ps, c)), Min((if row == 0 then 1 else row) - 1, 23),
                  Min((if col == 0 then 1 else col) - 1, 71))
  {
    hide Feed, Sequence;
    SequenceActs(t, ps, c);
    var u := Ready(t, ps);
    assert u.param[0] == ps[0] && u.param[1] == if |ps| == 2 then ps[1] else 0;
  }

  /** Sequences that move the cursor. */
  datatype Move = Move(ps: seq<nat>, c: Byte)

  predicate Moving(m: Move) {
    Fitting(m.ps) && m.c in {65, 66, 67, 68, 71, 72, 102}
  }

  function Moves(ms: seq<Move>): seq<Byte>
    requires forall i :: 0 <= i < |ms| ==> Moving(ms[i])
  {
    if ms == [] then [] else
      assert Moving(ms[|ms| - 1]);
      Moves(ms[..|ms| - 1]) + Sequence(ms[|ms| - 1].ps, ms[|ms| - 1].c)
  }

  lemma {:induction false} MovesOnlyMove(t: Term, ms: seq<Move>)
    requires Ok(t) && t.parser == Text && forall i :: 0 <= i < |ms| ==> Moving(ms[i])
    ensures var u := Feed(t, Moves(ms)); Moved(t, u, u.row, u.col)
  {
    hide Feed;
    if ms == [] {
      FeedNothing(t);
    } else {
      var k := |ms| - 1;
      assert Moving(ms[k]);
      MovesOnlyMove(t, ms[..k]);
      FeedSplits(t, Moves(ms[..k]), Sequence(ms[k].ps, ms[k].c));
      SequenceActs(Feed(t, Moves(ms[..k])), ms[k].ps, ms[k].c);
    }
  }

  /** `ESC [ s` and `ESC 7` save the place of the cursor; after any movement `ESC [ u` and `ESC 8` go back
      to it, whichever saved it. */
  lemma PlaceIsRestored(t: Term, ms: seq<Move>, save: seq<Byte>, restore: seq<Byte>)
    requires Ok(t) && t.parser == Text && forall i :: 0 <= i < |ms| ==> Moving(ms[i])
    requires save in {[27, 55], [27, 91, 115]} && restore in {[27, 56], [27, 91, 117]}
    ensures var u := Feed(t, save + Moves(ms) + restore);
            u.row == t.row && u.col == t.col && u.lines == t.lines && u.parser == Text
  {
    hide Feed;
    Saves(t, save);
    var v := Feed(t, save);
    FeedSplits(t, save + Moves(ms), restore);
    FeedSplits(t, save, Moves(ms));
    MovesOnlyMove(v, ms);
    Restores(Feed(v, Moves(ms)), restore);
  }

  lemma Saves(t: Term, save: seq<Byte>)
    requires Ok(t) && t.parser == Text && save in {[27, 55], [27, 91, 115]}
    ensures var u := Feed(t, save);
            && u.row == u.savedRow == t.row && u.col == u.savedCol == t.col
            && u.lines == t.lines && u.parser == Text
  {
    if save == [27, 55] {
      FeedSplits(t, [27], [55]);
      assert [27] + [55] == save;
      FeedOne(t, 27);
      FeedOne(Step(t, 27), 55);
    } else {
      assert save == Sequence([0], 115);
      SequenceActs(t, [0], 115);
    }
  }

  lemma Restores(t: Term, restore: seq<Byte>)
    requires Ok(t) && t.parser == Text && restore in {[27, 56], [27, 91, 117]}
    ensures var u := Feed(t, restore);
            u.row == t.savedRow && u.col == t.savedCol && u.lines == t.lines && u.parser == Text
  {
    if restore == [27, 56] {
      FeedSplits(t, [27], [56]);
      assert [27] + [56] == restore;
      FeedOne(t, 27);
      FeedOne(Step(t, 27), 56);
    } else {
      assert restore == Sequence([0], 117);
      SequenceActs(t, [0], 117);
    }
  }

  // ---- Colours --------------------------------------------------------------------------

  /** What one parameter makes of the colour of the text, and of the colour behind it. */
  function TextColour(fg: nat, a: nat): nat {
    if a == 0 || a == 39 then 7 else if 30 <= a <= 37 then a - 30 else fg
  }

  function BackColour(bg: nat, a: nat): nat {
    if a == 0 || a == 49 then 0 else if 40 <= a <= 47 then a - 40 else bg
  }

  function TextColours(fg: nat, ps: seq<nat>): nat {
    if ps == [] then fg else TextColour(TextColours(fg, ps[..|ps| - 1]), ps[|ps| - 1])
  }

  function BackColours(bg: nat, ps: seq<nat>): nat {
    if ps == [] then bg else BackColour(BackColours(bg, ps[..|ps| - 1]), ps[|ps| - 1])
  }

  lemma {:induction false} ColoursInOrder(t: Term, ps: seq<nat>, n: nat)
    requires Ok(t) && Fitting(ps) && n <= |ps| && t.param == Held(ps)
    ensures Colours(t, n) == t.(fg := TextColours(t.fg, ps[..n]), bg := BackColours(t.bg, ps[..n]))
  {
    if n > 0 {
      ColoursInOrder(t, ps, n - 1);
      assert ps[..n][..n - 1] == ps[..n - 1];
    }
  }

  /** `ESC [ ... m` colours the cells written from then on, by its parameters in order; the place of the
      cursor and all cells stay. */
  lemma ColoursTheNextCell(t: Term, ps: seq<nat>, ch: Byte)
    requires Ok(t) && t.parser == Text && Fitting(ps) && t.col < 72 && ch >= 32 && ch != 127
    ensures var u := Feed(t, Sequence(ps, 109) + [ch]);
            && |u.lines| == |t.lines| && u.row == t.row && u.col == t.col + 1
            && u.lines[Cursor(t)][t.col] == Cell(ch, TextColours(t.fg, ps), BackColours(t.bg, ps))
  {
    hide Feed, Step, Sequence, TextColours, BackColours;
    ColoursAre(t, ps);
    FeedSplits(t, Sequence(ps, 109), [ch]);
    var v := Feed(t, Sequence(ps, 109));
    FeedOne(v, ch);
    PutAdvances(v, ch);
  }

  lemma ColoursAre(t: Term, ps: seq<nat>)
    requires Ok(t) && t.parser == Text && Fitting(ps)
    ensures Feed(t, Sequence(ps, 109)) ==
              Ready(t, ps).(parser := Text, fg := TextColours(t.fg, ps), bg := BackColours(t.bg, ps))
  {
    hide Feed, Sequence, TextColours, BackColours;
    SequenceActs(t, ps, 109);
    ColoursInOrder(Ready(t, ps), ps, |ps|);
    assert ps[..|ps|] == ps;
  }

  // ---- Erasing --------------------------------------------------------------------------

  /** `ESC [ n J` erases from the cursor to the end of the screen, from its start to the cursor, or all of
      it, for n = 0, 1, 2, and `ESC [ n K` the same of the row of the cursor. No other cell changes, and
      other numbers erase nothing. */
  lemma ErasesCells(t: Term, n: nat, r: nat, c: nat)
    requires Ok(t) && t.parser == Text && n <= 9999 && r < 24 && c < 72
    ensures var before, after := r < t.row || (r == t.row && c <= t.col), r > t.row || (r == t.row && c >= t.col);
            var gone := (n == 0 && after) || (n == 1 && before) || n == 2;
            var i := Scrolled(t) + r;
            && |Feed(t, Sequence([n], 74)).lines| == |Feed(t, Sequence([n], 75)).lines| == |t.lines|
            && Feed(t, Sequence([n], 74)).lines[i][c] == (if gone then Cell(32, t.fg, t.bg) else t.lines[i][c])
            && Feed(t, Sequence([n], 75)).lines[i][c] ==
                 if gone && r == t.row then Cell(32, t.fg, t.bg) else t.lines[i][c]
  {
    hide Feed, EraseScreen, EraseLine;
    SequenceActs(t, [n], 74);
    SequenceActs(t, [n], 75);
    CsiGrows(Ready(t, [n]), 74);
    CsiGrows(Ready(t, [n]), 75);
    ErasesScreen(Ready(t, [n]), r, c);
    ErasesLine(Ready(t, [n]), r, c);
  }

  /** What is not understood is passed over whole: a sequence with a byte in it that is no digit and no
      `;`, and a title. */
  lemma PassesOver(t: Term, odd: Byte, ps: seq<nat>, c: Byte, title: seq<Byte>)
    requires Ok(t) && t.parser == Text && Fitting(ps)
    requires odd < 0x40 && !(48 <= odd <= 59 && odd != 58) && odd != 27 && 0x40 <= c <= 0x7e
    requires forall i :: 0 <= i < |title| ==> title[i] != 7 && title[i] != 27
    ensures var u := Feed(t, [27, 91, odd] + Params(ps) + [c]); Moved(t, u, t.row, t.col)
    ensures Feed(t, [27, 93] + title + [7]) == t
  {
    OddSequence(t, odd, ps, c);
    TitleIsSkipped(t, title);
    FeedSplits(t, [27, 93] + title, [7]);
    FeedOne(Feed(t, [27, 93] + title), 7);
  }

  lemma {:induction false} TitleIsSkipped(t: Term, title: seq<Byte>)
    requires Ok(t) && forall i :: 0 <= i < |title| ==> title[i] != 7 && title[i] != 27
    ensures Feed(t, [27, 93] + title) == t.(parser := Title)
  {
    if title == [] {
      FeedSplits(t, [27], [93]);
      assert [27] + [93] == [27, 93] + title;
      FeedOne(t, 27);
      FeedOne(Step(t, 27), 93);
    } else {
      var m := |title| - 1;
      hide Feed;
      TitleIsSkipped(t, title[..m]);
      FeedSplits(t, [27, 93] + title[..m], [title[m]]);
      assert [27, 93] + title[..m] + [title[m]] == [27, 93] + title;
      FeedOne(t.(parser := Title), title[m]);
    }
  }

  lemma OddSequence(t: Term, odd: Byte, ps: seq<nat>, c: Byte)
    requires Ok(t) && t.parser == Text && Fitting(ps)
    requires odd < 0x40 && !(48 <= odd <= 59 && odd != 58) && odd != 27 && 0x40 <= c <= 0x7e
    ensures Moved(t, Feed(t, [27, 91, odd] + Params(ps) + [c]), t.row, t.col)
  {
    hide Feed;
    var p := Params(ps);
    ParamsAreDigits(ps);
    Introduced(t);
    FeedSplits(t, [27, 91], [odd]);
    assert [27, 91] + [odd] == [27, 91, odd];
    FeedOne(Feed(t, [27, 91]), odd);
    FeedSplits(t, [27, 91, odd], p);
    BadStays(Feed(t, [27, 91, odd]), p);
    FeedSplits(t, [27, 91, odd] + p, [c]);
    FeedOne(Feed(t, [27, 91, odd] + p), c);
  }

  /** So is a sequence with more than eight parameters. */
  lemma TooManyParams(t: Term, ps: seq<nat>, more: seq<Byte>, c: Byte)
    requires Ok(t) && t.parser == Text && Fitting(ps) && |ps| == 8 && AllParams(more) && 0x40 <= c <= 0x7e
    ensures var u := Feed(t, [27, 91] + Params(ps) + [59] + more + [c]); Moved(t, u, t.row, t.col)
  {
    hide Feed, Params;
    var head := [27, 91] + Params(ps);
    ParamsAreRead(t, ps);
    FeedSplits(t, head, [59]);
    FeedOne(Ready(t, ps), 59);
    FeedSplits(t, head + [59], more);
    BadStays(Feed(t, head + [59]), more);
    FeedSplits(t, head + [59] + more, [c]);
    FeedOne(Feed(t, head + [59] + more), c);
  }

  predicate AllParams(b: seq<Byte>) {
    forall i :: 0 <= i < |b| ==> 48 <= b[i] <= 57 || b[i] == 59
  }

  lemma {:induction false} ParamsAreDigits(ps: seq<nat>)
    requires ps != []
    ensures AllParams(Params(ps))
    decreases |ps|
  {
    ParamIsDigits(ps[|ps| - 1]);
    if |ps| > 1 {
      ParamsAreDigits(ps[..|ps| - 1]);
    }
  }

  lemma ParamIsDigits(n: nat)
    ensures AllParams(Param(n))
  {
    var d := Param(n);
    forall i | 0 <= i < |d| ensures 48 <= d[i] <= 57 {
      assert IsDigit(d[i]);
    }
  }

  lemma {:induction false} BadStays(t: Term, b: seq<Byte>)
    requires Ok(t) && t.parser == Control && t.bad && AllParams(b)
    ensures var u := Feed(t, b);
            u == t.(param := u.param, nparam := u.nparam) && u.bad && u.parser == Control
  {
    if b != [] {
      BadStays(t, b[..|b| - 1]);
    }
  }

  // ---- Single bytes ---------------------------------------------------------------------

  /** Carriage return goes to the first column, backspace one to the left, and tab to the next column that
      is a multiple of 8, or to the last one. Other control bytes do nothing. */
  lemma ControlBytes(t: Term, c: Byte)
    requires Ok(t) && t.parser == Text
    ensures Feed(t, [13]) == t.(col := 0)
    ensures Feed(t, [8]) == t.(col := Max(t.col - 1, 0))
    ensures Feed(t, [9]) == t.(col := NextStop(t.col))
    ensures (c < 32 || c == 127) && c !in {8, 9, 10, 13, 27} ==> Feed(t, [c]) == t
  {
    hide Feed, Put, Down, NextStop;
    FeedOne(t, 13);
    FeedOne(t, 8);
    FeedOne(t, 9);
    StopIsNext(t.col);
    FeedOne(t, c);
  }

  /** A line feed goes one line down in the same column. On the last row that is a new line, blank in the
      colours of the moment; the lines that were there stay. */
  lemma LineFeeds(t: Term)
    requires Ok(t) && t.parser == Text
    ensures var u := Feed(t, [10]);
            && u == t.(row := u.row, lines := u.lines, view := u.view)
            && u.row == Min(t.row + 1, 23) && t.lines <= u.lines
            && |u.lines| == |t.lines| + (if t.row == 23 then 1 else 0)
            && (t.row == 23 ==> forall c :: 0 <= c < 72 ==> u.lines[|t.lines|][c] == Cell(32, t.fg, t.bg))
  {
    hide Feed;
    FeedOne(t, 10);
  }

  /** The first multiple of 8 behind the column that the row has, or the last column. */
  function NextStop(col: nat): (stop: nat)
    ensures (stop == 71 || (stop < 71 && stop % 8 == 0)) && (col < 71 ==> col < stop)
    ensures forall x: nat :: col < x < stop ==> x % 8 != 0
    decreases 71 - col
  {
    if col >= 70 then 71 else if (col + 1) % 8 == 0 then col + 1 else NextStop(col + 1)
  }

  lemma {:induction false} StopIsNext(col: nat)
    ensures NextStop(col) == Limit((col / 8 + 1) * 8, 71)
    decreases 71 - col
  {
    if col < 70 && (col + 1) % 8 != 0 {
      StopIsNext(col + 1);
      assert (col + 1) / 8 == col / 8;
    }
  }
}
