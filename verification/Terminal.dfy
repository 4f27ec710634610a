/** A terminal that keeps every line it ever showed: what the ring of the program must look like. */
module Terminal {
  import opened Bytes
  import opened Common

  const COLS: nat := 72
  const ROWS: nat := 24
  const HISTORY: nat := 1000
  const PARAMS: nat := 8

  datatype Cell = Cell(ch: Byte, fg: nat, bg: nat)

  type Line = seq<Cell>

  datatype Parser = Text | Escape | Control | Title

  /** All lines so far, the last ROWS of them on the screen; `view` lines are scrolled back. */
  datatype Term = Term(lines: seq<Line>, row: nat, col: nat, view: nat, fg: nat, bg: nat,
                       savedRow: nat, savedCol: nat, parser: Parser, param: seq<nat>, nparam: nat, bad: bool)

  /** `term_limit`. */
  function Limit(n: int, hi: nat): (r: nat)
    ensures r <= hi && (0 <= n <= hi ==> r == n)
  {
    if n < 0 then 0 else if n > hi then hi else n
  }

  predicate Ok(t: Term) {
    && |t.lines| >= ROWS && (forall i :: 0 <= i < |t.lines| ==> |t.lines[i]| == COLS)
    && t.row < ROWS && t.col <= COLS && t.savedRow < ROWS && t.savedCol <= COLS
    && |t.param| == PARAMS && t.nparam < PARAMS && (forall i :: 0 <= i < PARAMS ==> t.param[i] <= 9999)
    && t.view <= Kept(t)
  }

  /** The number of the first line on the screen: how many lines have scrolled off. */
  function Scrolled(t: Term): int { |t.lines| - ROWS }

  /** How many of those the terminal promises to keep. */
  function Kept(t: Term): int { Min(HISTORY, Scrolled(t)) }

  function Blank(fg: nat, bg: nat): Cell { Cell(32, fg, bg) }

  function Wiped(line: Line, from: nat, to: nat, fg: nat, bg: nat): (r: Line)
    ensures |r| == |line|
  {
    seq(|line|, c requires 0 <= c < |line| => if from <= c < to then Blank(fg, bg) else line[c])
  }

  function EmptyLine(fg: nat, bg: nat): Line { seq(COLS, _ => Blank(fg, bg)) }

  // ---- One byte -------------------------------------------------------------------------

  function Down(t: Term): (r: Term)
    requires Ok(t)
    ensures Ok(r)
  {
    if t.row < ROWS - 1 then t.(row := t.row + 1)
    else
      var u := t.(lines := t.lines + [EmptyLine(t.fg, t.bg)]);
      if t.view > 0 && t.view < Kept(u) then u.(view := t.view + 1) else u
  }

  /** Columns `from` up to `to` of screen row `r` become blank. */
  function WipeRow(t: Term, r: nat, from: nat, to: nat): (u: Term)
    requires Ok(t) && r < ROWS
    ensures Ok(u) && u == t.(lines := u.lines) && |u.lines| == |t.lines|
  {
    var i := Scrolled(t) + r;
    t.(lines := t.lines[i := Wiped(t.lines[i], from, to, t.fg, t.bg)])
  }

  /** The screen rows from `r` up to `hi` become blank. */
  function WipeRows(t: Term, r: nat, hi: nat): (u: Term)
    requires Ok(t) && r <= hi <= ROWS
    ensures Ok(u) && u == t.(lines := u.lines) && |u.lines| == |t.lines|
  {
    t.(lines := Blanked(t.lines, Scrolled(t) + r, Scrolled(t) + hi, EmptyLine(t.fg, t.bg)))
  }

  /** The lines from `lo` up to `hi` replaced by `blank`. */
  function Blanked(lines: seq<Line>, lo: int, hi: int, blank: Line): (r: seq<Line>)
    ensures |r| == |lines|
    ensures forall i :: 0 <= i < |lines| ==> r[i] == if lo <= i < hi then blank else lines[i]
  {
    seq(|lines|, i requires 0 <= i < |lines| => if lo <= i < hi then blank else lines[i])
  }

  lemma WipeNextRow(t: Term, r: nat, i: nat)
    requires Ok(t) && r <= i < ROWS
    ensures WipeRow(WipeRows(t, r, i), i, 0, COLS) == WipeRows(t, r, i + 1)
    ensures r == i ==> WipeRows(t, r, i) == t
  {
    var k := Scrolled(t) + i;
    assert Wiped(t.lines[k], 0, COLS, t.fg, t.bg) == EmptyLine(t.fg, t.bg);
    assert WipeRow(WipeRows(t, r, i), i, 0, COLS).lines == WipeRows(t, r, i + 1).lines;
    assert r == i ==> WipeRows(t, r, i).lines == t.lines;
  }

  /** `ESC [ ... J`: erase below, above or all of the screen. */
  function EraseScreen(t: Term): (u: Term)
    requires Ok(t)
    ensures Ok(u)
  {
    if t.param[0] == 2 then WipeRows(t, 0, ROWS)
    else if t.param[0] == 0 then WipeRows(WipeRow(t, t.row, t.col, COLS), t.row + 1, ROWS)
    else if t.param[0] == 1 then WipeRow(WipeRows(t, 0, t.row), t.row, 0, Limit(t.col + 1, COLS))
    else t
  }

  /** `ESC [ ... K`: erase right, left or all of the line. */
  function EraseLine(t: Term): (u: Term)
    requires Ok(t)
    ensures Ok(u)
  {
    if t.param[0] <= 2 then
      WipeRow(t, t.row, if t.param[0] == 0 then t.col else 0,
              if t.param[0] == 1 then Limit(t.col + 1, COLS) else COLS)
    else t
  }

  /** One colour parameter. */
  function Coloured(t: Term, a: nat): Term {
    if a == 0 then t.(fg := 7, bg := 0)
    else if 30 <= a <= 37 then t.(fg := a - 30)
    else if 40 <= a <= 47 then t.(bg := a - 40)
    else if a == 39 then t.(fg := 7)
    else if a == 49 then t.(bg := 0)
    else t
  }

  /** The first `n` colour parameters, in order. */
  function Colours(t: Term, n: nat): (u: Term)
    requires Ok(t) && n <= PARAMS
    ensures Ok(u) && u == t.(fg := u.fg, bg := u.bg)
  {
    if n == 0 then t else Coloured(Colours(t, n - 1), t.param[n - 1])
  }

  function OrOne(n: nat): nat { if n == 0 then 1 else n }

  /** A control sequence that ends in byte `c`. */
  function Csi(t: Term, c: Byte): (u: Term)
    requires Ok(t)
    ensures Ok(u)
  {
    var n := OrOne(t.param[0]);
    if c == 65 then t.(row := Limit(t.row - n, ROWS - 1))
    else if c == 66 then t.(row := Limit(t.row + n, ROWS - 1))
    else if c == 67 then t.(col := Limit(t.col + n, COLS - 1))
    else if c == 68 then t.(col := Limit(t.col - n, COLS - 1))
    else if c == 71 then t.(col := Limit(n - 1, COLS - 1))
    else if c == 72 || c == 102 then t.(row := Limit(n - 1, ROWS - 1), col := Limit(OrOne(t.param[1]) - 1, COLS - 1))
    else if c == 74 then EraseScreen(t)
    else if c == 75 then EraseLine(t)
    else if c == 115 then t.(savedRow := t.row, savedCol := t.col)
    else if c == 117 then t.(row := t.savedRow, col := t.savedCol)
    else if c == 109 then Colours(t, t.nparam + 1)
    else t
  }

  /** A byte after ESC. */
  function AfterEscape(t: Term, c: Byte): (u: Term)
    requires Ok(t)
    ensures Ok(u)
  {
    if c == 91 then t.(parser := Control, nparam := 0, bad := false, param := seq(PARAMS, _ => 0))
    else if c == 93 then t.(parser := Title)
    else if c == 55 then t.(parser := Text, savedRow := t.row, savedCol := t.col)
    else if c == 56 then t.(parser := Text, row := t.savedRow, col := t.savedCol)
    else t.(parser := Text)
  }

  /** A byte inside a control sequence. */
  function InControl(t: Term, c: Byte): (u: Term)
    requires Ok(t)
    ensures Ok(u)
  {
    if 48 <= c <= 57 then t.(param := t.param[t.nparam := Limit(t.param[t.nparam] * 10 + (c - 48), 9999)])
    else if c == 59 then if t.nparam < PARAMS - 1 then t.(nparam := t.nparam + 1) else t.(bad := true)
    else if 0x40 <= c <= 0x7e then (if t.bad then t else Csi(t, c)).(parser := Text)
    else t.(bad := true)
  }

  /** A cell written at the cursor; past the last column the text goes on in the next line. */
  function Put(t: Term, c: Byte): (u: Term)
    requires Ok(t)
    ensures Ok(u)
  {
    var s := if t.col == COLS then Down(t.(col := 0)) else t;
    var i := Scrolled(s) + s.row;
    s.(lines := s.lines[i := s.lines[i][s.col := Cell(c, s.fg, s.bg)]], col := s.col + 1)
  }

  function InText(t: Term, c: Byte): (u: Term)
    requires Ok(t)
    ensures Ok(u)
  {
    if c == 13 then t.(col := 0)
    else if c == 10 then Down(t)
    else if c == 8 then if t.col > 0 then t.(col := t.col - 1) else t
    else if c == 9 then t.(col := Limit((t.col / 8 + 1) * 8, COLS - 1))
    else if c < 32 || c == 127 then t
    else Put(t, c)
  }

  function Step(t: Term, c: Byte): (u: Term)
    requires Ok(t)
    ensures Ok(u)
  {
    if c == 27 then t.(parser := Escape)
    else match t.parser
      case Escape => AfterEscape(t, c)
      case Title => if c == 7 then t.(parser := Text) else t
      case Control => InControl(t, c)
      case Text => InText(t, c)
  }

  function Feed(t: Term, bytes: seq<Byte>): (u: Term)
    requires Ok(t)
    ensures Ok(u)
  {
    if bytes == [] then t else Step(Feed(t, bytes[..|bytes| - 1]), bytes[|bytes| - 1])
  }

  // ---- What holds for every stream ------------------------------------------------------

  /** However the stream is split into reads, the terminal ends the same. */
  lemma {:induction false} FeedSplits(t: Term, a: seq<Byte>, b: seq<Byte>)
    requires Ok(t)
    ensures Feed(t, a + b) == Feed(Feed(t, a), b)
  {
    if b == [] {
      assert a + b == a;
    } else {
      assert (a + b)[..|a + b| - 1] == a + b[..|b| - 1];
      FeedSplits(t, a, b[..|b| - 1]);
    }
  }

  /** What a step may do to the lines and to the view of them. */
  predicate Grows(t: Term, u: Term) {
    && 0 <= Scrolled(t) <= Scrolled(u)
    && (forall i :: 0 <= i < Scrolled(t) ==> u.lines[i] == t.lines[i])
    && (t.view == 0 ==> u.view == 0)
    && (t.view > 0 ==> u.view > 0 && Top(u) == Max(Top(t), Scrolled(u) - 1000))
  }

  /** The number of the line at the top of the window. */
  function Top(t: Term): int { Scrolled(t) - t.view }

  lemma DownGrows(t: Term)
    requires Ok(t)
    ensures Grows(t, Down(t))
  {
  }

  lemma CsiGrows(t: Term, c: Byte)
    requires Ok(t)
    ensures Grows(t, Csi(t, c)) && |Csi(t, c).lines| == |t.lines|
  {
  }

  lemma TextGrows(t: Term, c: Byte)
    requires Ok(t)
    ensures Grows(t, InText(t, c))
  {
    hide Down;
    DownGrows(t);
    DownGrows(t.(col := 0));
  }

  lemma StepGrows(t: Term, c: Byte)
    requires Ok(t)
    ensures Grows(t, Step(t, c))
  {
    hide Csi, InText;
    CsiGrows(t, c);
    TextGrows(t, c);
  }

  /** History is append-only: nothing a stream contains changes a line that has left the screen. And a
      window scrolled back stays on its lines until they pass the history limit, then it stands at
      the oldest line kept. */
  lemma {:induction false} FeedGrows(t: Term, bytes: seq<Byte>)
    requires Ok(t)
    ensures Grows(t, Feed(t, bytes))
  {
    if bytes != [] {
      var s := Feed(t, bytes[..|bytes| - 1]);
      FeedGrows(t, bytes[..|bytes| - 1]);
      StepGrows(s, bytes[|bytes| - 1]);
    }
  }

  /** Erasing the screen blanks exactly the cells from the cursor on, up to it, or all, in reading order. */
  lemma ErasesScreen(t: Term, r: nat, c: nat)
    requires Ok(t) && r < ROWS && c < COLS
    ensures var i, n := Scrolled(t) + r, t.param[0];
            EraseScreen(t).lines[i][c] ==
              if (n == 0 && (r > t.row || (r == t.row && c >= t.col)))
                 || (n == 1 && (r < t.row || (r == t.row && c <= t.col))) || n == 2
              then Blank(t.fg, t.bg) else t.lines[i][c]
  {
  }

  /** Erasing the line does so within the cursor's row. */
  lemma ErasesLine(t: Term, r: nat, c: nat)
    requires Ok(t) && r < ROWS && c < COLS
    ensures var i, n := Scrolled(t) + r, t.param[0];
            EraseLine(t).lines[i][c] ==
              if r == t.row && ((n == 0 && c >= t.col) || (n == 1 && c <= t.col) || n == 2)
              then Blank(t.fg, t.bg) else t.lines[i][c]
  {
  }

  /** No control sequence scrolls: only line feeds and text do. */
  lemma ScrollsOnlyInText(t: Term, c: Byte)
    requires Ok(t) && Scrolled(Step(t, c)) != Scrolled(t)
    ensures t.parser == Text && t.row == ROWS - 1 && (c == 10 || (t.col == COLS && c >= 32 && c != 127))
    ensures Scrolled(Step(t, c)) == Scrolled(t) + 1
  {
    CsiGrows(t, c);
  }

  // ---- What text looks like -------------------------------------------------------------

  predicate Printable(text: seq<Byte>) {
    forall i :: 0 <= i < |text| ==> text[i] >= 32 && text[i] != 127
  }

  /** The number of the line the cursor is on. */
  function Cursor(t: Term): int { Scrolled(t) + t.row }

  /** From the left margin, text fills lines of COLS cells one after the other, and the cursor stays
      behind the last cell, on its line even when that is full. */
  lemma {:induction false} TextWraps(t: Term, text: seq<Byte>)
    requires Ok(t) && t.parser == Text && t.col == 0 && Printable(text)
    ensures var u := Feed(t, text);
            && u.parser == Text && u.fg == t.fg && u.bg == t.bg
            && u.col == (if text == [] then 0 else (|text| - 1) % COLS + 1)
            && Cursor(u) == Cursor(t) + (if text == [] then 0 else (|text| - 1) / COLS)
            && forall k :: 0 <= k < |text| ==> u.lines[Cursor(t) + k / COLS][k % COLS] == Cell(text[k], t.fg, t.bg)
  {
    hide Step;
    if text != [] {
      var n := |text| - 1;
      TextWraps(t, text[..n]);
      PutAdvances(Feed(t, text[..n]), text[n]);
      WrapArithmetic(n);
      var s, u := Feed(t, text[..n]), Feed(t, text);
      assert Cursor(u) == Cursor(t) + n / COLS && u.col == n % COLS + 1;
      forall k | 0 <= k < |text| ensures u.lines[Cursor(t) + k / COLS][k % COLS] == Cell(text[k], t.fg, t.bg) {
        if k < n {
          assert s.lines[Cursor(t) + k / COLS][k % COLS] == Cell(text[..n][k], t.fg, t.bg);
          CellsApart(k, n);
        }
      }
    }
  }

  lemma CellsApart(k: nat, n: nat)
    requires k < n
    ensures k / COLS < n / COLS || (k / COLS == n / COLS && k % COLS < n % COLS)
  {
  }

  lemma WrapArithmetic(n: nat)
    ensures n > 0 && (n - 1) % COLS + 1 == COLS ==> n % COLS == 0 && n / COLS == (n - 1) / COLS + 1
    ensures n > 0 && (n - 1) % COLS + 1 < COLS ==> n % COLS == (n - 1) % COLS + 1 && n / COLS == (n - 1) / COLS
  {
  }

  /** A cell of text goes to the cursor, or to the start of the next line when this one is full, and
      changes no other cell. */
  lemma PutAdvances(s: Term, c: Byte)
    requires Ok(s) && s.parser == Text && c >= 32 && c != 127
    ensures var u, full := Step(s, c), s.col == COLS;
            && u.parser == Text && u.fg == s.fg && u.bg == s.bg && |u.lines| >= |s.lines|
            && Cursor(u) == Cursor(s) + (if full then 1 else 0)
            && u.col == (if full then 1 else s.col + 1) && (!full ==> u.row == s.row && |u.lines| == |s.lines|)
            && u.lines[Cursor(u)][u.col - 1] == Cell(c, s.fg, s.bg)
            && forall i, k :: 0 <= i < |s.lines| && 0 <= k < COLS && (i != Cursor(u) || k != u.col - 1) ==>
                 u.lines[i][k] == s.lines[i][k]
  {
  }

  /** Bytes that only write and move down. */
  predicate Flowing(bytes: seq<Byte>) {
    forall i :: 0 <= i < |bytes| ==> bytes[i] == 10 || bytes[i] == 13 || (bytes[i] >= 32 && bytes[i] != 127)
  }

  /** Text, carriage returns and line feeds never touch a line above the cursor. */
  lemma {:induction false} LinesAboveStay(t: Term, bytes: seq<Byte>)
    requires Ok(t) && t.parser == Text && Flowing(bytes)
    ensures var u := Feed(t, bytes);
            && u.parser == Text && u.fg == t.fg && u.bg == t.bg && Cursor(t) <= Cursor(u)
            && forall i :: 0 <= i < Cursor(t) ==> u.lines[i] == t.lines[i]
  {
    if bytes != [] {
      LinesAboveStay(t, bytes[..|bytes| - 1]);
    }
  }

  /** Lines of output, each ended by CR LF. */
  function Output(texts: seq<seq<Byte>>): (r: seq<Byte>)
    requires forall j :: 0 <= j < |texts| ==> Printable(texts[j])
    ensures Flowing(r)
  {
    if texts == [] then [] else
      assert Printable(texts[|texts| - 1]);
      Output(texts[..|texts| - 1]) + (texts[|texts| - 1] + [13, 10])
  }

  /** Output of lines that fit the width is shown line for line, and the line `j` of it is still there
      when all of it has been fed, however far it has scrolled. */
  lemma {:induction false} OutputAppears(t: Term, texts: seq<seq<Byte>>)
    requires Ok(t) && t.parser == Text && t.col == 0
    requires forall j :: 0 <= j < |texts| ==> Printable(texts[j]) && |texts[j]| <= COLS
    ensures var u := Feed(t, Output(texts));
            && u.parser == Text && u.col == 0 && u.fg == t.fg && u.bg == t.bg && Cursor(u) == Cursor(t) + |texts|
            && forall j, k :: 0 <= j < |texts| && 0 <= k < |texts[j]| ==>
                 u.lines[Cursor(t) + j][k] == Cell(texts[j][k], t.fg, t.bg)
  {
    hide Step, Feed;
    if texts == [] {
      FeedNothing(t);
    } else {
      var m := |texts| - 1;
      var s, u := Feed(t, Output(texts[..m])), Feed(t, Output(texts));
      OutputAppears(t, texts[..m]);
      FeedSplits(t, Output(texts[..m]), texts[m] + [13, 10]);
      assert u == Feed(s, texts[m] + [13, 10]);
      LinesAboveStay(s, texts[m] + [13, 10]);
      LineAppears(s, texts[m]);
      forall j, k | 0 <= j < |texts| && 0 <= k < |texts[j]|
        ensures u.lines[Cursor(t) + j][k] == Cell(texts[j][k], t.fg, t.bg)
      {
        if j < m {
          assert s.lines[Cursor(t) + j][k] == Cell(texts[..m][j][k], t.fg, t.bg);
        }
      }
    }
  }

  lemma FeedNothing(t: Term)
    requires Ok(t)
    ensures Feed(t, []) == t
  {
  }

  lemma LineAppears(s: Term, text: seq<Byte>)
    requires Ok(s) && s.parser == Text && s.col == 0 && Printable(text) && |text| <= COLS
    ensures var u := Feed(s, text + [13, 10]);
            && u.col == 0 && Cursor(u) == Cursor(s) + 1
            && forall k :: 0 <= k < |text| ==> u.lines[Cursor(s)][k] == Cell(text[k], s.fg, s.bg)
  {
    hide Step, Feed;
    var v := Feed(s, text);
    TextWraps(s, text);
    FeedSplits(s, text, [13, 10]);
    FeedLineEnd(v);
    forall k | 0 <= k < |text| ensures v.lines[Cursor(s)][k] == Cell(text[k], s.fg, s.bg) {
      assert k / COLS == 0 && k % COLS == k;
      assert v.lines[Cursor(s) + k / COLS][k % COLS] == Cell(text[k], s.fg, s.bg);
    }
  }

  lemma FeedLineEnd(v: Term)
    requires Ok(v) && v.parser == Text
    ensures var u := Feed(v, [13, 10]);
            && u.col == 0 && Cursor(u) == Cursor(v) + 1 && v.lines <= u.lines
  {
    assert [13, 10][..1] == [13];
    assert Feed(v, [13]) == Step(Feed(v, []), 13);
  }
}
