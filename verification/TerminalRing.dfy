/** The terminal tab of the program: a ring of lines, of which the newest ones are the screen. */
module TerminalRing {
  import opened Bytes
  import opened Terminal

  const LINES: nat := HISTORY + ROWS

  /** Where the ring keeps the line `i` rows below the top of the screen; above it for `i < 0`. */
  function Place(head: nat, i: int): (p: nat)
    requires head < LINES && HISTORY + i >= 0 && i < ROWS
    ensures p < LINES
  {
    (head + LINES + i) % LINES
  }

  lemma PlacesDiffer(head: nat, i: int, j: int)
    requires head < LINES && HISTORY + i >= 0 && i < j < ROWS
    ensures Place(head, i) != Place(head, j)
  {
  }

  lemma PlaceAdvances(head: nat, i: int)
    requires head < LINES && HISTORY + i >= 0 && i < ROWS - 1
    ensures Place((head + 1) % LINES, i) == Place(head, i + 1)
  {
  }

  /** The ring holds the newest `kept + ROWS` of the lines. */
  ghost predicate Holds(ring: seq<Line>, head: nat, kept: nat, lines: seq<Line>)
    requires |ring| == LINES && head < LINES && kept <= HISTORY && kept + ROWS <= |lines|
  {
    forall i {:trigger Place(head, i)} :: kept + i >= 0 && i < ROWS ==>
      ring[Place(head, i)] == lines[|lines| - ROWS + i]
  }

  /** A row of the screen written in the ring is that row written in the list. */
  lemma WriteKeeps(ring: seq<Line>, head: nat, kept: nat, lines: seq<Line>, r: nat, line: Line)
    requires |ring| == LINES && head < LINES && kept <= HISTORY && kept + ROWS <= |lines| && r < ROWS
    requires Holds(ring, head, kept, lines)
    ensures Holds(ring[Place(head, r) := line], head, kept, lines[|lines| - ROWS + r := line])
  {
    forall i {:trigger Place(head, i)} | kept + i >= 0 && i < ROWS
      ensures ring[Place(head, r) := line][Place(head, i)] == lines[|lines| - ROWS + r := line][|lines| - ROWS + i]
    {
      if i < r {
        PlacesDiffer(head, i, r);
      } else if i > r {
        PlacesDiffer(head, r, i);
      }
    }
  }

  /** The head moved on: the oldest line, if the ring is full, makes room for the new one. */
  lemma ScrollKeeps(ring: seq<Line>, head: nat, kept: nat, lines: seq<Line>, line: Line)
    requires |ring| == LINES && head < LINES && kept <= HISTORY && kept + ROWS <= |lines|
    requires Holds(ring, head, kept, lines)
    ensures var head' := (head + 1) % LINES;
            Holds(ring[Place(head', ROWS - 1) := line], head', if kept < HISTORY then kept + 1 else kept,
                  lines + [line])
  {
    hide Place;
    var head', kept' := (head + 1) % LINES, if kept < HISTORY then kept + 1 else kept;
    forall i {:trigger Place(head', i)} | kept' + i >= 0 && i < ROWS
      ensures ring[Place(head', ROWS - 1) := line][Place(head', i)] == (lines + [line])[|lines| + 1 - ROWS + i]
    {
      if i < ROWS - 1 {
        PlacesDiffer(head', i, ROWS - 1);
        PlaceAdvances(head, i);
      }
    }
  }

  class Tab {
    var ring: array<Line>
    var head: nat
    var history: nat
    var row: nat
    var col: nat
    var view: nat
    var fg: nat
    var bg: nat
    var savedRow: nat
    var savedCol: nat
    var parser: Parser
    var param: seq<nat>
    var nparam: nat
    var bad: bool
    ghost var lines: seq<Line>

    /** The terminal that keeps all lines. */
    ghost function Model(): Term
      reads this
    {
      Term(lines, row, col, view, fg, bg, savedRow, savedCol, parser, param, nparam, bad)
    }

    ghost predicate Valid()
      reads this, ring
    {
      && Ok(Model()) && ring.Length == LINES && head < LINES && history == Kept(Model())
      && Holds(ring[..], head, history, lines)
    }

    /** The tab as `term_init` leaves it. */
    constructor ()
      ensures Valid() && fresh(ring)
      ensures Model() == Term(seq(ROWS, _ => EmptyLine(7, 0)), 0, 0, 0, 7, 0, 0, 0, Text, seq(PARAMS, _ => 0), 0, false)
    {
      ring := new Line[LINES](_ => EmptyLine(7, 0));
      head, history, row, col, view, fg, bg := 0, 0, 0, 0, 0, 7, 0;
      savedRow, savedCol, parser, param, nparam, bad := 0, 0, Text, seq(PARAMS, _ => 0), 0, false;
      lines := seq(ROWS, _ => EmptyLine(7, 0));
    }

    /** A row of the screen replaced, in the ring and in the list. */
    method SetRow(r: nat, line: Line)
      requires Valid() && r < ROWS && |line| == COLS
      modifies ring, this`lines
      ensures Valid()
      ensures Model() == old(Model()).(lines := old(lines)[Scrolled(old(Model())) + r := line])
    {
      WriteKeeps(ring[..], head, history, lines, r, line);
      ring[Place(head, r)] := line;
      lines := lines[|lines| - ROWS + r := line];
      assert ring[..] == old(ring[..])[Place(head, r) := line];
    }

    /** `term_clear_line`. */
    method ClearLine(r: nat, from: nat, to: nat)
      requires Valid() && r < ROWS && from <= to <= COLS
      modifies ring, this`lines
      ensures Valid()
      ensures Model() == WipeRow(old(Model()), r, from, to)
    {
      var line := ring[Place(head, r)];
      assert line == lines[Scrolled(Model()) + r];
      var c := from;
      while c < to
        invariant |line| == COLS && from <= c <= to
        invariant forall k :: 0 <= k < COLS ==>
                    line[k] == if from <= k < c then Blank(fg, bg) else lines[Scrolled(Model()) + r][k]
      {
        line := line[c := Blank(fg, bg)];
        c := c + 1;
      }
      assert line == Wiped(lines[Scrolled(Model()) + r], from, to, fg, bg);
      SetRow(r, line);
    }

    /** The loops of `term_csi` that clear whole rows. */
    method ClearRows(r: nat, hi: nat)
      requires Valid() && r <= hi <= ROWS
      modifies ring, this`lines
      ensures Valid()
      ensures Model() == WipeRows(old(Model()), r, hi)
    {
      var i := r;
      while i < hi
        invariant r <= i <= hi && Valid()
        invariant Model() == WipeRows(old(Model()), r, i)
      {
        WipeNextRow(old(Model()), r, i);
        ClearLine(i, 0, COLS);
        i := i + 1;
      }
    }

    /** `term_down`. */
    method LineFeed()
      requires Valid()
      modifies this`row, this`head, this`history, this`view, this`lines, ring
      ensures Valid()
      ensures Model() == Down(old(Model()))
    {
      hide Holds;
      if row < ROWS - 1 {
        row := row + 1;
        return;
      }
      var line := EmptyLine(fg, bg);
      ScrollKeeps(ring[..], head, history, lines, line);
      head := (head + 1) % LINES;
      if history < HISTORY {
        history := history + 1;
      }
      if view > 0 && view < history {
        view := view + 1;
      }
      ring[Place(head, ROWS - 1)] := line;
      lines := lines + [line];
      assert ring[..] == old(ring[..])[Place(head, ROWS - 1) := line];
    }

    /** The erasing control sequences. */
    method Erase(c: Byte)
      requires Valid() && (c == 74 || c == 75)
      modifies ring, this`lines
      ensures Valid()
      ensures Model() == Csi(old(Model()), c)
    {
      hide Holds, WipeRows, WipeRow;
      if c == 74 {
        if param[0] == 2 {
          ClearRows(0, ROWS);
        } else if param[0] == 0 {
          ClearLine(row, col, COLS);
          ClearRows(row + 1, ROWS);
        } else if param[0] == 1 {
          ClearRows(0, row);
          ClearLine(row, 0, Limit(col + 1, COLS));
        }
      } else if param[0] <= 2 {
        ClearLine(row, if param[0] == 0 then col else 0, if param[0] == 1 then Limit(col + 1, COLS) else COLS);
      }
    }

    /** The colour control sequence: every parameter given, in order. */
    method Colour()
      requires Valid()
      modifies this`fg, this`bg
      ensures Valid()
      ensures Model() == Colours(old(Model()), nparam + 1)
    {
      hide Holds, Coloured;
      for i := 0 to nparam + 1
        invariant Valid() && Model() == Colours(old(Model()), i)
      {
        OneColour(param[i]);
      }
    }

    method OneColour(a: nat)
      requires Valid()
      modifies this`fg, this`bg
      ensures Valid() && Model() == Coloured(old(Model()), a)
    {
      hide Holds;
      if a == 0 {
        fg, bg := 7, 0;
      } else if 30 <= a <= 37 {
        fg := a - 30;
      } else if 40 <= a <= 47 {
        bg := a - 40;
      } else if a == 39 {
        fg := 7;
      } else if a == 49 {
        bg := 0;
      }
    }

    /** `term_csi`. */
    method ControlSequence(c: Byte)
      requires Valid()
      modifies this`row, this`col, this`savedRow, this`savedCol, this`fg, this`bg, this`lines, ring
      ensures Valid()
      ensures Model() == Csi(old(Model()), c)
    {
      hide Holds, EraseScreen, EraseLine, Colours;
      var n := OrOne(param[0]);
      if c == 65 {
        row := Limit(row - n, ROWS - 1);
      } else if c == 66 {
        row := Limit(row + n, ROWS - 1);
      } else if c == 67 {
        col := Limit(col + n, COLS - 1);
      } else if c == 68 {
        col := Limit(col - n, COLS - 1);
      } else if c == 71 {
        col := Limit(n - 1, COLS - 1);
      } else if c == 72 || c == 102 {
        row := Limit(n - 1, ROWS - 1);
        col := Limit(OrOne(param[1]) - 1, COLS - 1);
      } else if c == 74 || c == 75 {
        Erase(c);
      } else if c == 115 {
        savedRow, savedCol := row, col;
      } else if c == 117 {
        row, col := savedRow, savedCol;
      } else if c == 109 {
        Colour();
      }
    }

    /** A byte after ESC. */
    method ParseEscape(c: Byte)
      requires Valid()
      modifies this`row, this`col, this`savedRow, this`savedCol, this`parser, this`param, this`nparam, this`bad
      ensures Valid()
      ensures Model() == AfterEscape(old(Model()), c)
    {
      hide Holds;
      parser := Text;
      if c == 91 {
        parser, nparam, bad := Control, 0, false;
        param := seq(PARAMS, _ => 0);
      } else if c == 93 {
        parser := Title;
      } else if c == 55 {
        savedRow, savedCol := row, col;
      } else if c == 56 {
        row, col := savedRow, savedCol;
      }
    }

    /** A byte of a control sequence. */
    method ParseControl(c: Byte)
      requires Valid()
      modifies this`row, this`col, this`savedRow, this`savedCol, this`fg, this`bg, this`lines, ring
      modifies this`parser, this`param, this`nparam, this`bad
      ensures Valid()
      ensures Model() == InControl(old(Model()), c)
    {
      hide Holds, Csi;
      if 48 <= c <= 57 {
        param := param[nparam := Limit(param[nparam] * 10 + (c - 48), 9999)];
      } else if c == 59 {
        if nparam < PARAMS - 1 {
          nparam := nparam + 1;
        } else {
          bad := true;
        }
      } else if 0x40 <= c <= 0x7e {
        if !bad {
          ControlSequence(c);
        }
        parser := Text;
      } else {
        bad := true;
      }
    }

    /** A byte outside any sequence. */
    method Write(c: Byte)
      requires Valid() && parser == Text
      modifies this`row, this`col, this`head, this`history, this`view, this`lines, ring
      ensures Valid()
      ensures Model() == InText(old(Model()), c)
    {
      hide Holds, Down;
      if c == 13 {
        col := 0;
      } else if c == 10 {
        LineFeed();
      } else if c == 8 {
        if col > 0 {
          col := col - 1;
        }
      } else if c == 9 {
        col := Limit((col / 8 + 1) * 8, COLS - 1);
      } else if c >= 32 && c != 127 {
        if col == COLS {
          col := 0;
          LineFeed();
        }
        WriteCell(c);
      }
    }

    method WriteCell(c: Byte)
      requires Valid() && col < COLS
      modifies this`col, this`lines, ring
      ensures Valid()
      ensures var t, i := old(Model()), Scrolled(old(Model())) + old(row);
              Model() == t.(lines := t.lines[i := t.lines[i][t.col := Cell(c, t.fg, t.bg)]], col := t.col + 1)
    {
      var line := ring[Place(head, row)];
      assert line == lines[Scrolled(Model()) + row];
      SetRow(row, line[col := Cell(c, fg, bg)]);
      col := col + 1;
    }

    /** `term_feed`: the ring keeps showing what the terminal that keeps all lines shows. */
    method FeedBytes(bytes: seq<Byte>)
      requires Valid()
      modifies this, ring
      ensures Valid() && ring == old(ring)
      ensures Model() == Feed(old(Model()), bytes)
    {
      hide Step, Holds;
      for i := 0 to |bytes|
        invariant Valid() && ring == old(ring)
        invariant Model() == Feed(old(Model()), bytes[..i])
      {
        FeedByte(bytes[i]);
        assert bytes[..i + 1][..i] == bytes[..i];
      }
      assert bytes[..|bytes|] == bytes;
    }

    method FeedByte(c: Byte)
      requires Valid()
      modifies this, ring
      ensures Valid() && ring == old(ring)
      ensures Model() == Step(old(Model()), c)
    {
      hide Holds, AfterEscape, InControl, InText;
      if c == 27 {
        parser := Escape;
      } else if parser == Escape {
        ParseEscape(c);
      } else if parser == Control {
        ParseControl(c);
      } else if parser == Title {
        if c == 7 {
          parser := Text;
        }
      } else {
        Write(c);
      }
    }

    /** `term_scroll`: the window moves, but not past the oldest line kept nor below the screen. */
    method Scroll(delta: int)
      requires Valid()
      modifies this`view
      ensures Valid()
      ensures Model() == old(Model()).(view := Limit(old(view) + delta, Kept(old(Model()))))
    {
      if delta > history - view {
        view := history;
      } else if delta + view < 0 {
        view := 0;
      } else {
        view := view + delta;
      }
    }

    /** The line at row `r` of the window, as drawing and copying find it in the ring. */
    method Shown(r: nat) returns (line: Line)
      requires Valid() && r < ROWS
      ensures line == lines[Top(Model()) + r]
    {
      assert Place(head, r - view) == (head + LINES - view + r) % LINES;
      line := ring[(head + LINES - view + r) % LINES];
    }
  }
}
