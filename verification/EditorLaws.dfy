/** What the editing keys do, by the codes of the keys and the parts of the text around the cursor. */
module EditorLaws {
  import opened Bytes
  import opened Editor

  /** Printable bytes are typed as they are, and both return codes as a newline, if there is room. */
  lemma TypingEnters(a: seq<Byte>, b: seq<Byte>, clip: seq<Byte>, c: int)
    requires 32 <= c <= 126 || c == 10 || c == 13
    ensures Edited(View(a + b, |a|, clip), c, false) ==
              if |a + b| < 262144 then View(a + [if c >= 32 then c else 10] + b, |a| + 1, clip)
              else View(a + b, |a|, clip)
  {
    assert (a + b)[..|a|] == a && (a + b)[|a|..] == b;
  }

  /** Backspace takes the byte before the cursor, the delete key and `x` as a command take the one behind
      it; at the ends of the text they change nothing. */
  lemma DeletingTakesOut(a: seq<Byte>, x: Byte, b: seq<Byte>, clip: seq<Byte>)
    ensures Edited(View(a + [x] + b, |a| + 1, clip), 8, false) == View(a + b, |a|, clip)
    ensures Edited(View(a + [x] + b, |a|, clip), 127, false) == View(a + b, |a|, clip)
    ensures Edited(View(a + [x] + b, |a|, clip), 120, true) == View(a + b, |a|, clip)
    ensures Edited(View(a, 0, clip), 8, false) == View(a, 0, clip)
    ensures Edited(View(a, |a|, clip), 127, false) == Edited(View(a, |a|, clip), 120, true) == View(a, |a|, clip)
  {
    var t := a + [x] + b;
    assert t[..|a|] == a && t[|a| + 1..] == b;
  }

  /** What stands before a line, and what stands behind it. */
  predicate Before(pre: seq<Byte>) { pre == [] || pre[|pre| - 1] == 10 }

  predicate Behind(post: seq<Byte>) { post == [] || post[0] == 10 }

  lemma LineIs(pre: seq<Byte>, line: seq<Byte>, post: seq<Byte>, at: nat)
    requires Before(pre) && Behind(post) && 10 !in line && |pre| <= at <= |pre| + |line|
    ensures var t := pre + line + post;
            LineStart(t, at) == |pre| && LineEnd(t, at) == |pre| + |line| && t[|pre|..|pre| + |line|] == line
  {
    hide LineStart, LineEnd;
    var t := pre + line + post;
    LineIsLine(t, at);
    assert forall i :: |pre| <= i < |pre| + |line| ==> t[i] == line[i - |pre|] && t[i] in line;
    assert |pre| > 0 ==> t[|pre| - 1] == 10;
    assert post != [] ==> t[|pre| + |line|] == 10;
  }

  /** `y` copies the line of the cursor, wherever in it the cursor is, and `D` takes it out with the newline
      behind it or, on the last line, the one before it. A line of more than 1024 bytes is left alone. */
  lemma LineIsTaken(pre: seq<Byte>, line: seq<Byte>, post: seq<Byte>, at: nat, clip: seq<Byte>)
    requires Before(pre) && Behind(post) && 10 !in line && |pre| <= at <= |pre| + |line|
    ensures var v := View(pre + line + post, at, clip);
            && Edited(v, 121, true) == (if |line| <= 1024 then v.(clip := line) else v)
            && Edited(v, 68, true) ==
                 if |line| > 1024 || pre + line + post == [] then v
                 else if post != [] then View(pre + post[1..], |pre|, line)
                 else if pre != [] then View(pre[..|pre| - 1], |pre| - 1, line)
                 else View([], 0, line)
  {
    hide LineStart, LineEnd;
    LineIs(pre, line, post, at);
    var t := pre + line + post;
    assert post != [] ==> t[..|pre|] == pre && t[|pre| + |line| + 1..] == post[1..];
    assert post == [] && pre != [] ==> t[..|pre| - 1] == pre[..|pre| - 1] && t[|pre| + |line|..] == [];
  }

  /** `p` puts the clipboard below the line of the cursor, as a line of its own, and the cursor before it;
      an empty clipboard or one there is no room for changes nothing. */
  lemma LineIsPasted(pre: seq<Byte>, line: seq<Byte>, post: seq<Byte>, at: nat, clip: seq<Byte>)
    requires Before(pre) && Behind(post) && 10 !in line && |pre| <= at <= |pre| + |line| && 0 !in clip
    ensures var v := View(pre + line + post, at, clip);
            Edited(v, 112, true) ==
              if clip == [] || |v.text| + |clip| + 1 > 262144 then v
              else if v.text == [] then View(clip, 0, clip)
              else View(pre + line + [10] + clip + post, |pre| + |line| + 1, clip)
  {
    hide LineStart, LineEnd;
    LineIs(pre, line, post, at);
    NoNul(clip);
    var t := pre + line + post;
    assert t[..|pre| + |line|] == pre + line && t[|pre| + |line|..] == post;
  }

  /** No other key edits. */
  lemma OtherKeys(v: View, c: int)
    requires v.cursor <= |v.text|
    ensures c !in {68, 112, 120, 121} ==> Edited(v, c, true) == v
    ensures c !in {8, 10, 13, 127} && !(32 <= c <= 126) ==> Edited(v, c, false) == v
  {
  }

  /** Ctrl-Z or `z` as a command shows the text of the undo slot, and Ctrl-Y or `Z` behind it takes that back;
      none of them undoes twice. */
  method UndoAndRedoKeys(e: Editor, undo: int, redo: int, command: bool) returns (ghost between: seq<Byte>)
    requires e.Valid() && e.undoValid && !e.redo
    requires undo == 26 || (command && undo == 122)
    requires redo == 25 || (command && redo == 90)
    modifies e, e.text, e.undoText
    ensures between == old(e.Undone())
    ensures e.Valid() && e.Text() == old(e.Text()) && e.Undone() == old(e.Undone()) && !e.redo
  {
    e.Key(redo, command);
    e.Key(undo, command);
    between := e.Text();
    e.Key(undo, command);
    e.Key(redo, command);
  }

  /** A line cut out and pasted below the line that takes its place changes places with it. */
  lemma LinesChangePlaces(pre: seq<Byte>, line: seq<Byte>, next: seq<Byte>, post: seq<Byte>, at: nat, clip: seq<Byte>)
    requires Before(pre) && Behind(post) && 10 !in line && 10 !in next && |pre| <= at <= |pre| + |line|
    requires 0 < |line| <= 1024 && 0 !in line && pre + next != []
    requires |pre| + |line| + 1 + |next| + |post| <= 262144
    ensures var v := View(pre + line + ([10] + next + post), at, clip);
            Edited(Edited(v, 68, true), 112, true) ==
              View(pre + next + [10] + line + post, |pre| + |next| + 1, line)
  {
    hide Edited;
    LineIsTaken(pre, line, [10] + next + post, at, clip);
    assert ([10] + next + post)[1..] == next + post;
    assert pre + (next + post) == pre + next + post;
    LineIsPasted(pre, next, post, |pre|, line);
  }
}
