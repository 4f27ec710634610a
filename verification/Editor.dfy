/** The text buffer of the editor, with its one-step undo slot, its clean baseline, its clipboard,
    and the save and open protocols. */
module Editor {
  import opened Bytes
  import opened EditorIo

  const CAP: nat := 256 * 1024
  const CLIP_CAP: nat := 1024
  const IO_CHUNK: nat := 65536

  /** The cursor line of a text: where it starts and ends, without its newline. */
  function LineStart(t: seq<Byte>, p: nat): (r: nat)
    requires p <= |t|
    ensures r <= p
  {
    if p > 0 && t[p - 1] != NEWLINE then LineStart(t, p - 1) else p
  }

  function LineEnd(t: seq<Byte>, p: nat): (r: nat)
    requires p <= |t|
    ensures p <= r <= |t|
    decreases |t| - p
  {
    if p < |t| && t[p] != NEWLINE then LineEnd(t, p + 1) else p
  }

  /** The cursor line has no newline in it, and one before and one behind it, or the ends of the text. */
  lemma LineIsLine(t: seq<Byte>, p: nat)
    requires p <= |t|
    ensures var a, b := LineStart(t, p), LineEnd(t, p);
            && a <= p <= b <= |t| && (forall i :: a <= i < b ==> t[i] != 10)
            && (a == 0 || t[a - 1] == 10) && (b == |t| || t[b] == 10)
  {
    StartOfLine(t, p);
    EndOfLine(t, p);
  }

  lemma {:induction false} StartOfLine(t: seq<Byte>, p: nat)
    requires p <= |t|
    ensures var a := LineStart(t, p); (forall i :: a <= i < p ==> t[i] != 10) && (a == 0 || t[a - 1] == 10)
  {
    if p > 0 && t[p - 1] != NEWLINE {
      StartOfLine(t, p - 1);
    }
  }

  lemma {:induction false} EndOfLine(t: seq<Byte>, p: nat)
    requires p <= |t|
    ensures var b := LineEnd(t, p); (forall i :: p <= i < b ==> t[i] != 10) && (b == |t| || t[b] == 10)
    decreases |t| - p
  {
    if p < |t| && t[p] != NEWLINE {
      EndOfLine(t, p + 1);
    }
  }

  const KEY_X: int := 120
  const KEY_D: int := 68
  const KEY_P: int := 112
  const KEY_S: int := 115
  const KEY_Y: int := 121
  const CTRL_S: int := 19
  const CTRL_O: int := 15

  predicate Types(c: int) {
    c == 10 || c == 13 || 32 <= c <= 126
  }

  /** Ctrl-Z and Ctrl-Y, and z and Z in command mode. */
  predicate IsUndoKey(c: int, command: bool) {
    c == 26 || c == 25 || (command && (c == 122 || c == 90))
  }

  /** The byte a typed key enters. */
  function Entered(c: int): Byte
    requires Types(c)
  {
    if c == 13 then NEWLINE else c
  }

  predicate IsRedo(c: int) {
    c == 25 || c == 90
  }

  /** What the editing keys act on. */
  datatype View = View(text: seq<Byte>, cursor: nat, clip: seq<Byte>)

  /** `vp_insert`. */
  function Typed(v: View, c: Byte): View
    requires v.cursor <= |v.text|
  {
    if |v.text| >= CAP then v else View(v.text[..v.cursor] + [c] + v.text[v.cursor..], v.cursor + 1, v.clip)
  }

  function Deleted(v: View, at: int): View {
    if 0 <= at < |v.text| then View(v.text[..at] + v.text[at + 1..], at, v.clip) else v
  }

  /** `vp_yank`. */
  function Yanked(v: View): View
    requires v.cursor <= |v.text|
  {
    var start, end := LineStart(v.text, v.cursor), LineEnd(v.text, v.cursor);
    if end - start <= CLIP_CAP then v.(clip := v.text[start..end]) else v
  }

  /** `vp_cut`: the last line takes the newline before it along. */
  function CutOut(v: View): View
    requires v.cursor <= |v.text|
  {
    var start, end := LineStart(v.text, v.cursor), LineEnd(v.text, v.cursor);
    var from := if end == |v.text| && start > 0 then start - 1 else start;
    if v.text == [] || end - start > CLIP_CAP then v
    else View(v.text[..from] + v.text[if end < |v.text| then end + 1 else end..], from, v.text[start..end])
  }

  /** `vp_paste`. */
  function PastedIn(v: View): View
    requires v.cursor <= |v.text|
  {
    var p, at := UpToNul(v.clip), LineEnd(v.text, v.cursor);
    if p == [] || |v.text| + |p| + 1 > CAP then v
    else if v.text == [] then View(p, 0, v.clip)
    else View(v.text[..at] + [NEWLINE] + p + v.text[at..], at + 1, v.clip)
  }

  /** What a key makes of the text, the cursor and the clipboard, the undo keys apart. */
  function Edited(v: View, c: int, command: bool): View
    requires v.cursor <= |v.text|
  {
    if command then
      if c == KEY_X then Deleted(v, v.cursor)
      else if c == KEY_Y then Yanked(v)
      else if c == KEY_D then CutOut(v)
      else if c == KEY_P then PastedIn(v)
      else v
    else if c == 8 then Deleted(v, v.cursor - 1)
    else if c == 127 then Deleted(v, v.cursor)
    else if Types(c) then Typed(v, Entered(c))
    else v
  }

  lemma ChordsEditNothing(v: View, c: int, command: bool)
    requires v.cursor <= |v.text| && (c == CTRL_S || c == CTRL_O)
    ensures Edited(v, c, command) == v
  {
  }

  lemma Assembled(now: seq<Byte>, a: nat, b: nat, n: nat, x: seq<Byte>, y: seq<Byte>, z: seq<Byte>)
    requires a <= b <= n <= |now| && now[..a] == x && now[a..b] == y && now[b..n] == z
    ensures now[..n] == x + y + z
  {
    ThreeParts(now[..n], a, b);
    assert now[..n][..a] == now[..a] && now[..n][a..b] == now[a..b] && now[..n][b..] == now[b..n];
  }

  lemma PrefixSlice(s: seq<Byte>, n: nat, a: nat, b: nat)
    requires a <= b <= n <= |s|
    ensures s[..n][a..b] == s[a..b]
  {
  }

  lemma TakenApart(s: seq<Byte>, at: nat, n: nat)
    requires at <= n <= |s|
    ensures s[..n][..at] == s[..at] && s[..n][at..] == s[at..n]
  {
  }

  lemma GapGrows(was: seq<Byte>, now: seq<Byte>, i: nat, extra: nat, n: nat)
    requires i < n && n + extra < |was| == |now|
    requires now[..i + 1] == was[..i + 1] && now[i + 1 + extra..n + extra] == was[i + 1..n]
    ensures var next := now[i + extra := now[i]];
            next[..i] == was[..i] && next[i + extra..n + extra] == was[i..n]
  {
    var next := now[i + extra := now[i]];
    assert now[i] == now[..i + 1][i] == was[..i + 1][i] == was[i];
    assert next[i + extra + 1..n + extra] == now[i + 1 + extra..n + extra];
    assert next[i + extra..n + extra] == [now[i]] + next[i + extra + 1..n + extra];
    assert was[i..n] == [was[i]] + was[i + 1..n];
    assert next[..i] == now[..i] == now[..i + 1][..i] == was[..i + 1][..i] == was[..i];
  }

  lemma SlicesOfWhole(now: seq<Byte>, was: seq<Byte>, at: nat, extra: nat, n: nat)
    requires at <= n && n + extra <= |now| == |was|
    requires now[..at] == was[..at] && now[at + extra..n + extra] == was[at..n]
    ensures forall k :: 0 <= k < at ==> now[k] == was[k]
  {
    forall k | 0 <= k < at ensures now[k] == was[k] {
      assert now[k] == now[..at][k];
    }
  }

  lemma Inserted(was: seq<Byte>, now: seq<Byte>, at: nat, n: nat, c: Byte)
    requires at <= n < |was| == |now| && now[at] == c
    requires forall k :: 0 <= k < at ==> now[k] == was[k]
    requires forall k :: at < k <= n ==> now[k] == was[k - 1]
    ensures now[..n + 1] == was[..n][..at] + [c] + was[..n][at..]
  {
  }

  // ---- The files ------------------------------------------------------------------------

  /** A target that is not where the text came from is asked about, once. */
  predicate Asks(filename: Name, origin: Name, confirm: bool) {
    filename != origin && !confirm
  }

  /** The calls of a save: the file is opened, and made if it is missing; the save succeeds exactly if every
      call does, and the last one is then a sync. */
  predicate Stored(before: seq<Call>, after: seq<Call>, filename: Name, ok: bool) {
    && before < after && after[|before|].Opening? && after[|before|].name == filename && after[|before|].create
    && (ok <==> GoodFrom(after, |before|))
    && (ok ==> |after| >= |before| + 4 && after[|after| - 3] == Truncating(true)
               && after[|after| - 2] == Closing(true) && after[|after| - 1] == Syncing(true))
  }

  /** The calls of a save that may have to ask first: if the target is there, nothing but that is found out. */
  predicate Saved(before: seq<Call>, after: seq<Call>, filename: Name, asks: bool, ok: bool, confirm: bool) {
    if asks && confirm then
      !ok && |after| == |before| + 2 && before + [Opening(filename, false, true)] <= after
    else
      !confirm && Stored(if asks then before + [Opening(filename, false, false)] else before, after, filename, ok)
  }

  /** The calls of an open: nothing is made; it succeeds exactly if every call does and the file fits. */
  predicate Fetched(before: seq<Call>, after: seq<Call>, filename: Name, files: map<Name, seq<Byte>>, ok: bool) {
    && before < after && after[|before|].Opening? && after[|before|].name == filename && !after[|before|].create
    && (ok <==> GoodFrom(after, |before|) && filename in files && |files[filename]| <= CAP)
  }

  class Editor {
    const text: array<Byte>
    const undoText: array<Byte>
    const cleanText: array<Byte>
    var len: nat
    var cursor: nat
    var dirty: bool
    var undoLen: nat
    var undoCursor: nat
    var undoValid: bool
    var redo: bool
    var cleanLen: nat
    var clip: seq<Byte>
    var filename: Name
    var origin: Name
    var confirm: bool

    ghost predicate Shape()
      reads this
    {
      && text.Length == undoText.Length == cleanText.Length == CAP + 1
      && text != undoText && text != cleanText && undoText != cleanText
      && cursor <= len <= CAP && undoCursor <= undoLen <= CAP && cleanLen <= CAP
      && |clip| <= CLIP_CAP
    }

    ghost function Text(): seq<Byte>
      requires Shape()
      reads this, text
    {
      text[..len]
    }

    ghost function Now(): View
      requires Shape()
      reads this, text
    {
      View(Text(), cursor, clip)
    }

    ghost function Undone(): seq<Byte>
      requires Shape()
      reads this, undoText
    {
      undoText[..undoLen]
    }

    ghost function Clean(): seq<Byte>
      requires Shape()
      reads this, cleanText
    {
      cleanText[..cleanLen]
    }

    /** A buffer that is not marked dirty equals what was last loaded or saved. */
    ghost predicate Valid()
      reads this, text, undoText, cleanText
    {
      Shape() && (!dirty ==> Text() == Clean())
    }

    constructor (name: Name)
      ensures Valid() && Text() == [] && !dirty && !undoValid
      ensures fresh(text) && fresh(undoText) && fresh(cleanText)
    {
      text := new Byte[CAP + 1](_ => 0);
      undoText := new Byte[CAP + 1](_ => 0);
      cleanText := new Byte[CAP + 1](_ => 0);
      len, cursor, undoLen, undoCursor, cleanLen := 0, 0, 0, 0, 0;
      dirty, undoValid, redo, confirm := false, false, false, false;
      clip, filename, origin := [], name, [];
    }

    /** `vp_checkpoint`: remember the text and the cursor in the undo slot. */
    method Checkpoint()
      requires Valid()
      modifies this`undoLen, this`undoCursor, this`undoValid, this`redo, undoText
      ensures Valid()
      ensures Undone() == Text() && undoCursor == cursor && undoValid && !redo
    {
      for i := 0 to len
        modifies undoText
        invariant undoText[..i] == text[..i]
      {
        undoText[i] := text[i];
      }
      undoLen, undoCursor, undoValid, redo := len, cursor, true, false;
    }

    /** `vp_mark_clean`: the text agrees with the disk. */
    method MarkClean()
      requires Shape()
      modifies this`cleanLen, this`dirty, cleanText
      ensures Valid() && Clean() == Text() && !dirty
    {
      for i := 0 to len
        modifies cleanText
        invariant cleanText[..i] == text[..i]
      {
        cleanText[i] := text[i];
      }
      cleanLen, dirty := len, false;
    }

    method MatchesClean() returns (same: bool)
      requires Shape()
      ensures same <==> Text() == Clean()
    {
      if len != cleanLen {
        return false;
      }
      for i := 0 to len
        invariant text[..i] == cleanText[..i]
      {
        if text[i] != cleanText[i] {
          assert Text()[i] != Clean()[i];
          return false;
        }
      }
      same := true;
    }

    /** `vp_undo`: exchange the text and the undo slot, if the slot is on the asked-for side. */
    method Undo(again: bool) returns (done: bool)
      requires Valid()
      modifies this`len, this`cursor, this`undoLen, this`undoCursor, this`redo, this`dirty, text, undoText
      ensures Valid()
      ensures done <==> old(undoValid && redo == again)
      ensures done ==> Text() == old(Undone()) && Undone() == old(Text())
      ensures done ==> cursor == old(undoCursor) && undoCursor == old(cursor) && redo == !again
      ensures done ==> (dirty <==> Text() != Clean())
      ensures !done ==> Text() == old(Text()) && Undone() == old(Undone()) && dirty == old(dirty) && redo == old(redo)
                        && cursor == old(cursor) && undoCursor == old(undoCursor)
    {
      if !undoValid || redo != again {
        return false;
      }
      var max := if len > undoLen then len else undoLen;
      for i := 0 to max + 1
        modifies text, undoText
        invariant forall k :: 0 <= k < i ==> text[k] == old(undoText[k]) && undoText[k] == old(text[k])
        invariant forall k :: i <= k <= CAP ==> text[k] == old(text[k]) && undoText[k] == old(undoText[k])
      {
        text[i], undoText[i] := undoText[i], text[i];
      }
      len, undoLen := undoLen, len;
      cursor, undoCursor := undoCursor, cursor;
      redo := !again;
      assert Text() == old(Undone()) && Undone() == old(Text());
      var same := MatchesClean();
      dirty := !same;
      done := true;
    }

    /** `vp_insert`. */
    method Insert(c: Byte) returns (ok: bool)
      requires Valid()
      modifies this`len, this`cursor, this`dirty, text
      ensures Valid()
      ensures ok <==> old(len) < CAP
      ensures ok ==> Text() == old(Text()[..cursor]) + [c] + old(Text()[cursor..]) && cursor == old(cursor) + 1 && dirty
      ensures !ok ==> Text() == old(Text()) && cursor == old(cursor) && dirty == old(dirty)
      ensures Now() == Typed(old(Now()), c)
    {
      if len >= CAP {
        return false;
      }
      var i := len;
      while i > cursor
        modifies text
        invariant cursor <= i <= len
        invariant forall k :: 0 <= k < i ==> text[k] == old(text[k])
        invariant forall k :: i < k <= len ==> text[k] == old(text[k - 1])
      {
        text[i] := text[i - 1];
        i := i - 1;
      }
      text[cursor] := c;
      Inserted(old(text[..]), text[..], cursor, len, c);
      cursor, len, dirty := cursor + 1, len + 1, true;
      ok := true;
    }

    /** Close the gap of `n` bytes at `at`. */
    method Remove(at: nat, n: nat)
      requires Shape() && at + n <= len
      modifies this`len, this`cursor, this`dirty, text
      ensures Valid() && cursor == at && dirty && len == old(len) - n
      ensures Text() == old(Text()[..at]) + old(Text()[at + n..])
    {
      var i := at;
      while i + n < len
        modifies text
        invariant at <= i && i + n <= len
        invariant forall k :: 0 <= k < at ==> text[k] == old(text[k])
        invariant forall k :: at <= k < i ==> text[k] == old(text[k + n])
        invariant forall k :: i <= k <= CAP ==> text[k] == old(text[k])
      {
        text[i] := text[i + n];
        i := i + 1;
      }
      len, cursor, dirty := len - n, at, true;
    }

    /** `vp_delete`: the byte before or behind the cursor. */
    method Delete(back: bool)
      requires Valid()
      modifies this`len, this`cursor, this`dirty, text
      ensures Valid()
      ensures len == old(len) - (if 0 <= (if back then old(cursor) - 1 else old(cursor)) < old(len) then 1 else 0)
      ensures var at := if back then old(cursor) - 1 else old(cursor);
              if 0 <= at < old(len) then Text() == old(Text())[..at] + old(Text())[at + 1..] && cursor == at && dirty
              else Text() == old(Text()) && cursor == old(cursor) && dirty == old(dirty)
      ensures Now() == Deleted(old(Now()), if back then old(cursor) - 1 else old(cursor))
    {
      if back {
        if cursor > 0 {
          Remove(cursor - 1, 1);
        }
      } else if cursor < len {
        Remove(cursor, 1);
      }
    }

    /** `vp_yank`: the cursor line goes to the clipboard, whole or not at all. */
    method Yank() returns (ok: bool)
      requires Valid()
      modifies this`clip
      ensures Valid()
      ensures ok <==> LineEnd(Text(), cursor) - LineStart(Text(), cursor) <= CLIP_CAP
      ensures clip == if ok then Text()[LineStart(Text(), cursor)..LineEnd(Text(), cursor)] else old(clip)
      ensures Now() == Yanked(old(Now()))
    {
      hide LineStart, LineEnd;
      var start, end := LineStart(text[..len], cursor), LineEnd(text[..len], cursor);
      ok := end - start <= CLIP_CAP;
      if ok {
        clip := text[start..end];
        PrefixSlice(text[..], len, start, end);
      }
    }

    /** What `vp_cut` removes: the cursor line and one newline next to it. */
    ghost function CutFrom(): nat
      requires Shape()
      reads this, text
    {
      var start, end := LineStart(Text(), cursor), LineEnd(Text(), cursor);
      if end == len && start > 0 then start - 1 else start
    }

    ghost function CutTo(): nat
      requires Shape()
      reads this, text
    {
      var end := LineEnd(Text(), cursor);
      if end < len then end + 1 else end
    }

    ghost predicate CanCut()
      requires Shape()
      reads this, text
    {
      len > 0 && LineEnd(Text(), cursor) - LineStart(Text(), cursor) <= CLIP_CAP
    }

    /** `vp_cut`. */
    method Cut()
      requires Valid()
      modifies this`len, this`cursor, this`dirty, this`clip, text
      ensures Valid()
      ensures old(CanCut()) ==>
                && Text() == old(Text()[..CutFrom()]) + old(Text()[CutTo()..])
                && clip == old(Text()[LineStart(Text(), cursor)..LineEnd(Text(), cursor)])
                && cursor == old(CutFrom()) && dirty && len < old(len)
      ensures !old(CanCut()) ==>
                Text() == old(Text()) && cursor == old(cursor) && dirty == old(dirty) && clip == old(clip)
      ensures Now() == CutOut(old(Now()))
    {
      hide LineStart, LineEnd;
      if len == 0 {
        return;
      }
      var ok := Yank();
      if !ok {
        return;
      }
      var start, end := LineStart(text[..len], cursor), LineEnd(text[..len], cursor);
      if end < len {
        end := end + 1;
      } else if start > 0 {
        start := start - 1;
      }
      Remove(start, end - start);
    }

    /** The clipboard up to its terminator. */
    function Pasted(): seq<Byte>
      reads this`clip
    {
      UpToNul(clip)
    }

    predicate CanPaste()
      reads this`clip, this`len
    {
      Pasted() != [] && len + |Pasted()| + 1 <= CAP
    }

    /** Move the text from `at` on up by `extra` bytes. */
    method OpenGap(at: nat, extra: nat)
      requires Shape() && at <= len && len + extra <= CAP
      modifies text
      ensures text[..at] == old(text[..at]) && text[at + extra..len + extra] == old(text[at..len])
    {
      ghost var was := text[..];
      var i := len;
      while i > at
        invariant at <= i <= len
        invariant text[..][..i] == was[..i] && text[..][i + extra..len + extra] == was[i..len]
      {
        ghost var now := text[..];
        i := i - 1;
        text[i + extra] := text[i];
        assert text[..] == now[i + extra := now[i]];
        GapGrows(was, now, i, extra, len);
      }
      SlicesOfWhole(text[..], was, at, extra, len);
    }

    method InsertLine(at: nat, line: seq<Byte>)
      requires Shape() && at <= len && len + |line| <= CAP
      modifies this`len, text
      ensures Shape() && len == old(len) + |line|
      ensures Text() == old(Text()[..at]) + line + old(Text()[at..])
    {
      OpenGap(at, |line|);
      for i := 0 to |line|
        modifies text
        invariant text[..at] == old(text[..at]) && text[at..at + i] == line[..i]
        invariant text[at + |line|..len + |line|] == old(text[at..len])
      {
        text[at + i] := line[i];
      }
      Assembled(text[..], at, at + |line|, len + |line|, old(text[..at]), line, old(text[at..len]));
      TakenApart(old(text[..]), at, old(len));
      len := len + |line|;
    }

    /** `vp_paste`: the clipboard becomes a new line below the cursor line. */
    method Paste()
      requires Valid()
      modifies this`len, this`cursor, this`dirty, text
      ensures Valid()
      ensures old(CanPaste()) ==>
                var at := old(LineEnd(Text(), cursor));
                && Text() == old(Text()[..at]) + ((if old(len) > 0 then [NEWLINE] else []) + Pasted())
                  + old(Text()[at..])
                && dirty && len > old(len) && cursor == at + if old(len) > 0 then 1 else 0
      ensures !old(CanPaste()) ==> Text() == old(Text()) && cursor == old(cursor) && dirty == old(dirty)
      ensures Now() == PastedIn(old(Now()))
    {
      hide LineEnd, UpToNul;
      var p := Pasted();
      if p == [] || len + |p| + 1 > CAP {
        return;
      }
      var at := LineEnd(text[..len], cursor);
      var line := (if len > 0 then [NEWLINE] else []) + p;
      InsertLine(at, line);
      cursor := at + if len > |line| then 1 else 0;
      dirty := true;
    }

    /** Whether `vp_key` takes a checkpoint before it acts on the text. */
    predicate Mutating(c: int, command: bool)
      reads this`cursor, this`len, this`clip
    {
      if command then c == KEY_X || c == KEY_D || (c == KEY_P && clip != [] && clip[0] != 0)
      else (c == 8 && cursor > 0) || (c == 127 && cursor < len) || Types(c)
    }

    /** A checkpoint is taken although the key then changes nothing: a forward delete at the end, a
        cut of nothing or of a line too long, a paste or a typed byte that does not fit. */
    ghost predicate LosesUndo(c: int, command: bool)
      requires Shape()
      reads this, text
    {
      if command then
        || (c == KEY_X && cursor == len)
        || (c == KEY_D && !CanCut())
        || (c == KEY_P && clip != [] && clip[0] != 0 && !CanPaste())
      else Types(c) && len == CAP
    }

    /** `vp_key` with the text in focus, for the keys that edit. */
    method Key(c: int, command: bool)
      requires Valid()
      modifies this`len, this`cursor, this`dirty, this`clip, this`confirm
      modifies this`undoLen, this`undoCursor, this`undoValid, this`redo, text, undoText
      ensures Valid()
      ensures IsUndoKey(c, command) && old(undoValid && redo == IsRedo(c)) ==>
                Text() == old(Undone()) && Undone() == old(Text()) && cursor == old(undoCursor) && redo == !IsRedo(c)
      ensures IsUndoKey(c, command) && !old(undoValid && redo == IsRedo(c)) ==>
                Now() == old(Now()) && Undone() == old(Undone()) && redo == old(redo)
      ensures IsUndoKey(c, command) ==> undoValid == old(undoValid)
      ensures !IsUndoKey(c, command) && Text() != old(Text()) ==>
                undoValid && !redo && Undone() == old(Text()) && undoCursor == old(cursor) && dirty
      ensures !IsUndoKey(c, command) && Text() == old(Text()) && !old(LosesUndo(c, command)) ==>
                undoValid == old(undoValid) && redo == old(redo)
                && Undone() == old(Undone()) && undoCursor == old(undoCursor)
      ensures !IsUndoKey(c, command) && old(LosesUndo(c, command)) ==>
                Text() == old(Text()) && undoValid && !redo && Undone() == Text()
      ensures !command && Types(c) && old(len) < CAP ==>
                Text() == old(Text()[..cursor]) + [Entered(c)] + old(Text()[cursor..]) && cursor == old(cursor) + 1
      ensures !IsUndoKey(c, command) ==> Now() == Edited(old(Now()), c, command)
      ensures confirm == (old(confirm) && (c == 19 || c == 15 || (command && c == 115)))
    {
      hide LineStart, LineEnd, Edited, CutOut, PastedIn, Deleted, Typed, Yanked;
      if c == CTRL_S || c == CTRL_O {
        ChordsEditNothing(Now(), c, command);
        return;
      }
      if IsUndoKey(c, command) {
        confirm := false;
        var done := Undo(IsRedo(c));
        return;
      }
      if Mutating(c, command) {
        Checkpoint();
      }
      if !(command && c == KEY_S) {
        confirm := false;
      }
      Edit(c, command);
      assert len != old(len) ==> Text() != old(Text());
    }

    /** The text changes exactly when the key edits and can act. */
    method Edit(c: int, command: bool)
      requires Valid() && !IsUndoKey(c, command)
      modifies this`len, this`cursor, this`dirty, this`clip, text
      ensures Valid()
      ensures old(Mutating(c, command) && !LosesUndo(c, command)) ==> len != old(len) && dirty
      ensures !old(Mutating(c, command) && !LosesUndo(c, command)) ==> Text() == old(Text())
      ensures !command && Types(c) && old(len) < CAP ==>
                Text() == old(Text()[..cursor]) + [Entered(c)] + old(Text()[cursor..]) && cursor == old(cursor) + 1
      ensures Now() == Edited(old(Now()), c, command)
    {
      hide Mutating, LosesUndo, Edited;
      if command {
        EditCommand(c);
      } else {
        EditTyped(c);
      }
    }

    method EditTyped(c: int)
      requires Valid()
      modifies this`len, this`cursor, this`dirty, text
      ensures Valid()
      ensures old(Mutating(c, false) && !LosesUndo(c, false)) ==> len != old(len) && dirty
      ensures !old(Mutating(c, false) && !LosesUndo(c, false)) ==> Text() == old(Text())
      ensures Types(c) && old(len) < CAP ==>
                Text() == old(Text()[..cursor]) + [Entered(c)] + old(Text()[cursor..]) && cursor == old(cursor) + 1
      ensures Now() == Edited(old(Now()), c, false)
    {
      hide Typed, Deleted, Yanked, CutOut, PastedIn, LineStart, LineEnd;
      if c == 8 {
        Delete(true);
      } else if c == 127 {
        Delete(false);
      } else if Types(c) {
        var ok := Insert(Entered(c));
      }
    }

    method EditCommand(c: int)
      requires Valid()
      modifies this`len, this`cursor, this`dirty, this`clip, text
      ensures Valid()
      ensures old(Mutating(c, true) && !LosesUndo(c, true)) ==> len != old(len) && dirty
      ensures !old(Mutating(c, true) && !LosesUndo(c, true)) ==> Text() == old(Text())
      ensures Now() == Edited(old(Now()), c, true)
    {
      hide Typed, Deleted, Yanked, CutOut, PastedIn, LineStart, LineEnd;
      if c == KEY_X {
        Delete(false);
      } else if c == KEY_Y {
        var ok := Yank();
      } else if c == KEY_D {
        Cut();
      } else if c == KEY_P {
        Paste();
      }
    }

    /** The write loop of `vp_save`: as many partial writes as it takes. */
    method WriteAll(io: Io) returns (ok: bool)
      requires Shape() && filename in io.files
      modifies io
      ensures filename in io.files && io.files.Keys == old(io.files).Keys
      ensures forall f :: f in io.files && f != filename ==> io.files[f] == old(io.files)[f]
      ensures ok ==> |io.files[filename]| >= len && io.files[filename][..len] == Text()
      ensures old(io.log) <= io.log && (ok <==> GoodFrom(io.log, |old(io.log)|))
    {
      var n := 0;
      while n < len
        invariant n <= len && filename in io.files && io.files.Keys == old(io.files).Keys
        invariant forall f :: f in io.files && f != filename ==> io.files[f] == old(io.files)[f]
        invariant |io.files[filename]| >= n && io.files[filename][..n] == text[..n]
        invariant old(io.log) <= io.log && GoodFrom(io.log, |old(io.log)|)
      {
        var want := if len - n > IO_CHUNK then IO_CHUNK else len - n;
        ghost var log := io.log;
        var r := io.Write(filename, n, text[n..n + want]);
        OneMoreCall(log, Writing(0 < r <= want), |old(io.log)|);
        if r <= 0 || r > want {
          return false;
        }
        SliceOfSlice(text[..], n, want, 0, r);
        assert text[n..n + want] == text[..][n..n + want] && text[n..n + r] == text[..][n..n + r];
        assert text[..n] + text[n..n + r] == text[..n + r];
        n := n + r;
      }
      ok := true;
    }

    /** The file part of `vp_save`, from the opening that may create the file on. */
    method Store(io: Io) returns (ok: bool)
      requires Shape()
      modifies io
      ensures ok ==> io.files == old(io.files)[filename := Text()]
      ensures forall f :: f in old(io.files) && f != filename ==> f in io.files && io.files[f] == old(io.files)[f]
      ensures Stored(old(io.log), io.log, filename, ok)
    {
      hide GoodFrom;
      assert GoodFrom(old(io.log), |old(io.log)|) by { NoCalls(old(io.log)); }
      ok := io.Open(filename, true);
      OneMoreCall(old(io.log), Opening(filename, true, ok), |old(io.log)|);
      if !ok {
        return;
      }
      ghost var begun := io.log;
      ok := WriteAll(io);
      GoodContinues(begun, io.log, |old(io.log)|);
      ghost var written := io.log;
      if ok {
        ok := io.Truncate(filename, len);
        OneMoreCall(written, Truncating(ok), |old(io.log)|);
      }
      ghost var cut := io.log;
      ok := CloseAndSync(io, ok);
      GoodContinues(cut, io.log, |old(io.log)|);
    }

    method CloseAndSync(io: Io, stored: bool) returns (ok: bool)
      modifies io
      ensures io.files == old(io.files) && old(io.log) < io.log
      ensures ok ==> stored && io.log == old(io.log) + [Closing(true), Syncing(true)]
      ensures stored ==> (ok <==> GoodFrom(io.log, |old(io.log)|))
    {
      var closed := io.Close();
      OneMoreCall(old(io.log), Closing(closed), |old(io.log)|);
      ok := stored && closed;
      if ok {
        ghost var shut := io.log;
        ok := io.Sync();
        OneMoreCall(shut, Syncing(ok), |old(io.log)|);
      }
    }

    /** Look for a target that has to be asked about. */
    method Probe(io: Io) returns (there: bool)
      modifies io
      ensures io.files == old(io.files) && (there ==> Asks(filename, origin, confirm))
      ensures Asks(filename, origin, confirm) ==>
                (there <==> old(io.script) != [] && old(io.script)[0] >= 0 && filename in old(io.files))
      ensures if !Asks(filename, origin, confirm) then io.log == old(io.log)
              else if !there then io.log == old(io.log) + [Opening(filename, false, false)]
              else |io.log| == |old(io.log)| + 2 && old(io.log) + [Opening(filename, false, true)] <= io.log
    {
      there := false;
      if !confirm && filename != origin {
        there := io.Open(filename, false);
        if there {
          var closed := io.Close();
        }
      }
    }

    /** `vp_save`: 1 only when the file holds exactly the text, whatever the partial writes were. A
        target that exists and is not where the text came from is asked about first. */
    method Save(io: Io) returns (ok: bool)
      requires Valid()
      modifies this`confirm, this`origin, this`cleanLen, this`dirty, cleanText, io
      ensures Valid()
      ensures ok ==> filename != [] && io.files == old(io.files)[filename := Text()]
      ensures ok ==> !dirty && origin == filename && !confirm
      ensures !ok ==> dirty == old(dirty) && Clean() == old(Clean()) && origin == old(origin)
      ensures !ok && confirm ==> io.files == old(io.files)
      ensures if filename == [] then !ok && !confirm && io.log == old(io.log)
              else Saved(old(io.log), io.log, filename, Asks(filename, old(origin), old(confirm)), ok, confirm)
      ensures (filename in old(io.files) && filename != old(origin) && !old(confirm) && filename != []
               && old(io.script) != [] && old(io.script)[0] >= 0) ==> !ok && confirm
      ensures forall f :: f in old(io.files) && f != filename ==> f in io.files && io.files[f] == old(io.files)[f]
    {
      hide Stored, GoodFrom;
      if filename == [] {
        confirm := false;
        return false;
      }
      var there := Probe(io);
      if there {
        confirm := true;
        return false;
      }
      confirm := false;
      ok := Store(io);
      if ok {
        MarkClean();
        origin := filename;
      }
    }

    /** The read loop of `vp_open`, into the staging buffer. */
    method ReadAll(io: Io, staging: array<Byte>) returns (n: nat, ok: bool)
      requires filename in io.files && staging.Length == CAP + 1
      modifies staging, io`script, io`log
      ensures ok ==> n <= CAP && staging[..n] == io.files[filename]
      ensures old(io.log) <= io.log
      ensures ok <==> GoodFrom(io.log, |old(io.log)|) && |io.files[filename]| <= CAP
    {
      n := 0;
      while true
        invariant n <= CAP && n <= |io.files[filename]| && staging[..n] == io.files[filename][..n]
        invariant old(io.log) <= io.log && GoodFrom(io.log, |old(io.log)|)
        decreases CAP - n
      {
        var want := if CAP + 1 - n > IO_CHUNK then IO_CHUNK else CAP + 1 - n;
        ghost var log := io.log;
        var r, data := io.Read(filename, n, want);
        OneMoreCall(log, Reading(0 <= r <= want), |old(io.log)|);
        if r < 0 || r > want {
          return n, false;
        }
        if r == 0 {
          return n, true;
        }
        CopyInto(staging, n, data);
        assert io.files[filename][..n] + data == io.files[filename][..n + r];
        n := n + r;
        if n > CAP {
          return n, false;
        }
      }
    }

    /** The file part of `vp_open`. */
    method Fetch(io: Io, staging: array<Byte>) returns (n: nat, ok: bool)
      requires staging.Length == CAP + 1
      modifies staging, io
      ensures io.files == old(io.files)
      ensures ok ==> filename in io.files && n <= CAP && staging[..n] == io.files[filename]
      ensures Fetched(old(io.log), io.log, filename, io.files, ok)
    {
      n := 0;
      ok := io.Open(filename, false);
      OneMoreCall(old(io.log), Opening(filename, false, ok), |old(io.log)|);
      if ok {
        ghost var begun := io.log;
        n, ok := ReadAll(io, staging);
        GoodContinues(begun, io.log, |old(io.log)|);
        ghost var read := io.log;
        var closed := io.Close();
        OneMoreCall(read, Closing(closed), |old(io.log)|);
        ok := ok && closed;
      }
    }

    /** `vp_open`: 1 only when the text is exactly the file; 0 leaves the buffer as it was. */
    method Load(io: Io, staging: array<Byte>) returns (ok: bool)
      requires Valid() && staging.Length == CAP + 1
      requires staging != text && staging != cleanText && staging != undoText
      modifies this`len, this`cursor, this`dirty, this`undoValid, this`cleanLen, this`confirm, this`origin
      modifies text, cleanText, staging, io
      ensures Valid() && io.files == old(io.files)
      ensures ok ==> !old(dirty) && filename in io.files && Text() == io.files[filename] && Clean() == Text()
      ensures ok ==> !dirty && cursor == 0 && !undoValid && origin == filename
      ensures !ok ==> Text() == old(Text()) && Clean() == old(Clean()) && cursor == old(cursor)
                      && dirty == old(dirty) && undoValid == old(undoValid) && origin == old(origin)
      ensures !confirm
      ensures if old(dirty) || filename == [] then !ok && io.log == old(io.log)
              else Fetched(old(io.log), io.log, filename, io.files, ok)
    {
      hide Fetched, GoodFrom;
      confirm := false;
      if dirty || filename == [] {
        return false;
      }
      var n;
      n, ok := Fetch(io, staging);
      if !ok {
        return;
      }
      SetText(staging, n);
      undoValid := false;
      MarkClean();
      origin := filename;
    }

    /** Replace the text by the first `n` staged bytes. */
    method SetText(staging: array<Byte>, n: nat)
      requires Shape() && n <= CAP && staging.Length == CAP + 1 && staging != text
      modifies this`len, this`cursor, text
      ensures Shape() && Text() == staging[..n] && cursor == 0 && text[len] == 0
    {
      for i := 0 to n
        modifies text
        invariant text[..i] == staging[..i]
      {
        text[i] := staging[i];
      }
      text[n] := 0;
      len, cursor := n, 0;
    }
  }

  /** Undo and then redo: in between the text is that of the undo slot; then text, length and cursor are
      back, and so is the undo slot. */
  method UndoThenRedo(e: Editor) returns (undone: bool, ghost between: seq<Byte>, redone: bool)
    requires e.Valid() && e.undoValid && !e.redo
    modifies e, e.text, e.undoText
    ensures undone && between == old(e.Undone())
    ensures redone && e.Valid() && !e.redo
    ensures e.Text() == old(e.Text()) && e.cursor == old(e.cursor)
    ensures e.Undone() == old(e.Undone()) && e.undoCursor == old(e.undoCursor)
  {
    undone := e.Undo(false);
    between := e.Text();
    redone := e.Undo(true);
  }

  /** A forward delete behind the last byte costs the undo history: one byte is typed into a fresh
      buffer, then `x` is pressed as a command, then undo. The byte is still there; without the `x` it
      would have gone. */
  method DeleteAtEndCostsUndo(name: Name, stray: bool)
    returns (e: Editor, ghost start: seq<Byte>, ghost typed: seq<Byte>, ghost deleted: seq<Byte>)
    ensures start == [] && typed == [KEY_X] && deleted == [KEY_X]
    ensures e.Valid() && e.Text() == if stray then [KEY_X] else []
  {
    hide Edited, Typed, Deleted, Yanked, CutOut, PastedIn, LineStart, LineEnd;
    e := new Editor(name);
    start := e.Text();
    e.Key(KEY_X, false);
    typed := e.Text();
    if stray {
      e.Key(KEY_X, true);
    }
    deleted := e.Text();
    e.Key(26, true);
  }

  /** One buffer saves, another opens that file: if both report success, they hold the same text, which is
      what the file held in between, whatever the partial reads and writes were. A failed open leaves the
      other buffer as it was. */
  method SaveThenOpen(a: Editor, b: Editor, io: Io, staging: array<Byte>)
    returns (saved: bool, ghost between: map<Name, seq<Byte>>, loaded: bool)
    requires a.Valid() && b.Valid() && a.filename == b.filename && staging.Length == CAP + 1
    requires a != b && {a.text, a.undoText, a.cleanText} !! {b.text, b.undoText, b.cleanText}
    requires staging !in {a.text, a.undoText, a.cleanText, b.text, b.undoText, b.cleanText}
    modifies a, b, a.cleanText, b.text, b.cleanText, staging, io
    ensures a.Valid() && b.Valid()
    ensures a.Text() == old(a.Text())
    ensures saved ==> a.filename in between && between[a.filename] == a.Text() && !a.dirty
    ensures loaded ==> b.filename in between && b.Text() == between[b.filename] && !b.dirty
    ensures !loaded ==> b.Text() == old(b.Text())
    ensures saved && loaded ==> b.Text() == a.Text()
  {
    saved := a.Save(io);
    between := io.files;
    loaded := b.Load(io, staging);
  }
}
