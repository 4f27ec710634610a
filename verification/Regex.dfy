/** The editor's regular expressions: what a match is, the tagged automaton that looks for one, and
    the proof that it finds the leftmost longest match although each automaton state remembers only
    the earliest start. */
module Regex {
  import opened Bytes

  datatype Quant = One | Opt | Star | Plus

  /** A set of bytes and how often it repeats. */
  datatype Atom = Atom(bits: set<Byte>, quant: Quant)

  datatype Regex = Regex(atoms: seq<Atom>, bol: bool, eol: bool)

  datatype Found = NoMatch | Match(start: nat, end: nat)

  // ---- What a match is ------------------------------------------------------------------

  predicate Times(q: Quant, k: nat) {
    match q
    case One => k == 1
    case Opt => k <= 1
    case Star => true
    case Plus => k >= 1
  }

  predicate AllIn(s: seq<Byte>, m: nat, b: nat, bits: set<Byte>)
    requires b <= |s|
  {
    forall j :: m <= j < b ==> s[j] in bits
  }

  /** `s[m..b)` is the share of atom number `i`, counted from 1. */
  predicate Piece(atoms: seq<Atom>, i: nat, s: seq<Byte>, m: nat, b: nat)
    requires 0 < i <= |atoms| && m <= b <= |s|
  {
    Times(atoms[i - 1].quant, b - m) && AllIn(s, m, b, atoms[i - 1].bits)
  }

  /** The first `i` atoms match `s[a..b)`: the text is cut into `i` pieces in a row, each made of
      bytes of its atom, as many as the quantifier allows. */
  ghost predicate Lang(atoms: seq<Atom>, s: seq<Byte>, i: nat, a: nat, b: nat)
    requires i <= |atoms| && b <= |s|
  {
    if i == 0 then a == b
    else exists m :: a <= m <= b && Piece(atoms, i, s, m, b) && Lang(atoms, s, i - 1, a, m)
  }

  lemma OneAtom(atom: Atom, s: seq<Byte>, a: nat, b: nat)
    requires b <= |s|
    ensures Lang([atom], s, 1, a, b) <==> a <= b && Times(atom.quant, b - a) && AllIn(s, a, b, atom.bits)
  {
    if a <= b && Times(atom.quant, b - a) && AllIn(s, a, b, atom.bits) {
      assert Piece([atom], 1, s, a, b) && Lang([atom], s, 0, a, a);
    }
  }

  predicate StartOk(r: Regex, s: seq<Byte>, a: nat)
    requires a <= |s|
  {
    r.bol ==> a == 0 || s[a - 1] == NEWLINE
  }

  predicate EndOk(r: Regex, s: seq<Byte>, b: nat)
    requires b <= |s|
  {
    r.eol ==> b == |s| || s[b] == NEWLINE
  }

  ghost predicate IsMatch(r: Regex, s: seq<Byte>, from: nat, a: nat, b: nat) {
    from <= a <= b <= |s| && StartOk(r, s, a) && EndOk(r, s, b) && Lang(r.atoms, s, |r.atoms|, a, b)
  }

  /** The smallest start, and for that start the largest end. */
  ghost predicate LeftmostLongest(r: Regex, s: seq<Byte>, from: nat, f: Found) {
    match f
    case NoMatch => forall a: nat, b: nat :: !IsMatch(r, s, from, a, b)
    case Match(a, b) =>
      && IsMatch(r, s, from, a, b)
      && forall a': nat, b': nat :: IsMatch(r, s, from, a', b') ==> a < a' || (a == a' && b' <= b)
  }

  lemma LeftmostLongestIsUnique(r: Regex, s: seq<Byte>, from: nat, f: Found, g: Found)
    requires LeftmostLongest(r, s, from, f) && LeftmostLongest(r, s, from, g)
    ensures f == g
  {
    if f.Match? {
      assert IsMatch(r, s, from, f.start, f.end);
    }
    if g.Match? {
      assert IsMatch(r, s, from, g.start, g.end);
    }
  }

  // ---- The automaton for one start ------------------------------------------------------

  predicate Nullable(a: Atom) { a.quant == Opt || a.quant == Star }
  predicate Repeats(a: Atom) { a.quant == Star || a.quant == Plus }

  /** State `i` is entered at `pos` by reading a byte, or at the start. */
  ghost predicate Enter(atoms: seq<Atom>, s: seq<Byte>, a: nat, i: nat, pos: nat)
    requires i <= |atoms| && pos <= |s|
    decreases pos, i, 0
  {
    || (pos == a && i == 0)
    || (pos > a && i > 0 && s[pos - 1] in atoms[i - 1].bits && Reach(atoms, s, a, i - 1, pos - 1))
    || (pos > a && i < |atoms| && Repeats(atoms[i]) && s[pos - 1] in atoms[i].bits && Reach(atoms, s, a, i, pos - 1))
  }

  /** State `i` is live at `pos` for the start `a`. */
  ghost predicate Reach(atoms: seq<Atom>, s: seq<Byte>, a: nat, i: nat, pos: nat)
    requires i <= |atoms| && pos <= |s|
    decreases pos, i, 1
  {
    Enter(atoms, s, a, i, pos) || (i > 0 && Nullable(atoms[i - 1]) && Reach(atoms, s, a, i - 1, pos))
  }

  /** `i` atoms matched up to `m`, and the rest up to `pos` belongs to the next, repeating atom. */
  ghost predicate PartAt(atoms: seq<Atom>, s: seq<Byte>, a: nat, i: nat, pos: nat, m: nat)
    requires i <= |atoms| && pos <= |s|
  {
    && a <= m <= pos && Lang(atoms, s, i, a, m)
    && (m == pos || (i < |atoms| && Repeats(atoms[i]) && AllIn(s, m, pos, atoms[i].bits)))
  }

  lemma {:induction false} ReachHasPart(atoms: seq<Atom>, s: seq<Byte>, a: nat, i: nat, pos: nat) returns (m: nat)
    requires i <= |atoms| && pos <= |s| && Reach(atoms, s, a, i, pos)
    ensures PartAt(atoms, s, a, i, pos, m)
    decreases pos, i
  {
    if pos == a && i == 0 {
      m := a;
    } else if i > 0 && Nullable(atoms[i - 1]) && Reach(atoms, s, a, i - 1, pos) {
      var k := ReachHasPart(atoms, s, a, i - 1, pos);
      assert Piece(atoms, i, s, k, pos);
      m := pos;
    } else if pos > a && i > 0 && s[pos - 1] in atoms[i - 1].bits && Reach(atoms, s, a, i - 1, pos - 1) {
      var k := ReachHasPart(atoms, s, a, i - 1, pos - 1);
      assert Piece(atoms, i, s, k, pos);
      m := pos;
    } else {
      m := ReachHasPart(atoms, s, a, i, pos - 1);
    }
  }

  lemma {:induction false} PartIsReached(atoms: seq<Atom>, s: seq<Byte>, a: nat, i: nat, pos: nat, m: nat)
    requires i <= |atoms| && pos <= |s| && PartAt(atoms, s, a, i, pos, m)
    ensures Reach(atoms, s, a, i, pos)
    decreases pos, i
  {
    if m < pos {
      PartIsReached(atoms, s, a, i, pos - 1, m);
      assert Enter(atoms, s, a, i, pos);
    } else if i == 0 {
      assert Enter(atoms, s, a, i, pos);
    } else {
      var k :| a <= k <= pos && Piece(atoms, i, s, k, pos) && Lang(atoms, s, i - 1, a, k);
      if k == pos {
        PartIsReached(atoms, s, a, i - 1, pos, k);
      } else {
        PartIsReached(atoms, s, a, i - 1, pos - 1, k);
        assert Enter(atoms, s, a, i, pos);
      }
    }
  }

  /** The automaton accepts exactly the language of the atoms. */
  lemma AutomatonAccepts(atoms: seq<Atom>, s: seq<Byte>, a: nat, b: nat)
    requires b <= |s|
    ensures Reach(atoms, s, a, |atoms|, b) <==> a <= b && Lang(atoms, s, |atoms|, a, b)
  {
    if Reach(atoms, s, a, |atoms|, b) {
      var m := ReachHasPart(atoms, s, a, |atoms|, b);
    }
    if a <= b && Lang(atoms, s, |atoms|, a, b) {
      PartIsReached(atoms, s, a, |atoms|, b, b);
    }
  }

  /** A start that is still going to match later is live in a state that can read on. */
  lemma {:induction false} StillLive(atoms: seq<Atom>, s: seq<Byte>, a: nat, i: nat, pos: nat, at: nat) returns (j: nat)
    requires i <= |atoms| && a <= at < pos <= |s| && Reach(atoms, s, a, i, pos)
    ensures j < |atoms| && Reach(atoms, s, a, j, at)
    decreases pos, i
  {
    if i > 0 && Nullable(atoms[i - 1]) && Reach(atoms, s, a, i - 1, pos) {
      j := StillLive(atoms, s, a, i - 1, pos, at);
    } else {
      assert Enter(atoms, s, a, i, pos);
      j := if i > 0 && s[pos - 1] in atoms[i - 1].bits && Reach(atoms, s, a, i - 1, pos - 1) then i - 1 else i;
      if at < pos - 1 {
        j := StillLive(atoms, s, a, j, pos - 1, at);
      }
    }
  }

  // ---- Earliest starts ------------------------------------------------------------------

  const NONE: int := -1

  function Earlier(x: int, y: int): int {
    if x < 0 then y else if y < 0 then x else if x < y then x else y
  }

  /** Start `a` is live at `pos` in state `i`: in phase 0 by the bytes read alone, in phase 1 with
      the start injected at `pos` as well, in phase 2 after skipping optional atoms. */
  ghost predicate Live(r: Regex, s: seq<Byte>, from: nat, i: nat, pos: nat, phase: nat, a: int)
    requires i <= |r.atoms| && pos <= |s|
  {
    && from <= a <= pos && StartOk(r, s, a)
    && (phase == 0 ==> a < pos && Enter(r.atoms, s, a, i, pos))
    && (phase == 1 ==> Enter(r.atoms, s, a, i, pos))
    && (phase == 2 ==> Reach(r.atoms, s, a, i, pos))
  }

  /** `v` is the earliest such start, or NONE. */
  ghost predicate Holds(r: Regex, s: seq<Byte>, from: nat, i: nat, pos: nat, phase: nat, v: int)
    requires i <= |r.atoms| && pos <= |s|
  {
    && (v == NONE || Live(r, s, from, i, pos, phase, v))
    && forall a :: Live(r, s, from, i, pos, phase, a) ==> v != NONE && v <= a
  }

  ghost predicate AllHold(r: Regex, s: seq<Byte>, from: nat, pos: nat, phase: nat, active: seq<int>)
    requires pos <= |s| && |active| == |r.atoms| + 1
  {
    forall i :: 0 <= i <= |r.atoms| ==> Holds(r, s, from, i, pos, phase, active[i])
  }

  lemma InjectHolds(r: Regex, s: seq<Byte>, from: nat, i: nat, pos: nat, v: int)
    requires i <= |r.atoms| && from <= pos <= |s| && Holds(r, s, from, i, pos, 0, v)
    ensures Holds(r, s, from, i, pos, 1, if i == 0 && StartOk(r, s, pos) then Earlier(v, pos) else v)
  {
    forall a | Live(r, s, from, i, pos, 1, a)
      ensures Live(r, s, from, i, pos, 0, a) || (a == pos && i == 0 && StartOk(r, s, pos))
    {
    }
    if v != NONE {
      assert Live(r, s, from, i, pos, 1, v);
    }
    if i == 0 && StartOk(r, s, pos) {
      assert Live(r, s, from, i, pos, 1, pos);
    }
  }

  lemma ClosureHolds(r: Regex, s: seq<Byte>, from: nat, i: nat, pos: nat, v: int, below: int)
    requires i <= |r.atoms| && from <= pos <= |s| && Holds(r, s, from, i, pos, 1, v)
    requires i > 0 ==> Holds(r, s, from, i - 1, pos, 2, below)
    ensures Holds(r, s, from, i, pos, 2, if i > 0 && Nullable(r.atoms[i - 1]) then Earlier(v, below) else v)
  {
    forall a | Live(r, s, from, i, pos, 2, a)
      ensures Live(r, s, from, i, pos, 1, a)
              || (i > 0 && Nullable(r.atoms[i - 1]) && Live(r, s, from, i - 1, pos, 2, a))
    {
    }
    if v != NONE {
      assert Live(r, s, from, i, pos, 1, v) && Live(r, s, from, i, pos, 2, v);
    }
    if i > 0 && Nullable(r.atoms[i - 1]) && below != NONE {
      assert Live(r, s, from, i - 1, pos, 2, below) && Live(r, s, from, i, pos, 2, below);
    }
  }

  /** What state `i` gets when byte `c` is read: from the state before it, and from itself. */
  function Forward(r: Regex, active: seq<int>, i: nat, c: Byte): int
    requires |active| == |r.atoms| + 1 && i <= |r.atoms|
  {
    if i > 0 && active[i - 1] >= 0 && c in r.atoms[i - 1].bits then active[i - 1] else NONE
  }

  function Stay(r: Regex, active: seq<int>, i: nat, c: Byte): int
    requires |active| == |r.atoms| + 1 && i <= |r.atoms|
  {
    if i < |r.atoms| && active[i] >= 0 && c in r.atoms[i].bits && Repeats(r.atoms[i]) then active[i] else NONE
  }

  lemma StepHolds(r: Regex, s: seq<Byte>, from: nat, i: nat, pos: nat, active: seq<int>)
    requires i <= |r.atoms| && from <= pos < |s| && |active| == |r.atoms| + 1
    requires AllHold(r, s, from, pos, 2, active)
    ensures Holds(r, s, from, i, pos + 1, 0, Earlier(Forward(r, active, i, s[pos]), Stay(r, active, i, s[pos])))
  {
    var f, t := Forward(r, active, i, s[pos]), Stay(r, active, i, s[pos]);
    if i > 0 { assert Holds(r, s, from, i - 1, pos, 2, active[i - 1]); }
    assert Holds(r, s, from, i, pos, 2, active[i]);
    if f != NONE {
      assert Live(r, s, from, i, pos + 1, 0, f);
    }
    if t != NONE {
      assert Live(r, s, from, i, pos + 1, 0, t);
    }
    var next := pos + 1;
    forall a | Live(r, s, from, i, next, 0, a)
      ensures (f != NONE && f <= a) || (t != NONE && t <= a)
    {
      if i > 0 && s[pos] in r.atoms[i - 1].bits && Reach(r.atoms, s, a, i - 1, pos) {
        assert Live(r, s, from, i - 1, pos, 2, a);
      } else {
        assert Live(r, s, from, i, pos, 2, a);
      }
    }
  }

  // ---- The search -----------------------------------------------------------------------

  /** The best match among those that end before `pos`. */
  ghost predicate BestBefore(r: Regex, s: seq<Byte>, from: nat, pos: nat, best: int, last: int) {
    && (best == NONE || (best >= 0 && last >= 0 && last < pos && IsMatch(r, s, from, best, last)))
    && forall a: nat, b: nat :: b < pos && IsMatch(r, s, from, a, b)
         ==> best != NONE && (best < a || (best == a && b <= last))
  }

  lemma AcceptKeepsBest(r: Regex, s: seq<Byte>, from: nat, pos: nat, v: int, best: int, last: int)
    requires from <= pos <= |s| && BestBefore(r, s, from, pos, best, last)
    requires Holds(r, s, from, |r.atoms|, pos, 2, v)
    ensures if v >= 0 && EndOk(r, s, pos) && (best < 0 || v <= best) then BestBefore(r, s, from, pos + 1, v, pos)
            else BestBefore(r, s, from, pos + 1, best, last)
  {
    if v >= 0 && EndOk(r, s, pos) {
      AutomatonAccepts(r.atoms, s, v, pos);
      assert IsMatch(r, s, from, v, pos);
    }
    forall a: nat | IsMatch(r, s, from, a, pos) ensures v != NONE && v <= a && EndOk(r, s, pos) {
      AutomatonAccepts(r.atoms, s, a, pos);
      assert Live(r, s, from, |r.atoms|, pos, 2, a);
    }
  }

  ghost predicate Continuing(active: seq<int>, n: nat, best: int)
    requires n <= |active|
  {
    exists i :: 0 <= i < n && 0 <= active[i] <= best
  }

  lemma LiveIsLate(r: Regex, s: seq<Byte>, from: nat, pos: nat, active: seq<int>, best: int, j: nat, a: nat)
    requires from <= pos <= |s| && |active| == |r.atoms| + 1 && AllHold(r, s, from, pos, 2, active)
    requires !Continuing(active, |r.atoms|, best)
    requires j < |r.atoms| && Live(r, s, from, j, pos, 2, a)
    ensures best < a
  {
    assert Holds(r, s, from, j, pos, 2, active[j]);
    assert !(0 <= active[j] <= best);
  }

  /** When no state that can read on holds a start up to `best`, no later end can improve it. */
  lemma StopIsFinal(r: Regex, s: seq<Byte>, from: nat, pos: nat, active: seq<int>, best: int, last: int)
    requires from <= pos <= |s| && |active| == |r.atoms| + 1 && AllHold(r, s, from, pos, 2, active)
    requires BestBefore(r, s, from, pos + 1, best, last) && 0 <= best
    requires !Continuing(active, |r.atoms|, best)
    ensures LeftmostLongest(r, s, from, Match(best, last))
  {
    forall a: nat, b: nat | IsMatch(r, s, from, a, b) ensures best < a || (best == a && b <= last) {
      if b > pos && a <= best {
        AutomatonAccepts(r.atoms, s, a, b);
        var j := StillLive(r.atoms, s, a, |r.atoms|, b, pos);
        LiveIsLate(r, s, from, pos, active, best, j, a);
      }
    }
  }

  /** Entering optional atoms without reading: the first inner loop of `code_match`. */
  method Close(r: Regex, ghost s: seq<Byte>, ghost from: nat, ghost pos: nat, active: array<int>)
    requires from <= pos <= |s| && active.Length == |r.atoms| + 1
    requires AllHold(r, s, from, pos, 1, active[..])
    modifies active
    ensures AllHold(r, s, from, pos, 2, active[..])
  {
    var n := |r.atoms|;
    ClosureHolds(r, s, from, 0, pos, active[0], NONE);
    for i := 0 to n
      invariant forall j :: 0 <= j <= i ==> Holds(r, s, from, j, pos, 2, active[j])
      invariant forall j :: i < j <= n ==> Holds(r, s, from, j, pos, 1, active[j])
    {
      ClosureHolds(r, s, from, i + 1, pos, active[i + 1], active[i]);
      if active[i] >= 0 && Nullable(r.atoms[i]) {
        active[i + 1] := Earlier(active[i + 1], active[i]);
      }
    }
  }

  /** Reading one byte: the last inner loops of `code_match`. */
  method Advance(r: Regex, s: seq<Byte>, ghost from: nat, pos: nat, active: array<int>, next: array<int>)
    requires from <= pos < |s| && active.Length == next.Length == |r.atoms| + 1 && active != next
    requires AllHold(r, s, from, pos, 2, active[..])
    modifies active, next
    ensures AllHold(r, s, from, pos + 1, 0, active[..])
  {
    var n, c := |r.atoms|, s[pos];
    ghost var was := active[..];
    for i := 0 to n + 1
      invariant active[..] == was
      invariant forall j :: 0 <= j < i ==> next[j] == NONE
    {
      next[i] := NONE;
    }
    for i := 0 to n
      invariant active[..] == was
      invariant forall j :: 0 <= j < i ==> next[j] == Earlier(Forward(r, was, j, c), Stay(r, was, j, c))
      invariant next[i] == Forward(r, was, i, c)
      invariant forall j :: i < j <= n ==> next[j] == NONE
    {
      assert was[i] == active[i];
      if active[i] >= 0 && c in r.atoms[i].bits {
        next[i + 1] := Earlier(next[i + 1], active[i]);
        if Repeats(r.atoms[i]) {
          next[i] := Earlier(next[i], active[i]);
        }
      }
    }
    for i := 0 to n + 1
      invariant forall j :: 0 <= j < i ==> active[j] == next[j]
      invariant forall j :: 0 <= j <= n ==> next[j] == Earlier(Forward(r, was, j, c), Stay(r, was, j, c))
    {
      active[i] := next[i];
    }
    forall j | 0 <= j <= n ensures Holds(r, s, from, j, pos + 1, 0, active[j]) {
      StepHolds(r, s, from, j, pos, was);
    }
  }

  method IsContinuing(n: nat, active: array<int>, best: int) returns (c: bool)
    requires n <= active.Length
    ensures c <==> Continuing(active[..], n, best)
  {
    c := false;
    for i := 0 to n
      invariant c <==> exists j :: 0 <= j < i && 0 <= active[j] <= best
    {
      if active[i] >= 0 && active[i] <= best {
        c := true;
      }
    }
    assert forall j :: 0 <= j < n ==> active[..][j] == active[j];
  }

  /** `code_match`: the leftmost longest match at or after `from`. */
  method CodeMatch(r: Regex, s: seq<Byte>, from: nat) returns (f: Found)
    requires from <= |s|
    ensures LeftmostLongest(r, s, from, f)
  {
    var n := |r.atoms|;
    var active, next := new int[n + 1](_ => NONE), new int[n + 1](_ => NONE);
    var best, last, pos := NONE, NONE, from;
    assert forall i :: 0 <= i <= n ==> Holds(r, s, from, i, pos, 0, active[i]);
    while pos <= |s|
      invariant from <= pos <= |s|
      invariant AllHold(r, s, from, pos, 0, active[..])
      invariant BestBefore(r, s, from, pos, best, last)
      decreases |s| - pos
    {
      forall i | 0 <= i <= n
        ensures Holds(r, s, from, i, pos, 1,
                      if i == 0 && StartOk(r, s, pos) then Earlier(active[i], pos) else active[i])
      {
        InjectHolds(r, s, from, i, pos, active[..][i]);
      }
      if StartOk(r, s, pos) {
        active[0] := Earlier(active[0], pos);
      }
      Close(r, s, from, pos, active);
      assert Holds(r, s, from, n, pos, 2, active[..][n]);
      AcceptKeepsBest(r, s, from, pos, active[n], best, last);
      if active[n] >= 0 && EndOk(r, s, pos) && (best < 0 || active[n] <= best) {
        best, last := active[n], pos;
      }
      var continuing := IsContinuing(n, active, best);
      if best >= 0 && !continuing {
        StopIsFinal(r, s, from, pos, active[..], best, last);
        return Match(best, last);
      }
      if pos == |s| {
        break;
      }
      Advance(r, s, from, pos, active, next);
      pos := pos + 1;
    }
    f := if best < 0 then NoMatch else Match(best, last);
  }
}
