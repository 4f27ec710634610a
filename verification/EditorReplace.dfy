/** Find and replace-all: the text is rebuilt from the gaps between successive leftmost longest
    matches and the literal replacement, or left alone when the result would not fit. */
module EditorReplace {
  import opened Bytes
  import opened Regex
  import opened RegexSyntax
  import opened Editor

  // ---- The successive matches -----------------------------------------------------------

  lemma {:induction false} BestFrom(r: Regex, s: seq<Byte>, from: nat, a: nat, b: nat) returns (f: Found)
    requires IsMatch(r, s, from, a, b)
    ensures LeftmostLongest(r, s, from, f) && f.Match?
    decreases a, |s| - b
  {
    if c: nat, d: nat :| IsMatch(r, s, from, c, d) && (c < a || (c == a && b < d)) {
      f := BestFrom(r, s, from, c, d);
    } else {
      f := Match(a, b);
    }
  }

  lemma SomeResult(r: Regex, s: seq<Byte>, from: nat)
    ensures exists f :: LeftmostLongest(r, s, from, f)
  {
    if a: nat, b: nat :| IsMatch(r, s, from, a, b) {
      var f := BestFrom(r, s, from, a, b);
    } else {
      assert LeftmostLongest(r, s, from, NoMatch);
    }
  }

  ghost function FirstMatch(r: Regex, s: seq<Byte>, from: nat): (f: Found)
    ensures LeftmostLongest(r, s, from, f)
  {
    SomeResult(r, s, from);
    var f :| LeftmostLongest(r, s, from, f);
    f
  }

  /** Where the search goes on: behind the match, or past the next byte if the match was empty. */
  function Resume(f: Found): nat
    requires f.Match?
  {
    if f.start == f.end then f.end + 1 else f.end
  }

  /** The matches that replace-all replaces. */
  ghost function Sites(r: Regex, s: seq<Byte>, from: nat): seq<Found>
    decreases |s| + 1 - from
  {
    var f := FirstMatch(r, s, from);
    if from > |s| || f.NoMatch? then [] else
      assert IsMatch(r, s, from, f.start, f.end);
      [f] + Sites(r, s, Resume(f))
  }

  predicate FitsAt(s: seq<Byte>, from: nat, f: Found) {
    f.Match? && from <= f.start <= f.end <= |s|
  }

  /** What a site turns into: the gap before it, the replacement, and the byte an empty match skips. */
  function Piece(s: seq<Byte>, from: nat, f: Found, rep: seq<Byte>): seq<Byte>
    requires FitsAt(s, from, f)
  {
    s[from..f.start] + rep + if f.start == f.end < |s| then [s[f.end]] else []
  }

  /** The text from `from` on with each site replaced. */
  ghost function Spliced(s: seq<Byte>, from: nat, sites: seq<Found>, rep: seq<Byte>): seq<Byte>
    decreases |sites|
  {
    if sites == [] then (if from <= |s| then s[from..] else [])
    else if FitsAt(s, from, sites[0]) then
      Piece(s, from, sites[0], rep) + Spliced(s, Resume(sites[0]), sites[1..], rep)
    else []
  }

  ghost function ReplaceAll(r: Regex, s: seq<Byte>, from: nat, rep: seq<Byte>): seq<Byte> {
    Spliced(s, from, Sites(r, s, from), rep)
  }

  lemma ReplaceStep(r: Regex, s: seq<Byte>, from: nat, rep: seq<Byte>, f: Found)
    requires from <= |s| && LeftmostLongest(r, s, from, f)
    ensures f.NoMatch? ==> Sites(r, s, from) == [] && ReplaceAll(r, s, from, rep) == s[from..]
    ensures f.Match? ==> FitsAt(s, from, f) && Sites(r, s, from) == [f] + Sites(r, s, Resume(f))
    ensures f.Match? ==> ReplaceAll(r, s, from, rep) == Piece(s, from, f, rep) + ReplaceAll(r, s, Resume(f), rep)
  {
    LeftmostLongestIsUnique(r, s, from, f, FirstMatch(r, s, from));
    if f.Match? {
      assert IsMatch(r, s, from, f.start, f.end);
      assert Sites(r, s, from)[1..] == Sites(r, s, Resume(f));
    }
  }

  lemma PastTheEnd(r: Regex, s: seq<Byte>, from: nat, rep: seq<Byte>)
    requires from > |s|
    ensures Sites(r, s, from) == [] && ReplaceAll(r, s, from, rep) == []
  {
  }

  // ---- The editor commands --------------------------------------------------------------

  datatype FindResult = BadPattern | Searched(f: Found)

  /** The answer to a search. */
  ghost predicate Answers(s: seq<Byte>, pattern: seq<Byte>, from: int, r: FindResult) {
    && (r.BadPattern? <==> |s| > CAP || from < 0 || from > |s| || Read(pattern).None?)
    && (r.Searched? ==> LeftmostLongest(Denote(Read(pattern).value), s, from, r.f))
  }

  /** `code_find`. */
  method CodeFind(s: seq<Byte>, pattern: seq<Byte>, from: int) returns (r: FindResult)
    requires 0 !in pattern
    ensures Answers(s, pattern, from, r)
  {
    if |s| > CAP || from < 0 || from > |s| {
      return BadPattern;
    }
    var re := CodeCompile(pattern);
    if re.None? {
      return BadPattern;
    }
    var f := CodeMatch(re.value, s, from);
    r := Searched(f);
  }

  /** Stage a piece if it fits. */
  method Stage(staging: array<Byte>, n: nat, piece: seq<Byte>) returns (n': nat, ok: bool)
    requires n <= CAP && staging.Length == CAP + 1
    modifies staging
    ensures ok <==> n + |piece| <= CAP
    ensures ok ==> n' == n + |piece| && staging[..n'] == old(staging[..n]) + piece
    ensures !ok ==> n' == n
  {
    if |piece| > CAP - n {
      return n, false;
    }
    CopyInto(staging, n, piece);
    n', ok := n + |piece|, true;
  }

  /** Stage what one site turns into; -1 is reported when it does not fit. */
  method StageSite(s: seq<Byte>, from: nat, f: Found, rep: seq<Byte>, staging: array<Byte>, n: nat)
    returns (n': nat, ok: bool)
    requires FitsAt(s, from, f) && n <= CAP && staging.Length == CAP + 1
    modifies staging
    ensures ok <==> n + |Piece(s, from, f, rep)| <= CAP
    ensures n' <= CAP
    ensures ok ==> staging[..n'] == old(staging[..n]) + Piece(s, from, f, rep)
  {
    n', ok := Stage(staging, n, s[from..f.start] + rep);
    if ok && f.start == f.end && f.end != |s| {
      n', ok := Stage(staging, n', [s[f.end]]);
    }
  }

  /** The loop of `code_replace`: -1 exactly when the result would not fit. */
  method StageReplaced(r: Regex, s: seq<Byte>, rep: seq<Byte>, staging: array<Byte>) returns (count: int, n: nat)
    requires |s| <= CAP && staging.Length == CAP + 1
    modifies staging
    ensures count == -1 <==> |ReplaceAll(r, s, 0, rep)| > CAP
    ensures count != -1 ==> n <= CAP && staging[..n] == ReplaceAll(r, s, 0, rep) && count == |Sites(r, s, 0)|
  {
    hide ReplaceAll, Sites;
    var from := 0;
    count, n := 0, 0;
    while from <= |s|
      invariant from <= |s| + 1 && n <= CAP && count >= 0
      invariant ReplaceAll(r, s, 0, rep) == staging[..n] + ReplaceAll(r, s, from, rep)
      invariant |Sites(r, s, 0)| == count + |Sites(r, s, from)|
    {
      var f := CodeMatch(r, s, from);
      ReplaceStep(r, s, from, rep, f);
      if f.NoMatch? {
        break;
      }
      var ok;
      n, ok := StageSite(s, from, f, rep, staging, n);
      if !ok {
        return -1, n;
      }
      count, from := count + 1, Resume(f);
    }
    if from <= |s| {
      var ok;
      n, ok := Stage(staging, n, s[from..]);
      if !ok {
        return -1, n;
      }
    } else {
      PastTheEnd(r, s, from, rep);
    }
  }

  /** `code_replace`. */
  method CodeReplace(e: Editor, pattern: seq<Byte>, rep: seq<Byte>, staging: array<Byte>) returns (count: int)
    requires e.Valid() && 0 !in pattern && 0 !in rep && staging.Length == CAP + 1
    requires staging != e.text && staging != e.undoText && staging != e.cleanText
    modifies staging, e, e.text, e.undoText
    ensures e.Valid()
    ensures count == -1 <==> Read(pattern).None?
                             || |ReplaceAll(Denote(Read(pattern).value), old(e.Text()), 0, rep)| > CAP
    ensures count != -1 ==> count == |Sites(Denote(Read(pattern).value), old(e.Text()), 0)|
    ensures count != -1 ==> e.Text() == ReplaceAll(Denote(Read(pattern).value), old(e.Text()), 0, rep)
    ensures count > 0 ==> e.cursor == 0 && e.dirty && e.undoValid && !e.redo
                          && e.Undone() == old(e.Text()) && e.undoCursor == old(e.cursor)
    ensures count <= 0 ==> e.Text() == old(e.Text()) && e.cursor == old(e.cursor) && e.dirty == old(e.dirty)
                           && e.undoValid == old(e.undoValid) && e.Undone() == old(e.Undone())
  {
    var re := CodeCompile(pattern);
    if re.None? {
      return -1;
    }
    var n;
    count, n := StageReplaced(re.value, e.text[..e.len], rep, staging);
    if count > 0 {
      e.Checkpoint();
      e.SetText(staging, n);
      e.dirty := true;
    }
  }
}
