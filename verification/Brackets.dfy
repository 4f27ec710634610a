/** Matching brackets in styled text: brackets in strings and comments do not count, and each kind of
    bracket is counted on its own. */
module Brackets {
  import opened Bytes

  datatype Style = Plain | Keyword | Number | Quoted | Comment

  predicate IsOpen(c: Byte) { c == 40 || c == 91 || c == 123 }

  predicate IsClose(c: Byte) { c == 41 || c == 93 || c == 125 }

  /** `code_bracket_twin`. */
  function Twin(c: Byte): (t: Byte)
    ensures (IsOpen(c) ==> IsClose(t)) && (IsClose(c) ==> IsOpen(t))
  {
    match c
    case 40 => 41
    case 91 => 93
    case 123 => 125
    case 41 => 40
    case 93 => 91
    case 125 => 123
    case _ => 0
  }

  datatype Document = Document(text: seq<Byte>, style: seq<Style>)

  predicate Ok(d: Document) { |d.style| >= |d.text| }

  predicate Counts(d: Document, i: nat)
    requires Ok(d) && i < |d.text|
  {
    d.style[i] != Quoted && d.style[i] != Comment
  }

  predicate IsBracket(d: Document, i: int)
    requires Ok(d)
  {
    0 <= i < |d.text| && Counts(d, i) && (IsOpen(d.text[i]) || IsClose(d.text[i]))
  }

  /** How many more brackets `open` than brackets `close` count in `lo..hi`. */
  function Nesting(d: Document, open: Byte, close: Byte, lo: nat, hi: nat): int
    requires Ok(d) && lo <= hi <= |d.text|
    decreases hi - lo
  {
    if lo == hi then 0
    else Nesting(d, open, close, lo, hi - 1)
         + (if !Counts(d, hi - 1) then 0
            else if d.text[hi - 1] == open then 1 else if d.text[hi - 1] == close then -1 else 0)
  }

  lemma {:induction false} NestingSplits(d: Document, open: Byte, close: Byte, lo: nat, mid: nat, hi: nat)
    requires Ok(d) && lo <= mid <= hi <= |d.text|
    ensures Nesting(d, open, close, lo, hi) == Nesting(d, open, close, lo, mid) + Nesting(d, open, close, mid, hi)
    decreases hi - mid
  {
    if mid < hi {
      NestingSplits(d, open, close, lo, mid, hi - 1);
    }
  }

  /** The bracket at `h` closes at `m`: the text between is balanced in their kind, and no shorter
      stretch from `h` on is. */
  ghost predicate Pair(d: Document, h: nat, m: nat)
    requires Ok(d)
  {
    && h < m < |d.text| && IsBracket(d, h) && IsBracket(d, m) && IsOpen(d.text[h]) && d.text[m] == Twin(d.text[h])
    && Nesting(d, d.text[h], d.text[m], h, m + 1) == 0
    && forall k :: h < k <= m ==> Nesting(d, d.text[h], d.text[m], h, k) > 0
  }

  /** A stretch of a pair that starts with it, or ends with it, is not balanced. */
  lemma PairNests(d: Document, h: nat, m: nat, k: int)
    requires Ok(d) && Pair(d, h, m) && h < k <= m
    ensures Nesting(d, d.text[h], d.text[m], h, k) > 0 && Nesting(d, d.text[h], d.text[m], k, m + 1) < 0
  {
    NestingSplits(d, d.text[h], d.text[m], h, k, m + 1);
  }

  /** Seen from its closing bracket, a pair is the same: balanced, and no shorter stretch up to `m` is. */
  lemma PairFromBehind(d: Document, h: nat, m: nat, end: nat)
    requires Ok(d) && h < m < |d.text| && IsBracket(d, h) && IsBracket(d, m) && end == m + 1
    requires IsOpen(d.text[h]) && d.text[m] == Twin(d.text[h])
    requires Nesting(d, d.text[h], d.text[m], h, end) == 0
    requires forall k :: h < k <= m ==> Nesting(d, d.text[h], d.text[m], k, end) < 0
    ensures Pair(d, h, m)
  {
    forall k | h < k <= m ensures Nesting(d, d.text[h], d.text[m], h, k) > 0 {
      NestingSplits(d, d.text[h], d.text[m], h, k, end);
    }
  }

  /** The bracket a position stands for: the one on it, or else the one before it. */
  function Here(d: Document, at: int): (h: int)
    requires Ok(d)
    ensures h >= 0 ==> IsBracket(d, h)
  {
    if IsBracket(d, at) then at else if at > 0 && IsBracket(d, at - 1) then at - 1 else -1
  }

  /** `r` is the partner of the bracket at `at`, or -1 and there is none. */
  ghost predicate Answers(d: Document, at: int, r: int)
    requires Ok(d)
  {
    && r >= -1
    && (r >= 0 ==> var h := Here(d, at); h >= 0 && if IsOpen(d.text[h]) then Pair(d, h, r) else Pair(d, r, h))
    && (r == -1 ==>
          Here(d, at) == -1 || forall m: nat :: !Pair(d, Here(d, at), m) && !Pair(d, m, Here(d, at)))
  }

  /** `code_bracket_match`: the partner of the bracket at `at`, or -1 exactly when it has none. */
  method CodeBracketMatch(d: Document, at: int) returns (r: int)
    requires Ok(d)
    ensures Answers(d, at, r)
  {
    var h := Here(d, at);
    if h < 0 {
      return -1;
    }
    if IsOpen(d.text[h]) {
      r := ScanRight(d, h);
    } else {
      r := ScanLeft(d, h);
    }
  }

  method ScanRight(d: Document, h: nat) returns (r: int)
    requires Ok(d) && IsBracket(d, h) && IsOpen(d.text[h])
    ensures r >= 0 ==> Pair(d, h, r)
    ensures r < 0 ==> r == -1 && forall m: nat :: !Pair(d, h, m) && !Pair(d, m, h)
  {
    var c, want := d.text[h], Twin(d.text[h]);
    var depth, i := 0, h;
    while i < |d.text|
      invariant h <= i <= |d.text| && depth == Nesting(d, c, want, h, i)
      invariant forall k :: h < k <= i ==> Nesting(d, c, want, h, k) > 0
    {
      if Counts(d, i) {
        if d.text[i] == c {
          depth := depth + 1;
        } else if d.text[i] == want {
          depth := depth - 1;
          if depth == 0 {
            return i;
          }
        }
      }
      i := i + 1;
    }
    r := -1;
  }

  method ScanLeft(d: Document, h: nat) returns (r: int)
    requires Ok(d) && IsBracket(d, h) && IsClose(d.text[h])
    ensures r >= 0 ==> Pair(d, r, h)
    ensures r < 0 ==> r == -1 && forall m: nat :: !Pair(d, h, m) && !Pair(d, m, h)
  {
    var c, want := d.text[h], Twin(d.text[h]);
    ghost var end := h + 1;
    var depth, i := 0, h as int;
    while i >= 0
      invariant -1 <= i <= h && depth == 0 - Nesting(d, want, c, i + 1, end)
      invariant forall k :: i < k <= h ==> Nesting(d, want, c, k, end) < 0
    {
      NestingSplits(d, want, c, i, i + 1, end);
      if Counts(d, i) {
        if d.text[i] == c {
          depth := depth + 1;
        } else if d.text[i] == want {
          depth := depth - 1;
          if depth == 0 {
            PairFromBehind(d, i, h, end);
            return i;
          }
        }
      }
      i := i - 1;
    }
    forall m: nat | m < h && Pair(d, m, h) ensures Nesting(d, want, c, m, end) == 0 {
    }
    r := -1;
  }

  /** The partner of the partner is the bracket itself: going to the match and back ends where it began. */
  lemma PartnersAreMutual(d: Document, a: nat, b: nat, c: nat)
    requires Ok(d)
    ensures Pair(d, a, b) && Pair(d, a, c) ==> b == c
    ensures Pair(d, a, c) && Pair(d, b, c) ==> a == b
  {
    var b', c': nat := b + 1, c + 1;
    if Pair(d, a, b) && Pair(d, a, c) {
      if b < c {
        PairNests(d, a, c, b');
      } else if c < b {
        PairNests(d, a, b, c');
      }
    }
    if Pair(d, a, c) && Pair(d, b, c) {
      if a < b {
        PairNests(d, a, c, b);
      } else if b < a {
        PairNests(d, b, c, a);
      }
    }
  }

  /** The answer to an answer is the bracket the first question was about. */
  lemma ThereAndBack(d: Document, at: int, there: int, back: int)
    requires Ok(d) && Answers(d, at, there) && there >= 0 && Answers(d, there, back)
    ensures back == Here(d, at)
  {
    var h := Here(d, at);
    assert IsBracket(d, there) && Here(d, there) == there;
    if back >= 0 {
      if IsOpen(d.text[h]) {
        PartnersAreMutual(d, h, back, there);
      } else {
        PartnersAreMutual(d, there, h, back);
      }
    }
  }

  /** An opening bracket, text in which neither it nor its partner counts, and the partner: each of the two
      is the answer for the other. The pairs are ( ) and [ ] and { }. */
  lemma SimplePair(d: Document, o: Byte, c: Byte, m: nat, there: int, back: int)
    requires Ok(d) && (o, c) in {(40, 41), (91, 93), (123, 125)} && 0 < m < |d.text|
    requires d.text[0] == o && d.text[m] == c
    requires d.style[0] in {Plain, Keyword, Number} && d.style[m] in {Plain, Keyword, Number}
    requires forall i :: 0 < i < m ==> d.style[i] in {Quoted, Comment} || (d.text[i] != o && d.text[i] != c)
    requires Answers(d, 0, there) && Answers(d, m, back)
    ensures there == m && back == 0
  {
    NestsToOne(d, o, c, m);
    assert Pair(d, 0, m);
    if there >= 0 {
      PartnersAreMutual(d, 0, there, m);
    }
    if back >= 0 {
      PartnersAreMutual(d, back, 0, m);
    }
  }

  /** The byte is one of the six brackets, outside strings and comments. */
  predicate StandsFor(d: Document, i: int)
    requires Ok(d)
  {
    0 <= i < |d.text| && d.text[i] in {40, 41, 91, 93, 123, 125} && d.style[i] in {Plain, Keyword, Number}
  }

  /** With no bracket on the cursor the answer is that for the bracket before it, and -1 without one. */
  lemma BracketBefore(d: Document, at: int, r: int)
    requires Ok(d) && !StandsFor(d, at) && Answers(d, at, r)
    ensures if StandsFor(d, at - 1) then Answers(d, at - 1, r) else r == -1
  {
    assert forall i :: 0 <= i < |d.text| ==> (StandsFor(d, i) <==> IsBracket(d, i));
  }

  lemma {:induction false} NestsToOne(d: Document, o: Byte, c: Byte, m: nat)
    requires Ok(d) && (o, c) in {(40, 41), (91, 93), (123, 125)} && 0 < m < |d.text|
    requires d.text[0] == o && d.text[m] == c && Counts(d, 0) && Counts(d, m)
    requires forall i :: 0 < i < m ==> d.style[i] in {Quoted, Comment} || (d.text[i] != o && d.text[i] != c)
    ensures (forall k :: 0 < k <= m ==> Nesting(d, o, c, 0, k) == 1) && Nesting(d, o, c, 0, m + 1) == 0
  {
    var k := 1;
    assert Nesting(d, o, c, 0, 0) == 0;
    while k < m
      invariant 1 <= k <= m && forall j :: 0 < j <= k ==> Nesting(d, o, c, 0, j) == 1
    {
      k := k + 1;
    }
  }
}
