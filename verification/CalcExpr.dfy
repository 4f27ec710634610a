/** Integer expressions with two precedence levels, read from the left, as the calculator's users
    understand them: a sum of terms, a term being a chain of products and quotients. Every fold is
    checked against the 18-digit bound. */
module CalcExpr {

  const LIMIT: int := 999_999_999_999_999_999

  datatype Op = Add | Sub | Mul | Div

  datatype Error = Overflow | ZeroDivide

  datatype Value = Ok(v: int) | Err(e: Error)

  predicate Bounded(v: int) {
    -LIMIT <= v <= LIMIT
  }

  predicate IsMul(op: Op) { op.Mul? || op.Div? }

  /** The quotient cut off toward zero. */
  function Truncated(a: int, b: int): int
    requires b != 0
  {
    if (a < 0) == (b < 0) then Abs(a) / Abs(b) else -(Abs(a) / Abs(b))
  }

  function Abs(a: int): nat {
    if a < 0 then -a else a
  }

  function Exact(a: int, op: Op, b: int): int
    requires op.Div? ==> b != 0
  {
    match op
    case Add => a + b
    case Sub => a - b
    case Mul => a * b
    case Div => Truncated(a, b)
  }

  /** One fold, refused when it leaves the bound or divides by zero. */
  function Fold(a: Value, op: Op, b: Value): Value {
    if a.Err? then a
    else if b.Err? then b
    else if op.Div? && b.v == 0 then Err(ZeroDivide)
    else if Bounded(Exact(a.v, op, b.v)) then Ok(Exact(a.v, op, b.v))
    else Err(Overflow)
  }

  /** An operator and the number behind it. */
  datatype Link = Link(op: Op, n: int)

  /** `first * n * n / n ...`, folded from the left. */
  datatype Term = Term(first: int, links: seq<Link>)

  /** `first + term - term ...`, folded from the left. */
  datatype Sum = Sum(first: Term, rest: seq<(Op, Term)>)

  function EvalLinks(v: Value, links: seq<Link>): Value
    decreases |links|
  {
    if links == [] then v
    else var m := |links| - 1; Fold(EvalLinks(v, links[..m]), links[m].op, Ok(links[m].n))
  }

  function EvalTerm(t: Term): Value {
    EvalLinks(Ok(t.first), t.links)
  }

  function EvalRest(v: Value, rest: seq<(Op, Term)>): Value
    decreases |rest|
  {
    if rest == [] then v
    else var m := |rest| - 1; Fold(EvalRest(v, rest[..m]), rest[m].0, EvalTerm(rest[m].1))
  }

  function EvalSum(s: Sum): Value {
    EvalRest(EvalTerm(s.first), s.rest)
  }

  /** The tree of `first op n op n ...` by precedence: `*` and `/` extend the last term, `+` and `-`
      open a new one. */
  function Parse(first: int, links: seq<Link>): Sum
    decreases |links|
  {
    if links == [] then Sum(Term(first, []), [])
    else
      var m := |links| - 1;
      Extend(Parse(first, links[..m]), links[m])
  }

  function Extend(s: Sum, l: Link): Sum {
    if IsMul(l.op) then ExtendLast(s, l) else Sum(s.first, s.rest + [(l.op, Term(l.n, []))])
  }

  function ExtendLast(s: Sum, l: Link): Sum {
    if s.rest == [] then Sum(Term(s.first.first, s.first.links + [l]), [])
    else
      var m := |s.rest| - 1;
      var (op, t) := s.rest[m];
      Sum(s.first, s.rest[..m] + [(op, Term(t.first, t.links + [l]))])
  }

  function Eval(first: int, links: seq<Link>): Value {
    EvalSum(Parse(first, links))
  }

  // ---- The tree is the only one with this text ------------------------------------------

  predicate ByPrecedence(s: Sum) {
    && (forall l :: l in s.first.links ==> IsMul(l.op))
    && (forall r :: r in s.rest ==> !IsMul(r.0) && forall l :: l in r.1.links ==> IsMul(l.op))
  }

  function FlattenRest(rest: seq<(Op, Term)>): seq<Link>
    decreases |rest|
  {
    if rest == [] then []
    else var m := |rest| - 1; FlattenRest(rest[..m]) + [Link(rest[m].0, rest[m].1.first)] + rest[m].1.links
  }

  function Flatten(s: Sum): seq<Link> {
    s.first.links + FlattenRest(s.rest)
  }

  lemma {:induction false} ParseKeepsText(first: int, links: seq<Link>)
    ensures var s := Parse(first, links); s.first.first == first && Flatten(s) == links && ByPrecedence(s)
    decreases |links|
  {
    if links != [] {
      var m := |links| - 1;
      ParseKeepsText(first, links[..m]);
      assert links == links[..m] + [links[m]];
      var s := Parse(first, links[..m]);
      if IsMul(links[m].op) {
        ExtendKeepsText(s, links[m]);
      } else {
        var rest := s.rest + [(links[m].op, Term(links[m].n, []))];
        assert rest[..|s.rest|] == s.rest;
      }
    }
  }

  lemma ExtendKeepsText(s: Sum, l: Link)
    requires ByPrecedence(s) && IsMul(l.op)
    ensures var t := ExtendLast(s, l);
            t.first.first == s.first.first && Flatten(t) == Flatten(s) + [l] && ByPrecedence(t)
  {
    if s.rest != [] {
      var m := |s.rest| - 1;
      var t := ExtendLast(s, l);
      assert t.rest[..m] == s.rest[..m];
      assert s.rest[m] in s.rest;
      forall r | r in t.rest ensures !IsMul(r.0) && forall x :: x in r.1.links ==> IsMul(x.op) {
        if r != t.rest[m] {
          assert r in s.rest;
        }
      }
    }
  }

  /** The tree without its last operator and number. */
  function Shorter(s: Sum): Sum
    requires s.rest != [] || s.first.links != []
  {
    if s.rest == [] then Sum(Term(s.first.first, s.first.links[..|s.first.links| - 1]), [])
    else
      var k := |s.rest| - 1;
      var (op, t) := s.rest[k];
      if t.links == [] then Sum(s.first, s.rest[..k])
      else Sum(s.first, s.rest[..k] + [(op, Term(t.first, t.links[..|t.links| - 1]))])
  }

  function LastLink(s: Sum): Link
    requires s.rest != [] || s.first.links != []
  {
    if s.rest == [] then s.first.links[|s.first.links| - 1]
    else
      var (op, t) := s.rest[|s.rest| - 1];
      if t.links == [] then Link(op, t.first) else t.links[|t.links| - 1]
  }

  lemma ShorterExtends(s: Sum)
    requires s.rest != [] || s.first.links != []
    requires ByPrecedence(s)
    ensures Extend(Shorter(s), LastLink(s)) == s && Shorter(s).first.first == s.first.first
    ensures ByPrecedence(Shorter(s))
  {
    if s.rest == [] {
      var m := |s.first.links| - 1;
      assert s.first.links[m] in s.first.links;
      assert s.first.links[..m] + [s.first.links[m]] == s.first.links;
    } else {
      var k := |s.rest| - 1;
      var (op, t) := s.rest[k];
      assert s.rest[k] in s.rest;
      assert s.rest[..k] + [s.rest[k]] == s.rest;
      var shorter := Shorter(s);
      if t.links != [] {
        var m := |t.links| - 1;
        assert t.links[m] in t.links;
        assert t.links[..m] + [t.links[m]] == t.links;
        assert shorter.rest[..k] == s.rest[..k];
        forall r | r in shorter.rest ensures !IsMul(r.0) && forall x :: x in r.1.links ==> IsMul(x.op) {
          assert r != shorter.rest[k] ==> r in s.rest;
        }
      }
    }
  }

  lemma ShorterText(s: Sum)
    requires s.rest != [] || s.first.links != []
    ensures Flatten(s) == Flatten(Shorter(s)) + [LastLink(s)]
  {
    if s.rest != [] {
      var k := |s.rest| - 1;
      var shorter := Shorter(s);
      if s.rest[k].1.links != [] {
        assert shorter.rest[..k] == s.rest[..k];
      }
    }
  }

  /** A tree that respects precedence is the parse of its own text. */
  lemma {:induction false} ParseIsUnique(s: Sum)
    requires ByPrecedence(s)
    ensures Parse(s.first.first, Flatten(s)) == s
    decreases |Flatten(s)|
  {
    if s.rest != [] || s.first.links != [] {
      ShorterText(s);
      ShorterExtends(s);
      ParseIsUnique(Shorter(s));
      assert Flatten(s)[..|Flatten(s)| - 1] == Flatten(Shorter(s));
    }
  }
}
