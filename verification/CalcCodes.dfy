/** The calculator's laws said of the key codes that are pressed. */
module CalcCodes {
  import opened CalcExpr
  import opened CalcMachine
  import opened CalcRefine

  /** The code that stands for a key: digits, DEL as 8, `s`, `+`, `-`, `*`, `/`, `=` and `C`. */
  function Code(k: Key): int {
    match k
    case Digit(d) => 48 + d
    case Back => 8
    case Sign => 115
    case Operator(Add) => 43
    case Operator(Sub) => 45
    case Operator(Mul) => 42
    case Operator(Div) => 47
    case Equals => 61
    case Clear => 67
    case Other => 0
  }

  /** Every code is read as its key, and so are the other codes with the same meaning; no other code is
      read as a key that does something. */
  lemma CodesAreRead(k: Key, code: int)
    requires k.Digit? ==> k.d <= 9
    ensures Decode(Code(k)) == k
    ensures Decode(99) == Decode(27) == Clear && Decode(127) == Back && Decode(83) == Sign
    ensures Decode(13) == Decode(10) == Equals
    ensures Decode(code).Other? <==>
              !(48 <= code <= 57) && code !in {8, 10, 13, 27, 42, 43, 45, 47, 61, 67, 83, 99, 115, 127}
  {
  }

  function Codes(ks: seq<Key>): seq<int> {
    seq(|ks|, i requires 0 <= i < |ks| => Code(ks[i]))
  }

  /** The codes up to the one that shows a fault. */
  function PressAll(c: State, codes: seq<int>): State
    decreases |codes|
  {
    if codes == [] then c
    else var c' := PressAll(c, codes[..|codes| - 1]);
         if c'.fault.Fault? then c' else Step(c', Decode(codes[|codes| - 1]))
  }

  lemma {:induction false} PressingIsRunning(c: State, ks: seq<Key>)
    requires forall k :: k in ks && k.Digit? ==> k.d <= 9
    ensures PressAll(c, Codes(ks)) == RunToFault(c, ks)
    decreases |ks|
  {
    if ks != [] {
      var m := |ks| - 1;
      assert Codes(ks)[..m] == Codes(ks[..m]);
      CodesAreRead(ks[m], 0);
      PressingIsRunning(c, ks[..m]);
    }
  }

  lemma {:induction false} EntryDigits(ks: seq<Key>)
    requires AllEntry(ks)
    ensures forall k :: k in ks && k.Digit? ==> k.d <= 9
  {
    forall k | k in ks && k.Digit? ensures k.d <= 9 {
      assert IsEntry(k);
    }
  }

  lemma {:induction false} LineDigits(c: State, first: Operand, tail: seq<Tail>)
    requires GoodLine(c, first, tail)
    ensures forall k :: k in Keys(first, tail) && k.Digit? ==> k.d <= 9
    decreases |tail|
  {
    if tail == [] {
      EntryDigits(first.keys);
    } else {
      ShorterLine(c, first, tail);
      LineDigits(c, first, tail[..|tail| - 1]);
      EntryDigits(tail[|tail| - 1].x.keys);
    }
  }

  /** Pressing the codes of an expression and `=` ends with its value, or with its first error. */
  lemma CodesCompute(c: State, first: Operand, tail: seq<Tail>)
    requires Ready(c) && GoodLine(c, first, tail)
    ensures var r := PressAll(c, Codes(Keys(first, tail)) + [61]);
            match Eval(first.n, Links(tail))
            case Ok(v) => Ready(r) && r.value == v
            case Err(e) => r.fault == Fault(e)
  {
    hide Keys, Step, Eval, Links, Ready, GoodLine;
    var ks := Keys(first, tail) + [Equals];
    LineDigits(c, first, tail);
    assert Codes(ks) == Codes(Keys(first, tail)) + [61];
    PressingIsRunning(c, ks);
    CalculatorComputes(c, first, tail);
  }

  // ---- Two and three numbers ------------------------------------------------------------

  function Bounds18(): int { 999_999_999_999_999_999 }

  /** A number typed by its decimal digits. */
  function Typed10(n: nat): Operand { Operand(Digits(n), n) }

  lemma TypedEnters(n: nat)
    requires n <= Bounds18()
    ensures Enters(0, Typed10(n)) && Digits(n) != [] && !Digits(n)[0].Sign?
  {
    DigitsEnter(n);
    FirstDigit(n);
  }

  lemma {:induction false} FirstDigit(n: nat)
    ensures Digits(n) != [] && Digits(n)[0].Digit?
  {
    if n >= 10 {
      FirstDigit(n / 10);
    }
  }

  /** What an operator key does with two numbers: 43 adds, 45 subtracts, 42 multiplies, 47 divides and
      drops the rest. */
  lemma TwoNumbers(a: nat, op: Op, b: nat)
    requires a <= Bounds18() && b <= Bounds18()
    ensures var r := PressAll(INIT, Codes(Digits(a)) + [Code(Operator(op))] + Codes(Digits(b)) + [61]);
            var v := if Code(Operator(op)) == 43 then a + b else if Code(Operator(op)) == 45 then a - b
                     else if Code(Operator(op)) == 42 then a * b else if b == 0 then 0 else a / b;
            if Code(Operator(op)) == 47 && b == 0 then r.fault == Fault(ZeroDivide)
            else if -Bounds18() <= v <= Bounds18() then r.fault.NoFault? && r.value == v
            else r.fault == Fault(Overflow)
  {
    hide Codes, Eval, Links, Keys, Code, Fold, PressAll, GoodLine, Digits, Bounds18;
    var tail := [Tail([], op, Typed10(b))];
    GoodTwo(a, op, b);
    CodesCompute(INIT, Typed10(a), tail);
    KeysOfTwo(a, op, b);
    ValueOfTwo(a, op, b);
    FoldOfTwo(a, op, b);
  }

  lemma GoodTwo(a: nat, op: Op, b: nat)
    requires a <= Bounds18() && b <= Bounds18()
    ensures Ready(INIT) && GoodLine(INIT, Typed10(a), [Tail([], op, Typed10(b))])
  {
    hide Digits, Enters, Parse;
    var tail := [Tail([], op, Typed10(b))];
    TypedEnters(a);
    TypedEnters(b);
    NoTail();
    assert tail[..0] == [] && Ops(tail[0]) == [op];
  }

  lemma NoTail()
    ensures forall first: Operand :: TreeOf(first, []).rest == []
  {
  }

  lemma FoldOfTwo(a: nat, op: Op, b: nat)
    ensures var v := if Code(Operator(op)) == 43 then a + b else if Code(Operator(op)) == 45 then a - b
                     else if Code(Operator(op)) == 42 then a * b else if b == 0 then 0 else a / b;
            Fold(Ok(a), op, Ok(b)) ==
              if Code(Operator(op)) == 47 && b == 0 then Err(ZeroDivide)
              else if -Bounds18() <= v <= Bounds18() then Ok(v) else Err(Overflow)
  {
  }

  lemma KeysOfTwo(a: nat, op: Op, b: nat)
    ensures Codes(Keys(Typed10(a), [Tail([], op, Typed10(b))])) ==
              Codes(Digits(a)) + [Code(Operator(op))] + Codes(Digits(b))
  {
    var tail := [Tail([], op, Typed10(b))];
    assert tail[..0] == [] && OpKeys(Ops(tail[0])) == [Operator(op)];
    assert Keys(Typed10(a), tail) == Digits(a) + [Operator(op)] + Digits(b);
  }

  lemma ValueOfTwo(a: nat, op: Op, b: nat)
    ensures Eval(a, Links([Tail([], op, Typed10(b))])) == Fold(Ok(a), op, Ok(b))
  {
    var tail := [Tail([], op, Typed10(b))];
    assert tail[..0] == [];
    assert Links(tail) == Links([]) + [Link(op, b)];
    var ls := [Link(op, b)];
    assert ls[..0] == [];
    var s := Parse(a, ls);
    ExtendFacts(Parse(a, []), ls[0]);
    SumOfLast(s);
  }

  /** `a op b * c` and `a op b / c`, for a loose `op`, multiply or divide first; otherwise it is folded from
      the left. */
  lemma ThreeNumbers(a: int, l: Link, m: Link)
    ensures Eval(a, [l, m]) == if (l.op.Add? || l.op.Sub?) && (m.op.Mul? || m.op.Div?)
                               then Fold(Ok(a), l.op, Fold(Ok(l.n), m.op, Ok(m.n)))
                               else Fold(Fold(Ok(a), l.op, Ok(l.n)), m.op, Ok(m.n))
  {
    if IsMul(l.op) {
      var ls := [l, m];
      assert ls[..1] == [l] && ls[..1][..0] == [];
      var s := Parse(a, ls[..1]);
      ExtendFacts(Parse(a, []), l);
      SumOfLast(s);
      ExtendFacts(s, m);
      SumOfLast(Parse(a, ls));
    } else {
      EvalTwo(a, l, m);
    }
  }

  // ---- Correcting a number --------------------------------------------------------------

  /** DEL takes back the digit before it, and the sign key changes the sign: typed behind a number it
      gives the negative, typed twice nothing. */
  lemma Corrections(n: nat, d: nat)
    requires n <= Bounds18() && d <= 9
    ensures AllEntry(Digits(n)) && AllEntry(Digits(n) + [Digit(d), Back]) && AllEntry(Digits(n) + [Sign, Sign])
    ensures 10 * n + d <= Bounds18() ==> Entered(0, Digits(n) + [Digit(d), Back]) == Ok(n)
    ensures AllEntry(Digits(n) + [Sign]) && Entered(0, Digits(n) + [Sign]) == Ok(0 - n)
    ensures Entered(0, Digits(n) + [Sign, Sign]) == Ok(n)
  {
    hide Digits;
    DigitsEnter(n);
    var x, y, z := Digits(n) + [Digit(d), Back], Digits(n) + [Sign], Digits(n) + [Sign, Sign];
    assert x[..|x| - 1] == Digits(n) + [Digit(d)] && (Digits(n) + [Digit(d)])[..|Digits(n)|] == Digits(n);
    assert y[..|y| - 1] == Digits(n) && z[..|z| - 1] == y;
    if 10 * n + d <= Bounds18() {
      assert Entered(0, Digits(n) + [Digit(d)]) == Ok(10 * n + d);
    }
  }

  /** Division drops the rest, which has the sign of the dividend. */
  lemma QuotientDropsRest(a: int, b: int)
    requires b != 0
    ensures var r := a - Truncated(a, b) * b;
            Abs(r) < Abs(b) && (a >= 0 ==> r >= 0) && (a <= 0 ==> r <= 0)
  {
    var x: int, y: int := Abs(a), Abs(b);
    var q := x / y;
    assert x == q * y + x % y;
    assert (-q) * (-y) == q * y && (-q) * y == -(q * y) && q * (-y) == -(q * y);
  }
}
