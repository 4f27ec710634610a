/** The calculator's registers, changed in place key by key, and its display. */
module Calculator {
  import opened CalcExpr
  import opened CalcMachine
  import opened CalcRefine

  /** The characters of a row of digit keys. */
  function Chars(ks: seq<Key>): string
    requires forall k :: k in ks ==> k.Digit? && k.d <= 9
  {
    if ks == [] then [] else Chars(ks[..|ks| - 1]) + ['0' + (ks[|ks| - 1].d as char)]
  }

  lemma {:induction false} DigitsAreDigits(n: nat)
    ensures forall k :: k in Digits(n) ==> k.Digit? && k.d <= 9
  {
    if n >= 10 {
      DigitsAreDigits(n / 10);
    }
  }

  function Decimal(n: nat): string {
    DigitsAreDigits(n);
    Chars(Digits(n))
  }

  lemma DecimalStep(n: nat)
    requires n >= 10
    ensures Decimal(n) == Decimal(n / 10) + ['0' + ((n % 10) as char)]
  {
    assert Digits(n)[..|Digits(n)| - 1] == Digits(n / 10);
  }

  class Calc {
    var value: int
    var lhs: int
    var lowLhs: int
    var op: Pending
    var lowOp: Pending
    var blank: bool
    var entered: bool
    var fault: Fault

    function Now(): State
      reads this
    {
      State(value, lhs, lowLhs, op, lowOp, blank, entered, fault)
    }

    constructor ()
      ensures Now() == INIT
    {
      value, lhs, lowLhs := 0, 0, 0;
      op, lowOp := Nothing, Nothing;
      blank, entered, fault := true, false, NoFault;
    }

    /** `calc_init`. */
    method Reset()
      modifies this
      ensures Now() == INIT
    {
      value, lhs, lowLhs := 0, 0, 0;
      op, lowOp, blank, entered, fault := Nothing, Nothing, true, false, NoFault;
    }

    /** `calc_binop`. */
    method Binop(a: int, o: Op, b: int)
      modifies this`value, this`fault
      ensures Now() == BinOp(old(Now()), a, o, b)
    {
      match o {
        case Add => value := a + b;
        case Sub => value := a - b;
        case Mul =>
          if b != 0 && Abs(a) > LIMIT / Abs(b) {
            fault := Fault(Overflow);
            return;
          }
          value := a * b;
        case Div =>
          if b == 0 {
            fault := Fault(ZeroDivide);
            return;
          }
          value := Truncated(a, b);
      }
      if value > LIMIT || value < -LIMIT {
        fault := Fault(Overflow);
      }
    }

    method ApplyPending()
      requires op.Pending?
      modifies this`value, this`fault, this`op
      ensures Now() == Apply(old(Now()))
    {
      Binop(lhs, op.op, value);
      op := Nothing;
    }

    method ApplyHeld()
      modifies this`value, this`fault, this`lowOp
      ensures Now() == ApplyLow(old(Now()))
    {
      if lowOp.Nothing? || fault.Fault? {
        return;
      }
      Binop(lowLhs, lowOp.op, value);
      lowOp := Nothing;
    }

    method PressOperator(k: Key)
      requires k.Operator? || k.Equals?
      modifies this
      ensures Now() == Pressed(old(Now()), k)
    {
      if op.Pending? && entered {
        if BindsTighter(k) && !IsMul(op.op) {
          if lowOp.Pending? {
            var v := value;
            value := lhs;
            ApplyHeld();
            lhs, value := value, v;
          }
          lowLhs, lowOp, op := lhs, op, Nothing;
        } else {
          ApplyPending();
          if !BindsTighter(k) {
            ApplyHeld();
          }
        }
      } else if op.Nothing? && entered && lowOp.Pending? && !BindsTighter(k) {
        ApplyHeld();
      }
      if fault.Fault? {
        return;
      }
      lhs := value;
      op := if k.Equals? then Nothing else Pending(k.op);
      blank, entered := true, false;
    }

    method TypeDigit(d: nat)
      requires d <= 9
      modifies this
      ensures Now() == Typed(old(Now()), Digit(d))
    {
      if blank {
        value := 0;
      }
      blank, entered := false, true;
      if Abs(value) > (LIMIT - d) / 10 {
        fault := Fault(Overflow);
      } else {
        value := if value < 0 then value * 10 - d else value * 10 + d;
      }
    }

    /** `calc_key`. */
    method CalcKey(code: int)
      modifies this
      ensures Now() == Step(old(Now()), Decode(code))
    {
      var k := Decode(code);
      if k.Clear? {
        Reset();
        return;
      }
      if fault.Fault? {
        if !k.Digit? {
          return;
        }
        Reset();
      }
      match k {
        case Digit(d) => TypeDigit(d);
        case Back =>
          value := if blank then 0 else Truncated(value, 10);
          blank, entered := false, true;
        case Sign =>
          if blank && op.Pending? {
            value := 0;
          }
          value, blank, entered := -value, false, true;
        case Operator(_) => PressOperator(k);
        case Equals => PressOperator(k);
        case _ =>
      }
    }

    /** `calc_display`: the error, or the value in decimal. */
    method Display() returns (out: string)
      ensures match fault
              case Fault(Overflow) => out == "Overflow"
              case Fault(ZeroDivide) => out == "Division by zero"
              case NoFault => out == (if value < 0 then "-" else "") + Decimal(Abs(value))
    {
      if fault.Fault? {
        return if fault.e.Overflow? then "Overflow" else "Division by zero";
      }
      var rev := ReversedDigits(Abs(value));
      out := AppendBackwards(if value < 0 then "-" else "", rev);
    }
  }

  /** The decimal digits of a number, last one first. */
  method ReversedDigits(n: nat) returns (rev: string)
    ensures Backwards(rev) == Decimal(n)
  {
    rev := [DigitChar(n)];
    var v: nat := n / 10;
    DecimalSplit(n, []);
    while v != 0
      invariant Decimal(n) == (if v == 0 then "" else Decimal(v)) + Backwards(rev)
    {
      DecimalSplit(v, rev);
      rev := rev + [DigitChar(v)];
      v := v / 10;
    }
  }

  function DigitChar(n: nat): char {
    '0' + ((n % 10) as char)
  }

  lemma DecimalSplit(n: nat, rev: string)
    ensures Decimal(n) + Backwards(rev) == (if n < 10 then "" else Decimal(n / 10)) + Backwards(rev + [DigitChar(n)])
  {
    assert (rev + [DigitChar(n)])[..|rev|] == rev;
    if n < 10 {
      SmallDecimal(n);
    } else {
      DecimalStep(n);
    }
  }

  method AppendBackwards(sign: string, rev: string) returns (out: string)
    ensures out == sign + Backwards(rev)
  {
    out := sign;
    var n: nat := |rev|;
    assert rev[..n] == rev;
    while n > 0
      invariant n <= |rev| && sign + Backwards(rev) == out + Backwards(rev[..n])
    {
      n := n - 1;
      assert rev[..n + 1][..n] == rev[..n] && rev[..n + 1][n] == rev[n];
      out := out + [rev[n]];
    }
  }

  function Backwards(s: string): string {
    if s == [] then [] else [s[|s| - 1]] + Backwards(s[..|s| - 1])
  }

  lemma SmallDecimal(n: nat)
    requires n < 10
    ensures Decimal(n) == ['0' + (n as char)]
  {
    assert Digits(n) == [Digit(n)] && [Digit(n)][..0] == [];
    assert Chars([Digit(n)][..0]) == [];
  }
}
