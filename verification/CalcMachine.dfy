/** The calculator: one key at a time, with two pending operations at most. */
module CalcMachine {
  import opened CalcExpr

  datatype Pending = Nothing | Pending(op: Op)

  datatype Fault = NoFault | Fault(e: Error)

  datatype Key = Clear | Digit(d: nat) | Back | Sign | Operator(op: Op) | Equals | Other

  datatype State = State(value: int, lhs: int, lowLhs: int, op: Pending, lowOp: Pending,
                         blank: bool, entered: bool, fault: Fault)

  const INIT: State := State(0, 0, 0, Nothing, Nothing, true, false, NoFault)

  function Decode(code: int): (k: Key)
    ensures k.Digit? ==> k.d <= 9
  {
    if code == 67 || code == 99 || code == 27 then Clear
    else if 48 <= code <= 57 then Digit(code - 48)
    else if code == 8 || code == 127 then Back
    else if code == 115 || code == 83 then Sign
    else if code == 43 then Operator(Add)
    else if code == 45 then Operator(Sub)
    else if code == 42 then Operator(Mul)
    else if code == 47 then Operator(Div)
    else if code == 61 || code == 13 || code == 10 then Equals
    else Other
  }

  /** `calc_binop`: the result in `value`, or the fault. The product is tested before it is formed. */
  function BinOp(c: State, a: int, op: Op, b: int): State {
    if op.Mul? && b != 0 && Abs(a) > LIMIT / Abs(b) then c.(fault := Fault(Overflow))
    else if op.Div? && b == 0 then c.(fault := Fault(ZeroDivide))
    else
      var v := Exact(a, op, b);
      c.(value := v, fault := if v > LIMIT || v < -LIMIT then Fault(Overflow) else c.fault)
  }

  function Apply(c: State): State {
    if c.op.Nothing? then c else BinOp(c, c.lhs, c.op.op, c.value).(op := Nothing)
  }

  function ApplyLow(c: State): State {
    if c.lowOp.Nothing? || c.fault.Fault? then c
    else BinOp(c, c.lowLhs, c.lowOp.op, c.value).(lowOp := Nothing)
  }

  /** A tighter operator arrives over a looser pending one: hold the looser one low. */
  function Hold(c: State): State {
    var folded := if c.lowOp.Nothing? then c
                  else var f := ApplyLow(c.(value := c.lhs)); f.(lhs := f.value, value := c.value);
    folded.(lowLhs := folded.lhs, lowOp := folded.op, op := Nothing)
  }

  function BindsTighter(k: Key): bool {
    k.Operator? && IsMul(k.op)
  }

  function Pressed(c: State, k: Key): State
    requires k.Operator? || k.Equals?
  {
    var folded :=
      if c.op.Pending? && c.entered then
        if BindsTighter(k) && !IsMul(c.op.op) then Hold(c)
        else if BindsTighter(k) then Apply(c) else ApplyLow(Apply(c))
      else if c.op.Nothing? && c.entered && c.lowOp.Pending? && !BindsTighter(k) then ApplyLow(c)
      else c;
    if folded.fault.Fault? then folded
    else folded.(lhs := folded.value, op := if k.Equals? then Nothing else Pending(k.op),
                 blank := true, entered := false)
  }

  function Typed(c: State, k: Key): State
    requires k.Digit? || k.Back? || k.Sign?
  {
    match k
    case Digit(d) =>
      var v := if c.blank then 0 else c.value;
      var c' := c.(value := v, blank := false, entered := true);
      if Abs(v) > (LIMIT - d) / 10 then c'.(fault := Fault(Overflow))
      else c'.(value := if v < 0 then v * 10 - d else v * 10 + d)
    case Back => c.(value := if c.blank then 0 else Truncated(c.value, 10), blank := false, entered := true)
    case Sign => c.(value := -(if c.blank && c.op.Pending? then 0 else c.value), blank := false, entered := true)
  }

  function Step(c: State, k: Key): State {
    if k.Clear? then INIT
    else if c.fault.Fault? && !k.Digit? then c
    else
      var c' := if c.fault.Fault? then INIT else c;
      match k
      case Digit(_) => Typed(c', k)
      case Back => Typed(c', k)
      case Sign => Typed(c', k)
      case Operator(_) => Pressed(c', k)
      case Equals => Pressed(c', k)
      case _ => c'
  }

  function Run(c: State, keys: seq<Key>): State
    decreases |keys|
  {
    if keys == [] then c else Step(Run(c, keys[..|keys| - 1]), keys[|keys| - 1])
  }

  // ---- Bounds on every run --------------------------------------------------------------

  predicate Bounds(c: State) {
    c.fault.NoFault? ==> Bounded(c.value) && Bounded(c.lhs) && Bounded(c.lowLhs)
  }

  lemma MulMonotone(a: nat, b: nat, y: nat)
    requires a <= b
    ensures a * y <= b * y
  {
  }

  lemma QuotientTest(x: nat, y: nat, n: nat)
    requires y > 0
    ensures x <= n / y <==> x * y <= n
  {
    var q := n / y;
    assert n == q * y + n % y;
    if x <= q {
      MulMonotone(x, q, y);
    } else {
      MulMonotone(q + 1, x, y);
      assert (q + 1) * y == q * y + y;
    }
  }

  lemma TruncatedShrinks(a: int, b: int)
    requires b != 0
    ensures Abs(Truncated(a, b)) <= Abs(a)
  {
    var x, y := Abs(a), Abs(b);
    QuotientTest(x + 1, y, x);
    MulMonotone(1, y, x + 1);
  }

  lemma AbsProduct(a: int, b: int)
    ensures Abs(a * b) == Abs(a) * Abs(b)
  {
    if a < 0 {
      if b < 0 { assert a * b == (-a) * (-b); } else { assert a * b == -((-a) * b); }
    } else if b < 0 {
      assert a * b == -(a * (-b));
    }
  }

  /** The product test is exact: it passes iff the product is in the bound. */
  lemma ProductTest(a: int, b: int)
    requires b != 0
    ensures Abs(a) <= LIMIT / Abs(b) <==> Bounded(a * b)
  {
    QuotientTest(Abs(a), Abs(b), LIMIT);
    AbsProduct(a, b);
  }

  /** The fold the machine performs is the checked fold. */
  lemma BinOpIsFold(c: State, a: int, op: Op, b: int)
    requires c.fault.NoFault? && Bounded(a) && Bounded(b)
    ensures match Fold(Ok(a), op, Ok(b))
            case Ok(v) => BinOp(c, a, op, b) == c.(value := v) && Bounded(v)
            case Err(e) => BinOp(c, a, op, b).fault == Fault(e)
  {
    if op.Mul? {
      if b == 0 { assert a * b == 0; } else { ProductTest(a, b); }
    }
    if op.Div? && b != 0 {
      TruncatedShrinks(a, b);
    }
  }

  lemma BinOpKeepsBounds(c: State, a: int, op: Op, b: int)
    requires Bounds(c) && c.fault.NoFault? && Bounded(a) && Bounded(b)
    ensures Bounds(BinOp(c, a, op, b))
  {
    BinOpIsFold(c, a, op, b);
  }

  lemma ApplyLowKeepsBounds(c: State)
    requires Bounds(c)
    ensures Bounds(ApplyLow(c))
  {
    if c.lowOp.Pending? && c.fault.NoFault? {
      BinOpKeepsBounds(c, c.lowLhs, c.lowOp.op, c.value);
    }
  }

  lemma PressedKeepsBounds(c: State, k: Key)
    requires Bounds(c) && c.fault.NoFault? && (k.Operator? || k.Equals?)
    ensures Bounds(Pressed(c, k))
  {
    if c.op.Pending? && c.entered {
      if BindsTighter(k) && !IsMul(c.op.op) {
        ApplyLowKeepsBounds(c.(value := c.lhs));
      } else {
        BinOpKeepsBounds(c, c.lhs, c.op.op, c.value);
        ApplyLowKeepsBounds(Apply(c));
      }
    } else {
      ApplyLowKeepsBounds(c);
    }
  }

  lemma StepKeepsBounds(c: State, k: Key)
    requires Bounds(c) && (k.Digit? ==> k.d <= 9)
    ensures Bounds(Step(c, k))
  {
    var c' := if c.fault.Fault? then INIT else c;
    if k.Operator? || k.Equals? {
      PressedKeepsBounds(c', k);
    } else if k.Back? && c'.fault.NoFault? && !c'.blank {
      TruncatedShrinks(c'.value, 10);
    }
  }

  /** On any run of keys every register stays within 18 digits as long as no fault is shown. */
  lemma {:induction false} RunKeepsBounds(keys: seq<Key>)
    requires forall k :: k in keys && k.Digit? ==> k.d <= 9
    ensures Bounds(Run(INIT, keys))
    decreases |keys|
  {
    if keys != [] {
      RunKeepsBounds(keys[..|keys| - 1]);
      StepKeepsBounds(Run(INIT, keys[..|keys| - 1]), keys[|keys| - 1]);
    }
  }
}
