/** The calculator on 64-bit registers: every sum, difference, product, quotient and negation wraps
    around. No run ever gets to see it. */
module CalcWidth {
  import opened CalcExpr
  import opened CalcMachine
  import opened Powers

  const I64_MIN: int := -0x8000_0000_0000_0000
  const I64_MAX: int := 0x7FFF_FFFF_FFFF_FFFF

  /** Two's complement. */
  function Wrap64(x: int): int {
    (x - I64_MIN) % U64 + I64_MIN
  }

  lemma WrapFits(x: int)
    requires I64_MIN <= x <= I64_MAX
    ensures Wrap64(x) == x
  {
  }

  function Abs64(a: int): int {
    if a < 0 then Wrap64(-a) else a
  }

  function BinOp64(c: State, a: int, op: Op, b: int): State {
    if op.Mul? && Abs64(b) != 0 && Abs64(a) > Truncated(LIMIT, Abs64(b)) then c.(fault := Fault(Overflow))
    else if op.Div? && b == 0 then c.(fault := Fault(ZeroDivide))
    else
      var v := Wrap64(Exact(a, op, b));
      c.(value := v, fault := if v > LIMIT || v < -LIMIT then Fault(Overflow) else c.fault)
  }

  function Apply64(c: State): State {
    if c.op.Nothing? then c else BinOp64(c, c.lhs, c.op.op, c.value).(op := Nothing)
  }

  function ApplyLow64(c: State): State {
    if c.lowOp.Nothing? || c.fault.Fault? then c
    else BinOp64(c, c.lowLhs, c.lowOp.op, c.value).(lowOp := Nothing)
  }

  function Hold64(c: State): State {
    var folded := if c.lowOp.Nothing? then c
                  else var f := ApplyLow64(c.(value := c.lhs)); f.(lhs := f.value, value := c.value);
    folded.(lowLhs := folded.lhs, lowOp := folded.op, op := Nothing)
  }

  function Pressed64(c: State, k: Key): State
    requires k.Operator? || k.Equals?
  {
    var folded :=
      if c.op.Pending? && c.entered then
        if BindsTighter(k) && !IsMul(c.op.op) then Hold64(c)
        else if BindsTighter(k) then Apply64(c) else ApplyLow64(Apply64(c))
      else if c.op.Nothing? && c.entered && c.lowOp.Pending? && !BindsTighter(k) then ApplyLow64(c)
      else c;
    if folded.fault.Fault? then folded
    else folded.(lhs := folded.value, op := if k.Equals? then Nothing else Pending(k.op),
                 blank := true, entered := false)
  }

  function Typed64(c: State, k: Key): State
    requires k.Digit? || k.Back? || k.Sign?
  {
    match k
    case Digit(d) =>
      var v := if c.blank then 0 else c.value;
      var c' := c.(value := v, blank := false, entered := true);
      if Abs64(v) > Truncated(LIMIT - d, 10) then c'.(fault := Fault(Overflow))
      else c'.(value := Wrap64(Wrap64(v * 10) + (if v < 0 then -(d as int) else d as int)))
    case Back => c.(value := if c.blank then 0 else Wrap64(Truncated(c.value, 10)), blank := false, entered := true)
    case Sign =>
      c.(value := Wrap64(-(if c.blank && c.op.Pending? then 0 else c.value)), blank := false, entered := true)
  }

  function Step64(c: State, k: Key): State {
    if k.Clear? then INIT
    else if c.fault.Fault? && !k.Digit? then c
    else
      var c' := if c.fault.Fault? then INIT else c;
      match k
      case Digit(_) => Typed64(c', k)
      case Back => Typed64(c', k)
      case Sign => Typed64(c', k)
      case Operator(_) => Pressed64(c', k)
      case Equals => Pressed64(c', k)
      case _ => c'
  }

  function Run64(c: State, keys: seq<Key>): State
    decreases |keys|
  {
    if keys == [] then c else Step64(Run64(c, keys[..|keys| - 1]), keys[|keys| - 1])
  }

  /** With bounded registers no intermediate result leaves 64 bits: sums of two registers, products
      that passed the test, and a register times ten plus a digit. */
  lemma NoWrap(a: int, b: int, d: nat)
    requires Bounded(a) && Bounded(b) && d <= 9
    ensures I64_MIN <= a + b <= I64_MAX && I64_MIN <= a - b <= I64_MAX && I64_MIN <= -a <= I64_MAX
    ensures b == 0 || Abs(a) <= LIMIT / Abs(b) ==> I64_MIN <= a * b <= I64_MAX
    ensures Abs(a) <= (LIMIT - d) / 10 ==> I64_MIN <= a * 10 - d && a * 10 + d <= I64_MAX
    ensures b != 0 ==> I64_MIN <= Truncated(a, b) <= I64_MAX
  {
    if b != 0 {
      ProductTest(a, b);
      TruncatedShrinks(a, b);
    } else {
      assert a * b == 0;
    }
  }

  lemma AbsFits(a: int)
    requires Bounded(a)
    ensures Abs64(a) == Abs(a) && forall n: nat :: a != 0 ==> Truncated(n, Abs(a)) == n / Abs(a)
  {
  }

  lemma BinOpFits(c: State, a: int, op: Op, b: int)
    requires Bounded(a) && Bounded(b)
    ensures BinOp64(c, a, op, b) == BinOp(c, a, op, b)
  {
    hide Wrap64, Truncated, Abs64, Abs;
    AbsFits(a);
    AbsFits(b);
    assert b == 0 <==> Abs(b) == 0 by { AbsIsZero(b); }
    NoWrap(a, b, 0);
    if op.Mul? && b != 0 && Abs(a) > LIMIT / Abs(b) {
    } else if op.Div? ==> b != 0 {
      WrapFits(Exact(a, op, b));
    }
  }

  lemma AbsIsZero(a: int)
    ensures Abs(a) == 0 <==> a == 0
  {
  }

  lemma ApplyLowFits(c: State)
    requires Bounds(c)
    ensures ApplyLow64(c) == ApplyLow(c)
  {
    hide BinOp, BinOp64;
    if c.lowOp.Pending? && c.fault.NoFault? {
      BinOpFits(c, c.lowLhs, c.lowOp.op, c.value);
    }
  }

  lemma PressedFits(c: State, k: Key)
    requires Bounds(c) && c.fault.NoFault? && (k.Operator? || k.Equals?)
    ensures Pressed64(c, k) == Pressed(c, k)
  {
    hide BinOp, BinOp64;
    if c.op.Pending? && c.entered {
      if BindsTighter(k) && !IsMul(c.op.op) {
        ApplyLowFits(c.(value := c.lhs));
      } else {
        BinOpFits(c, c.lhs, c.op.op, c.value);
        BinOpKeepsBounds(c, c.lhs, c.op.op, c.value);
        ApplyLowFits(Apply(c));
      }
    } else {
      ApplyLowFits(c);
    }
  }

  lemma TypedFits(c: State, k: Key)
    requires Bounds(c) && c.fault.NoFault? && (k.Digit? || k.Back? || k.Sign?) && (k.Digit? ==> k.d <= 9)
    ensures Typed64(c, k) == Typed(c, k)
  {
    hide Wrap64, Truncated, Abs64;
    match k
    case Digit(d) =>
      var v := if c.blank then 0 else c.value;
      AbsFits(v);
      AbsFits(10);
      NoWrap(v, 10, d);
      if Abs(v) <= (LIMIT - d) / 10 {
        WrapFits(v * 10);
        WrapFits(if v < 0 then v * 10 - d else v * 10 + d);
      }
    case Back =>
      NoWrap(c.value, 10, 0);
      WrapFits(Truncated(c.value, 10));
    case Sign =>
      WrapFits(-c.value);
      WrapFits(0);
  }

  /** Whatever keys are pressed, the machine on 64-bit registers goes through the states of the machine
      on integers. */
  lemma {:induction false} NoRunWraps(keys: seq<Key>)
    requires forall k :: k in keys && k.Digit? ==> k.d <= 9
    ensures Run64(INIT, keys) == Run(INIT, keys)
    decreases |keys|
  {
    if keys != [] {
      var c, k := Run(INIT, keys[..|keys| - 1]), keys[|keys| - 1];
      NoRunWraps(keys[..|keys| - 1]);
      RunKeepsBounds(keys[..|keys| - 1]);
      var c' := if c.fault.Fault? then INIT else c;
      if k.Operator? || k.Equals? {
        PressedFits(c', k);
      } else if k.Digit? || k.Back? || k.Sign? {
        TypedFits(c', k);
      }
    }
  }
}
