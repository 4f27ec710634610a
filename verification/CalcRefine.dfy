/** The calculator computes expressions: from any settled state, typing an expression and `=` ends
    with its value, or shows its first error at the key whose fold meets it. */
module CalcRefine {
  import opened CalcExpr
  import opened CalcMachine

  // ---- Typing a number ------------------------------------------------------------------

  predicate IsEntry(k: Key) {
    (k.Digit? && k.d <= 9) || k.Back? || k.Sign?
  }

  predicate AllEntry(ks: seq<Key>) {
    forall k :: k in ks ==> IsEntry(k)
  }

  function EnterOne(v: int, k: Key): Value
    requires IsEntry(k)
  {
    match k
    case Digit(d) => if Abs(v) > (LIMIT - d) / 10 then Err(Overflow)
                     else Ok(if v < 0 then v * 10 - d else v * 10 + d)
    case Back => Ok(Truncated(v, 10))
    case Sign => Ok(-v)
  }

  /** The number a row of digits, deletions and sign changes stands for. */
  function Entered(start: int, ks: seq<Key>): Value
    requires AllEntry(ks)
    decreases |ks|
  {
    if ks == [] then Ok(start)
    else match Entered(start, ks[..|ks| - 1])
         case Err(e) => Err(e)
         case Ok(v) => EnterOne(v, ks[|ks| - 1])
  }

  /** A leading sign key on a shown result changes the sign of that result. */
  function Start(c: State, k: Key): int {
    if k.Sign? && c.op.Nothing? then c.value else 0
  }

  lemma EntryStep(c: State, k: Key)
    requires c.fault.NoFault? && IsEntry(k)
    ensures var v := if c.blank then Start(c, k) else c.value;
            match EnterOne(v, k)
            case Ok(v') => Step(c, k) == WithNumber(c, v')
            case Err(e) => Step(c, k).fault == Fault(e)
  {
    assert Truncated(0, 10) == 0;
  }

  lemma {:induction false} TypingEnters(c: State, ks: seq<Key>)
    requires c.blank && c.fault.NoFault? && ks != [] && AllEntry(ks)
    requires Entered(Start(c, ks[0]), ks[..|ks| - 1]).Ok?
    ensures match Entered(Start(c, ks[0]), ks)
            case Ok(v) => RunToFault(c, ks) == WithNumber(c, v)
            case Err(e) => RunToFault(c, ks).fault == Fault(e)
    decreases |ks|
  {
    var m := |ks| - 1;
    assert ks[m] in ks;
    if m == 0 {
      assert ks[..m] == [];
      EntryStep(c, ks[0]);
    } else {
      assert ks[..m][..m - 1] == ks[..m - 1];
      TypingEnters(c, ks[..m]);
      EntryStep(RunToFault(c, ks[..m]), ks[m]);
    }
  }

  function Digits(n: nat): seq<Key> {
    if n < 10 then [Digit(n)] else Digits(n / 10) + [Digit(n % 10)]
  }

  /** Typing the decimal digits of a number within the bound enters that number. */
  lemma {:induction false} DigitsEnter(n: nat)
    requires n <= LIMIT
    ensures AllEntry(Digits(n)) && Entered(0, Digits(n)) == Ok(n)
  {
    if n >= 10 {
      DigitsEnter(n / 10);
      assert Digits(n)[..|Digits(n)| - 1] == Digits(n / 10);
    } else {
      assert Digits(n)[..0] == [];
    }
  }

  // ---- The state between keys -----------------------------------------------------------

  function LastTerm(s: Sum): Term {
    if s.rest == [] then s.first else s.rest[|s.rest| - 1].1
  }

  /** The value of everything before the last term, where there is more than one. */
  function Before(s: Sum): Value
    requires s.rest != []
  {
    EvalRest(EvalTerm(s.first), s.rest[..|s.rest| - 1])
  }

  /** Nothing pending: the state after `=`, and the initial one. */
  predicate Ready(c: State) {
    c.fault.NoFault? && c.op.Nothing? && c.lowOp.Nothing? && c.blank && !c.entered && Bounded(c.value)
  }

  /** The expression `s` has been typed, then `op`. */
  predicate AfterOp(s: Sum, op: Op, c: State) {
    && c.fault.NoFault? && c.op == Pending(op) && c.blank && !c.entered && Bounded(c.lhs) && c.value == c.lhs
    && if IsMul(op) then
         && Ok(c.lhs) == EvalTerm(LastTerm(s))
         && if s.rest == [] then c.lowOp.Nothing?
            else c.lowOp == Pending(s.rest[|s.rest| - 1].0) && Ok(c.lowLhs) == Before(s) && Bounded(c.lowLhs)
       else Ok(c.lhs) == EvalSum(s) && c.lowOp.Nothing?
  }

  /** What the key `k`, typed behind `s`, makes the machine work out. */
  function Due(s: Sum, k: Key): Value {
    if BindsTighter(k) then EvalTerm(LastTerm(s)) else EvalSum(s)
  }

  function WithNumber(c: State, n: int): State {
    c.(value := n, blank := false, entered := true)
  }

  ghost predicate Settled(s: Sum, k: Key, c: State)
    requires k.Operator? || k.Equals?
  {
    match Due(s, k)
    case Err(e) => c.fault == Fault(e)
    case Ok(v) => if k.Equals? then Ready(c) && c.value == v else AfterOp(s, k.op, c)
  }

  lemma ExtendFacts(p: Sum, l: Link)
    ensures var s := Extend(p, l);
            && s.rest != [] ==> s.rest[|s.rest| - 1].0 == if IsMul(l.op) then p.rest[|p.rest| - 1].0 else l.op
    ensures var s := Extend(p, l);
            if IsMul(l.op) then
              && EvalTerm(LastTerm(s)) == Fold(EvalTerm(LastTerm(p)), l.op, Ok(l.n))
              && (s.rest == [] <==> p.rest == []) && (s.rest != [] ==> Before(s) == Before(p))
            else s.rest != [] && EvalTerm(LastTerm(s)) == Ok(l.n) && Before(s) == EvalSum(p)
  {
    var s := Extend(p, l);
    var t := LastTerm(s);
    if IsMul(l.op) {
      assert t.links[..|t.links| - 1] == LastTerm(p).links;
      if p.rest != [] {
        assert s.rest[..|s.rest| - 1] == p.rest[..|p.rest| - 1];
      }
    } else {
      assert s.rest[..|s.rest| - 1] == p.rest;
    }
  }

  lemma SumOfLast(s: Sum)
    ensures EvalSum(s) == if s.rest == [] then EvalTerm(LastTerm(s))
                          else Fold(Before(s), s.rest[|s.rest| - 1].0, EvalTerm(LastTerm(s)))
  {
  }

  // ---- One operator key -----------------------------------------------------------------

  /** The operand typed last stands alone. */
  lemma FirstSettles(n: int, c: State, k: Key)
    requires Ready(c) && Bounded(n) && (k.Operator? || k.Equals?)
    ensures Settled(Sum(Term(n, []), []), k, Pressed(WithNumber(c, n), k))
  {
  }

  lemma LowSettles(p: Sum, op: Op, n: int, c: State, k: Key)
    requires AfterOp(p, op, c) && !IsMul(op) && Bounded(n) && (k.Operator? || k.Equals?)
    ensures Settled(Extend(p, Link(op, n)), k, Pressed(WithNumber(c, n), k))
  {
    var s := Extend(p, Link(op, n));
    ExtendFacts(p, Link(op, n));
    SumOfLast(s);
    BinOpIsFold(WithNumber(c, n), c.lhs, op, n);
  }

  lemma MulApplies(p: Sum, op: Op, n: int, c: State)
    requires AfterOp(p, op, c) && IsMul(op) && Bounded(n)
    ensures match EvalTerm(LastTerm(Extend(p, Link(op, n))))
            case Ok(v) => Apply(WithNumber(c, n)) == WithNumber(c, v).(op := Nothing) && Bounded(v)
            case Err(e) => Apply(WithNumber(c, n)).fault == Fault(e)
  {
    ExtendFacts(p, Link(op, n));
    BinOpIsFold(WithNumber(c, n), c.lhs, op, n);
  }

  lemma LowApplies(s: Sum, c: State)
    requires c.fault.NoFault? && Ok(c.value) == EvalTerm(LastTerm(s)) && Bounded(c.value)
    requires if s.rest == [] then c.lowOp.Nothing?
             else c.lowOp == Pending(s.rest[|s.rest| - 1].0) && Ok(c.lowLhs) == Before(s) && Bounded(c.lowLhs)
    ensures match EvalSum(s)
            case Ok(v) => ApplyLow(c) == c.(value := v, lowOp := Nothing) && Bounded(v)
            case Err(e) => ApplyLow(c).fault == Fault(e)
  {
    SumOfLast(s);
    if s.rest != [] {
      BinOpIsFold(c, c.lowLhs, c.lowOp.op, c.value);
    }
  }

  lemma MulSettles(p: Sum, op: Op, n: int, c: State, k: Key)
    requires AfterOp(p, op, c) && IsMul(op) && Bounded(n) && (k.Operator? || k.Equals?)
    ensures Settled(Extend(p, Link(op, n)), k, Pressed(WithNumber(c, n), k))
  {
    hide Extend, BinOp, EvalTerm, EvalSum;
    var s := Extend(p, Link(op, n));
    ExtendFacts(p, Link(op, n));
    MulApplies(p, op, n, c);
    var c2 := Apply(WithNumber(c, n));
    if EvalTerm(LastTerm(s)).Ok? {
      LowApplies(s, c2);
    } else {
      SumOfLast(s);
    }
  }

  /** Pressing an operator or `=` works out exactly what is due, and faults iff that fails. */
  lemma KeySettles(p: Sum, op: Op, n: int, c: State, k: Key)
    requires AfterOp(p, op, c) && Bounded(n) && (k.Operator? || k.Equals?)
    ensures Settled(Extend(p, Link(op, n)), k, Pressed(WithNumber(c, n), k))
  {
    if IsMul(op) {
      MulSettles(p, op, n, c, k);
    } else {
      LowSettles(p, op, n, c, k);
    }
  }

  // ---- An operator pressed over another -------------------------------------------------

  /** Pressing an operator over the one just pressed leaves the state that it alone would have left, if
      and only if both bind alike or nothing but one term has been typed. */
  lemma OverIsRightIff(s: Sum, over: Op, c: State, op: Op)
    requires AfterOp(s, over, c)
    ensures AfterOp(s, op, Pressed(c, Operator(op))) <==> s.rest == [] || IsMul(over) == IsMul(op)
  {
    SumOfLast(s);
  }

  /** Where they do not bind alike, this is what the next operand and `=` give. After a tight operator
      the loose one is folded before the loose one that still waits, so the line is grouped from the
      right; after a loose one the tight one gets the whole sum for its operand. */
  lemma OverGroupsOtherwise(s: Sum, over: Op, c: State, op: Op, n: int)
    requires AfterOp(s, over, c) && s.rest != [] && IsMul(over) != IsMul(op) && Bounded(n)
    ensures var r := Pressed(WithNumber(Pressed(c, Operator(op)), n), Equals);
            match Otherwise(s, op, n)
            case Ok(v) => Ready(r) && r.value == v
            case Err(e) => r.fault == Fault(e)
  {
    var c1 := WithNumber(Pressed(c, Operator(op)), n);
    BinOpIsFold(c1, c.lhs, op, n);
    if IsMul(over) {
      var c2 := Apply(c1);
      if c2.fault.NoFault? {
        BinOpIsFold(c2, c.lowLhs, c.lowOp.op, c2.value);
      }
    } else {
      SumOfLast(s);
    }
  }

  /** `=` pressed directly behind an operator settles the line, with the value of what was typed before
      the operator, if and only if that operator is loose or only one term has been typed. Otherwise the
      last term is shown and the loose operation stays held. */
  lemma EqualsBehindOperator(s: Sum, op: Op, c: State)
    requires AfterOp(s, op, c)
    ensures var r := Pressed(c, Equals);
            && (Ready(r) <==> !IsMul(op) || s.rest == [])
            && (Ready(r) ==> Ok(r.value) == EvalSum(s))
            && (!Ready(r) ==> r.fault.NoFault? && Ok(r.value) == EvalTerm(LastTerm(s))
                              && r.lowOp == Pending(s.rest[|s.rest| - 1].0) && Ok(r.lowLhs) == Before(s))
  {
    SumOfLast(s);
  }

  function Otherwise(s: Sum, op: Op, n: int): Value
    requires s.rest != []
  {
    if IsMul(op) then Fold(EvalSum(s), op, Ok(n))
    else Fold(Before(s), s.rest[|s.rest| - 1].0, Fold(EvalTerm(LastTerm(s)), op, Ok(n)))
  }

  /** The operators pressed in a row behind `s` leave no trace of all but the last. */
  predicate LastWins(s: Sum, ops: seq<Op>)
    requires ops != []
  {
    s.rest == [] || forall o :: o in ops ==> IsMul(o) == IsMul(ops[|ops| - 1])
  }

  function OpKeys(ops: seq<Op>): (ks: seq<Key>)
    ensures |ks| == |ops|
  {
    seq(|ops|, i requires 0 <= i < |ops| => Operator(ops[i]))
  }

  // ---- Errors stay ----------------------------------------------------------------------

  /** The first failing fold of `s`, read from the left, fails with `e`. */
  predicate Stuck(s: Sum, e: Error) {
    if s.rest != [] && Before(s).Err? then Before(s) == Err(e) else EvalTerm(LastTerm(s)) == Err(e)
  }

  lemma StuckExtends(s: Sum, e: Error, l: Link)
    requires Stuck(s, e)
    ensures EvalSum(s) == Err(e) && Stuck(Extend(s, l), e)
  {
    SumOfLast(s);
    ExtendFacts(s, l);
  }

  lemma DueErrorSticks(s: Sum, k: Key, e: Error)
    requires (k.Operator? || k.Equals?) && Due(s, k) == Err(e)
    requires BindsTighter(k) && s.rest != [] ==> Before(s).Ok?
    ensures k.Operator? ==> forall n :: Stuck(Extend(s, Link(k.op, n)), e)
    ensures k.Equals? ==> EvalSum(s) == Err(e)
  {
    if k.Operator? {
      forall n ensures Stuck(Extend(s, Link(k.op, n)), e) {
        ExtendFacts(s, Link(k.op, n));
      }
    }
  }

  lemma {:induction false} StuckStays(first: int, links: seq<Link>, j: nat, e: Error)
    requires j <= |links| && Stuck(Parse(first, links[..j]), e)
    ensures Stuck(Parse(first, links), e) && Eval(first, links) == Err(e)
    decreases |links|
  {
    if j == |links| {
      assert links[..j] == links;
      StuckExtends(Parse(first, links), e, Link(Add, 0));
    } else {
      var m := |links| - 1;
      assert links[..m][..j] == links[..j];
      StuckStays(first, links[..m], j, e);
      StuckExtends(Parse(first, links[..m]), e, links[m]);
      StuckExtends(Parse(first, links), e, Link(Add, 0));
    }
  }

  // ---- Whole expressions ----------------------------------------------------------------

  /** The keys of the operand number `i`, and the number they enter. */
  datatype Operand = Operand(keys: seq<Key>, n: int)

  /** Operator keys, of which the last counts, and the operand behind them. */
  datatype Tail = Tail(over: seq<Op>, op: Op, x: Operand)

  function Ops(t: Tail): seq<Op> {
    t.over + [t.op]
  }

  predicate Enters(start: int, x: Operand) {
    x.keys != [] && AllEntry(x.keys) && Entered(start, x.keys) == Ok(x.n) && Bounded(x.n)
  }

  function Links(tail: seq<Tail>): seq<Link>
  {
    if tail == [] then [] else Links(tail[..|tail| - 1]) + [Link(tail[|tail| - 1].op, tail[|tail| - 1].x.n)]
  }

  function Keys(first: Operand, tail: seq<Tail>): seq<Key> {
    if tail == [] then first.keys
    else Keys(first, tail[..|tail| - 1]) + OpKeys(Ops(tail[|tail| - 1])) + tail[|tail| - 1].x.keys
  }

  /** The keys up to the one that shows a fault, and no further. */
  function RunToFault(c: State, keys: seq<Key>): State
    decreases |keys|
  {
    if keys == [] then c
    else var c' := RunToFault(c, keys[..|keys| - 1]);
         if c'.fault.Fault? then c' else Step(c', keys[|keys| - 1])
  }

  lemma {:induction false} RunInParts(c: State, a: seq<Key>, b: seq<Key>)
    ensures RunToFault(c, a + b) == if RunToFault(c, a).fault.Fault? then RunToFault(c, a)
                                    else RunToFault(RunToFault(c, a), b)
    decreases |b|
  {
    if b == [] {
      assert a + b == a;
    } else {
      RunInParts(c, a, b[..|b| - 1]);
      assert (a + b)[..|a + b| - 1] == a + b[..|b| - 1];
    }
  }

  ghost predicate GoodLine(c: State, first: Operand, tail: seq<Tail>) {
    && first.keys != [] && Enters(Start(c, first.keys[0]), first)
    && (forall i :: 0 <= i < |tail| ==> Enters(0, tail[i].x))
    && (forall i :: 0 <= i < |tail| ==> LastWins(TreeOf(first, tail[..i]), Ops(tail[i])))
  }

  lemma ShorterLine(c: State, first: Operand, tail: seq<Tail>)
    requires GoodLine(c, first, tail) && tail != []
    ensures GoodLine(c, first, tail[..|tail| - 1])
    ensures LastWins(TreeOf(first, tail[..|tail| - 1]), Ops(tail[|tail| - 1])) && Enters(0, tail[|tail| - 1].x)
  {
    hide Parse, LastWins, Enters;
    var m := |tail| - 1;
    forall i | 0 <= i < m ensures LastWins(TreeOf(first, tail[..m][..i]), Ops(tail[..m][i])) {
      assert tail[..m][..i] == tail[..i];
    }
  }

  function TreeOf(first: Operand, tail: seq<Tail>): Sum {
    Parse(first.n, Links(tail))
  }

  /** The last operand has been typed behind the operator `tail` ends with; `c1` was the state then. */
  ghost predicate TypedAfter(first: Operand, tail: seq<Tail>, c: State, c1: State, r: State) {
    if tail == [] then c1 == c && r == WithNumber(c, first.n)
    else
      var m := |tail| - 1;
      AfterOp(TreeOf(first, tail[..m]), tail[m].op, c1) && r == WithNumber(c1, tail[m].x.n)
  }

  lemma TreeStep(first: Operand, tail: seq<Tail>)
    requires tail != []
    ensures var m := |tail| - 1;
            TreeOf(first, tail) == Extend(TreeOf(first, tail[..m]), Link(tail[m].op, tail[m].x.n))
  {
    var m := |tail| - 1;
    assert Links(tail)[..|Links(tail)| - 1] == Links(tail[..m]);
  }

  /** An operator key, or `=`, behind a typed line. */
  lemma KeyBehindLine(c: State, first: Operand, tail: seq<Tail>, c1: State, r: State, k: Key)
    requires Ready(c) && GoodLine(c, first, tail) && TypedAfter(first, tail, c, c1, r)
    requires k.Operator? || k.Equals?
    ensures r.fault.NoFault? && Settled(TreeOf(first, tail), k, Step(r, k))
    ensures BindsTighter(k) && TreeOf(first, tail).rest != [] ==> Before(TreeOf(first, tail)).Ok?
  {
    if tail == [] {
      FirstSettles(first.n, c, k);
    } else {
      var m := |tail| - 1;
      var p, l := TreeOf(first, tail[..m]), Link(tail[m].op, tail[m].x.n);
      TreeStep(first, tail);
      KeySettles(p, tail[m].op, tail[m].x.n, c1, k);
      ExtendFacts(p, l);
    }
  }

  /** Typing an expression either goes through without a fault, or stops at its first error. */
  ghost predicate LineOutcome(c: State, first: Operand, tail: seq<Tail>, c1: State, r: State) {
    match r.fault
    case NoFault => TypedAfter(first, tail, c, c1, r)
    case Fault(e) => Stuck(TreeOf(first, tail), e)
  }

  /** Operator keys in a row behind a typed line. */
  lemma {:induction false} KeysBehindLine(c: State, first: Operand, tail: seq<Tail>, c1: State, r: State, ops: seq<Op>)
    requires Ready(c) && GoodLine(c, first, tail) && TypedAfter(first, tail, c, c1, r)
    requires ops != [] && LastWins(TreeOf(first, tail), ops)
    ensures Settled(TreeOf(first, tail), Operator(ops[|ops| - 1]), RunToFault(r, OpKeys(ops)))
    decreases |ops|
  {
    hide GoodLine, TypedAfter, Parse, AfterOp, Ready, EvalTerm, EvalSum, Step;
    var m := |ops| - 1;
    var s, k := TreeOf(first, tail), Operator(ops[m]);
    KeyBehindLine(c, first, tail, c1, r, k);
    if m == 0 {
      assert OpKeys(ops) == [k];
      OneKey(r, k);
    } else {
      assert OpKeys(ops)[..m] == OpKeys(ops[..m]) && ops[m - 1] in ops;
      KeysBehindLine(c, first, tail, c1, r, ops[..m]);
      OverSettles(s, ops[m - 1], RunToFault(r, OpKeys(ops[..m])), ops[m]);
    }
  }

  lemma OverSettles(s: Sum, over: Op, c: State, op: Op)
    requires Settled(s, Operator(over), c) && (s.rest == [] || IsMul(over) == IsMul(op))
    ensures Due(s, Operator(over)) == Due(s, Operator(op))
    ensures Settled(s, Operator(op), if c.fault.Fault? then c else Step(c, Operator(op)))
  {
    SumOfLast(s);
    if Due(s, Operator(over)).Ok? {
      OverIsRightIff(s, over, c, op);
    }
  }

  /** The last operator keys and the operand behind them. */
  lemma LineStep(c: State, first: Operand, tail: seq<Tail>, c0: State, r0: State) returns (c1: State)
    requires Ready(c) && GoodLine(c, first, tail) && tail != []
    requires LineOutcome(c, first, tail[..|tail| - 1], c0, r0) && r0.fault.NoFault?
    ensures var m := |tail| - 1;
            LineOutcome(c, first, tail, c1, RunToFault(r0, OpKeys(Ops(tail[m])) + tail[m].x.keys))
  {
    hide GoodLine, Step, Run, Parse, EvalTerm, EvalSum;
    var m := |tail| - 1;
    var k, ops, x := Operator(tail[m].op), Ops(tail[m]), tail[m].x;
    TreeStep(first, tail);
    ShorterLine(c, first, tail);
    KeyBehindLine(c, first, tail[..m], c0, r0, k);
    KeysBehindLine(c, first, tail[..m], c0, r0, ops);
    c1 := RunToFault(r0, OpKeys(ops));
    RunInParts(r0, OpKeys(ops), x.keys);
    if c1.fault.Fault? {
      DueErrorSticks(TreeOf(first, tail[..m]), k, c1.fault.e);
    } else {
      PrefixEnters(0, x.keys);
      TypingEnters(c1, x.keys);
    }
  }

  lemma {:induction false} LineTyped(c: State, first: Operand, tail: seq<Tail>) returns (c1: State)
    requires Ready(c) && GoodLine(c, first, tail)
    ensures LineOutcome(c, first, tail, c1, RunToFault(c, Keys(first, tail)))
    decreases |tail|
  {
    c1 := c;
    if tail == [] {
      PrefixEnters(Start(c, first.keys[0]), first.keys);
      TypingEnters(c, first.keys);
    } else {
      ShorterLine(c, first, tail);
      var c0 := LineTyped(c, first, tail[..|tail| - 1]);
      c1 := LineGrows(c, first, tail, c0);
    }
  }

  lemma LineGrows(c: State, first: Operand, tail: seq<Tail>, c0: State) returns (c1: State)
    requires Ready(c) && GoodLine(c, first, tail) && tail != []
    requires LineOutcome(c, first, tail[..|tail| - 1], c0, RunToFault(c, Keys(first, tail[..|tail| - 1])))
    ensures LineOutcome(c, first, tail, c1, RunToFault(c, Keys(first, tail)))
  {
    hide Ready, GoodLine, Step, TypedAfter, Parse, Stuck;
    c1 := c0;
    var m := |tail| - 1;
    var r0 := RunToFault(c, Keys(first, tail[..m]));
    var behind := OpKeys(Ops(tail[m])) + tail[m].x.keys;
    RunInParts(c, Keys(first, tail[..m]), behind);
    assert Keys(first, tail) == Keys(first, tail[..m]) + behind;
    if r0.fault.Fault? {
      TreeStep(first, tail);
      StuckExtends(TreeOf(first, tail[..m]), r0.fault.e, Link(tail[m].op, tail[m].x.n));
    } else {
      c1 := LineStep(c, first, tail, c0, r0);
    }
  }

  lemma OneKey(c: State, k: Key)
    requires c.fault.NoFault?
    ensures RunToFault(c, [k]) == Step(c, k)
  {
    assert [k][..0] == [];
    assert RunToFault(c, [k][..0]) == c;
  }

  lemma PrefixEnters(start: int, ks: seq<Key>)
    requires ks != [] && AllEntry(ks) && Entered(start, ks).Ok?
    ensures Entered(start, ks[..|ks| - 1]).Ok?
  {
  }

  /** The calculator computes expressions. From any settled state, typing `first op n op n ... =`
      ends settled with the value of the expression, or stops with the error of its first failing
      fold. Each `op` may be pressed over others, as long as those bind alike or stand behind a single
      term. */
  lemma CalculatorComputes(c: State, first: Operand, tail: seq<Tail>)
    requires Ready(c) && GoodLine(c, first, tail)
    ensures var r := RunToFault(c, Keys(first, tail) + [Equals]);
            match Eval(first.n, Links(tail))
            case Ok(v) => Ready(r) && r.value == v
            case Err(e) => r.fault == Fault(e)
  {
    var c1 := LineTyped(c, first, tail);
    var r := RunToFault(c, Keys(first, tail));
    RunInParts(c, Keys(first, tail), [Equals]);
    if r.fault.NoFault? {
      KeyBehindLine(c, first, tail, c1, r, Equals);
      OneKey(r, Equals);
    } else {
      StuckExtends(TreeOf(first, tail), r.fault.e, Link(Add, 0));
    }
  }

  /** As long as no fault has shown, the next operator key shows one iff the fold that is due behind
      the expression typed so far fails, and then it shows that error. */
  lemma FaultAtExactlyThatKey(c: State, first: Operand, tail: seq<Tail>, k: Key)
    requires Ready(c) && GoodLine(c, first, tail) && (k.Operator? || k.Equals?)
    requires RunToFault(c, Keys(first, tail)).fault.NoFault?
    ensures var r := RunToFault(c, Keys(first, tail) + [k]);
            match Due(TreeOf(first, tail), k)
            case Ok(_) => r.fault.NoFault?
            case Err(e) => r.fault == Fault(e)
  {
    var c1 := LineTyped(c, first, tail);
    var r := RunToFault(c, Keys(first, tail));
    RunInParts(c, Keys(first, tail), [k]);
    KeyBehindLine(c, first, tail, c1, r, k);
    OneKey(r, k);
  }

  /** The two ways to press an operator over one that binds otherwise. `2 - 3 * - 4 =` gives
      2 - (3 - 4), and `2 + 3 - * 4 =` gives (2 + 3) * 4. */
  lemma OverFoldsLate()
    ensures Run(INIT, [Digit(2), Operator(Sub), Digit(3), Operator(Mul), Operator(Sub), Digit(4), Equals]).value == 3
    ensures Eval(2, [Link(Sub, 3), Link(Sub, 4)]) == Ok(-5)
  {
    var ks := [Digit(2), Operator(Sub), Digit(3), Operator(Mul), Operator(Sub), Digit(4), Equals];
    var c2 := Step(Step(INIT, ks[0]), ks[1]);
    assert c2 == State(2, 2, 0, Pending(Sub), Nothing, true, false, NoFault);
    var c4 := Step(Step(c2, ks[2]), ks[3]);
    assert c4 == State(3, 3, 2, Pending(Mul), Pending(Sub), true, false, NoFault);
    var c6 := Step(Step(c4, ks[4]), ks[5]);
    assert c6 == State(4, 3, 2, Pending(Sub), Pending(Sub), false, true, NoFault);
    RunSeven(ks);
    EvalTwo(2, Link(Sub, 3), Link(Sub, 4));
  }

  lemma OverFoldsEarly()
    ensures Run(INIT, [Digit(2), Operator(Add), Digit(3), Operator(Sub), Operator(Mul), Digit(4), Equals]).value == 20
    ensures Eval(2, [Link(Add, 3), Link(Mul, 4)]) == Ok(14)
  {
    var ks := [Digit(2), Operator(Add), Digit(3), Operator(Sub), Operator(Mul), Digit(4), Equals];
    var c2 := Step(Step(INIT, ks[0]), ks[1]);
    assert c2 == State(2, 2, 0, Pending(Add), Nothing, true, false, NoFault);
    var c4 := Step(Step(c2, ks[2]), ks[3]);
    assert c4 == State(5, 5, 0, Pending(Sub), Nothing, true, false, NoFault);
    var c6 := Step(Step(c4, ks[4]), ks[5]);
    assert c6 == State(4, 5, 0, Pending(Mul), Nothing, false, true, NoFault);
    RunSeven(ks);
    EvalTwo(2, Link(Add, 3), Link(Mul, 4));
  }

  /** `2 + 3 * =` shows 3 and goes on holding `2 +`, so `4 =` then gives 6. */
  lemma EqualsKeepsHolding()
    ensures var r := Run(INIT, [Digit(2), Operator(Add), Digit(3), Operator(Mul), Equals]);
            r.value == 3 && r.fault.NoFault? && !Ready(r)
    ensures Run(INIT, [Digit(2), Operator(Add), Digit(3), Operator(Mul), Equals, Digit(4), Equals]).value == 6
  {
    hide Run;
    var ks := [Digit(2), Operator(Add), Digit(3), Operator(Mul), Equals, Digit(4), Equals];
    var c2 := Step(Step(INIT, ks[0]), ks[1]);
    assert c2 == State(2, 2, 0, Pending(Add), Nothing, true, false, NoFault);
    var c4 := Step(Step(c2, ks[2]), ks[3]);
    assert c4 == State(3, 3, 2, Pending(Mul), Pending(Add), true, false, NoFault);
    var c5 := Step(c4, ks[4]);
    assert c5 == State(3, 3, 2, Nothing, Pending(Add), true, false, NoFault);
    assert Step(c5, ks[5]) == State(4, 3, 2, Nothing, Pending(Add), false, true, NoFault);
    RunSeven(ks);
    assert ks[..5] == [Digit(2), Operator(Add), Digit(3), Operator(Mul), Equals];
  }

  /** The value of three operands. */
  lemma EvalTwo(a: int, l: Link, m: Link)
    requires !IsMul(l.op)
    ensures Eval(a, [l, m]) == if IsMul(m.op) then Fold(Ok(a), l.op, Fold(Ok(l.n), m.op, Ok(m.n)))
                               else Fold(Fold(Ok(a), l.op, Ok(l.n)), m.op, Ok(m.n))
  {
    var ls := [l, m];
    assert ls[..1] == [l] && ls[..1][..0] == [];
    assert Parse(a, ls[..1]) == Sum(Term(a, []), [(l.op, Term(l.n, []))]);
    var s := Parse(a, ls);
    SumOfLast(s);
    ExtendFacts(Parse(a, ls[..1]), m);
    SumOfLast(Parse(a, ls[..1]));
    assert Before(Parse(a, ls[..1])) == Ok(a);
  }

  lemma RunSeven(ks: seq<Key>)
    requires |ks| == 7
    ensures Run(INIT, ks[..5]) == Step(Step(Step(Step(Step(INIT, ks[0]), ks[1]), ks[2]), ks[3]), ks[4])
    ensures Run(INIT, ks) ==
              Step(Step(Step(Step(Step(Step(Step(INIT, ks[0]), ks[1]), ks[2]), ks[3]), ks[4]), ks[5]), ks[6])
  {
    hide Step;
    RunFour(INIT, ks[..4]);
    assert ks[..6][..5][..4] == ks[..4] && ks[..6][..5] == ks[..5];
    assert Run(INIT, ks[..5]) == Step(Run(INIT, ks[..4]), ks[4]);
    assert Run(INIT, ks[..6]) == Step(Run(INIT, ks[..5]), ks[5]);
  }

  lemma RunThree(c: State, ks: seq<Key>)
    requires |ks| == 3
    ensures Run(c, ks) == Step(Step(Step(c, ks[0]), ks[1]), ks[2])
  {
    assert ks[..2][..1] == ks[..1] && ks[..1][..0] == [];
    assert Run(c, ks[..1]) == Step(Run(c, ks[..1][..0]), ks[..1][0]);
    assert Run(c, ks[..2]) == Step(Run(c, ks[..1]), ks[1]);
  }

  lemma RunFour(c: State, ks: seq<Key>)
    requires |ks| == 4
    ensures Run(c, ks) == Step(Step(Step(Step(c, ks[0]), ks[1]), ks[2]), ks[3])
  {
    RunThree(c, ks[..3]);
  }
}
