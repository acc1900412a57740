/**
 Expressions without assignments, calls and comparisons: what the executor computes for them is the
 arithmetic of `Arithmetic.dfy` on the values that their variables hold. And constant expressions, which
 have a value of their own.
 */
module PureExpressions {
  import opened Options
  import opened Numbers
  import opened Arithmetic
  import opened Memory
  import opened RefExec

  predicate Pure(e: Expr) {
    match e
    case Lit(_) => true
    case Var(_) => true
    case Set(_, _, _) => false
    case Unary(_, a) => Pure(a)
    case Binary(op, l, r) => op.Arith? && Pure(l) && Pure(r)
    case Call(_, _) => false
  }

  /** The expression with its variables replaced by what they hold; None when one cannot be read. */
  function TreeOf(p: Program, st: State, e: Expr): (t: Option<Tree>)
    requires Pure(e)
    ensures t.Some? ==> OfKind(t.value, Int)
  {
    match e
    case Lit(v) => (match Literal(v) case None => None case Some(n) => Some(Leaf(n)))
    case Var(x) =>
      var r := ReadVar(st, Lookup(p, st, x));
      if r.Ok? && r.out.Value? then Some(Leaf(r.out.n)) else None
    case Unary(op, a) =>
      var t := TreeOf(p, st, a);
      if t.None? then None else Some(if op == Minus then Neg(t.value) else Not(t.value))
    case Binary(op, l, r) =>
      var t, u := TreeOf(p, st, l), TreeOf(p, st, r);
      if t.None? || u.None? then None else Some(Bin(op.op, t.value, u.value))
  }

  lemma {:induction false} ReadsInPlace(st: State, g: Option<Global>)
    ensures ReadVar(st, g).Ok? ==> ReadVar(st, g).st == st && ReadVar(st, g).out.Value?
    ensures ReadVar(st, g).Ok? || ReadVar(st, g).Abort?
  {
  }

  /** Such an expression changes nothing, and its result is the value of its tree. */
  lemma {:induction false} PureIsTree(p: Program, e: Expr, fuel: nat, st: State)
    requires Pure(e)
    ensures var t := TreeOf(p, st, e);
            Eval(p, e, fuel, st) == if t.None? then Abort else Ok(Value(EvalTree(t.value, Int, p.junk)), st)
    decreases e
  {
    hide ReadVar, Lookup, Apply, Negate, LogicalNot, Literal;
    match e
    case Lit(_) =>
    case Var(x) => ReadsInPlace(st, Lookup(p, st, x));
    case Unary(_, a) => PureIsTree(p, a, fuel, st);
    case Binary(_, l, r) =>
      PureIsTree(p, r, fuel, st);
      PureIsTree(p, l, fuel, st);
  }

  /**
   Over defined variables, sums, differences, products and negations are congruent modulo 2^32 to their
   exact integer value.
   */
  lemma {:induction false} PureIsExact(p: Program, e: Expr, fuel: nat, st: State)
    requires Pure(e) && TreeOf(p, st, e).Some? && Ring(TreeOf(p, st, e).value)
    ensures var r := Eval(p, e, fuel, st);
            r.Ok? && r.out.Value? && r.st == st && r.out.n.status == DEFINED &&
            Congruent(r.out.n.val, Exact(TreeOf(p, st, e).value, Int), 0x1_0000_0000)
  {
    hide TreeOf, Eval;
    PureIsTree(p, e, fuel, st);
    EvalIsExactModulo(TreeOf(p, st, e).value, Int, p.junk);
  }

  /** A comparison of such expressions gives 1 or 0 as the signed values of its operands are in that order. */
  lemma {:induction false} ComparisonIsSignedOrder(p: Program, c: Cmp, l: Expr, r: Expr, fuel: nat, st: State)
    requires Pure(l) && Pure(r) && TreeOf(p, st, l).Some? && TreeOf(p, st, r).Some?
    ensures var x := ToSigned(Int, EvalTree(TreeOf(p, st, l).value, Int, p.junk).val);
            var y := ToSigned(Int, EvalTree(TreeOf(p, st, r).value, Int, p.junk).val);
            Eval(p, Binary(Rel(c), l, r), fuel, st) == Ok(Value(OfValue(Int, if Holds(c, x, y) then 1 else 0)), st)
  {
    hide TreeOf, EvalTree, Compare, ToSigned, Holds;
    PureIsTree(p, l, fuel, st);
    PureIsTree(p, r, fuel, st);
    CompareIsSignedOrder(c, EvalTree(TreeOf(p, st, l).value, Int, p.junk).val,
                         EvalTree(TreeOf(p, st, r).value, Int, p.junk).val);
  }

  // ----- Constant expressions -----

  /** Literals, and operators on them: no variables, assignments or calls. */
  predicate Closed(e: Expr) {
    match e
    case Lit(_) => true
    case Var(_) => false
    case Set(_, _, _) => false
    case Unary(_, a) => Closed(a)
    case Binary(_, l, r) => Closed(l) && Closed(r)
    case Call(_, _) => false
  }

  /** The value of a constant expression; None when a literal in it is no `int`. */
  function ConstVal(p: Program, e: Expr): Option<IntNum>
    requires Closed(e)
  {
    match e
    case Lit(v) => Literal(v)
    case Unary(op, a) =>
      var n := ConstVal(p, a);
      if n.None? then None else Some(ApplyUnary(op, n.value, p.junk))
    case Binary(op, l, r) =>
      var m, n := ConstVal(p, l), ConstVal(p, r);
      if m.None? || n.None? then None else Some(ApplyBinary(op, m.value, n.value, p.junk))
  }

  /** It evaluates to that value in every state, and changes nothing. */
  lemma {:induction false} ClosedEval(p: Program, e: Expr, fuel: nat, st: State)
    requires Closed(e)
    ensures Eval(p, e, fuel, st) == match ConstVal(p, e) case None => Abort case Some(n) => Ok(Value(n), st)
    decreases e
  {
    hide ApplyUnary, ApplyBinary, Literal;
    match e
    case Lit(_) =>
    case Unary(_, a) => ClosedEval(p, a, fuel, st);
    case Binary(_, l, r) =>
      ClosedEval(p, r, fuel, st);
      ClosedEval(p, l, fuel, st);
  }

  /** Without comparisons, that value is the value of its operator tree. */
  lemma {:induction false} ClosedIsTree(p: Program, e: Expr, st: State)
    requires Closed(e) && Pure(e)
    ensures var t := TreeOf(p, st, e);
            if t.None? then ConstVal(p, e).None?
            else ConstVal(p, e).Some? && ConstVal(p, e).value == EvalTree(t.value, Int, p.junk)
  {
    PureIsTree(p, e, 0, st);
    ClosedEval(p, e, 0, st);
  }
}
