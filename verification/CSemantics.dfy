/**
 What the C language says that programs over `int` do. Variables hold integers; there are no blocks, tags,
 statuses or frames. What C leaves undefined has `NoMeaning`: overflow, division by zero, reading a variable
 without a value, using the result of a function that returned none.

 C leaves the order of operands open; here they are evaluated from the right, and arguments from the left.
 `fuel` is used up by calls and rounds of loops, as in RefExec.dfy; a meaning with some fuel is the meaning.
 `room` bounds the number of variables that are ever made. Names of variables are those of the function
 that runs; variables of a file are not part of this.
 */
module CSemantics {
  import opened Options
  import opened Numbers
  import opened Arithmetic
  import opened RefExec

  /** A variable, and its value if it has one. */
  datatype Cell = Cell(name: string, val: Option<int>)

  /** The variables of the function that runs, innermost last, and how many more can be made. */
  datatype Env = Env(vars: seq<Cell>, room: nat)

  datatype Effect = Nothing | Gives(v: int) | Breaks

  datatype Meaning = NoMeaning | NoFuel | Done(effect: Effect, env: Env)

  // ----- Integers -----

  function Fit(v: int): Option<int> {
    if MIN_INT <= v <= MAX_INT then Some(v) else None
  }

  /** The two's complement pattern of an `int`. */
  function Pattern(v: int): nat {
    v % 0x1_0000_0000
  }

  function Arithmetical(op: Op, x: int, y: int): Option<int> {
    match op
    case Add => Fit(x + y)
    case Sub => Fit(x - y)
    case Mul => Fit(x * y)
    case Div => if y == 0 then None else Fit(TruncDiv(x, y))
    case Or => Some(ToSigned(Int, BitOr(Pattern(x), Pattern(y))))
    case And => Some(ToSigned(Int, BitAnd(Pattern(x), Pattern(y))))
  }

  function BinaryOf(op: BinOp, x: int, y: int): Option<int> {
    match op
    case Arith(a) => Arithmetical(a, x, y)
    case Rel(c) => Some(if Holds(c, x, y) then 1 else 0)
  }

  function UnaryOf(op: UnOp, x: int): Option<int> {
    if op == Minus then Fit(-x) else Some(if x == 0 then 1 else 0)
  }

  // ----- Variables -----

  /** The innermost variable of that name. */
  function Find(vars: seq<Cell>, x: string): (i: Option<nat>)
    ensures i.Some? ==> i.value < |vars| && vars[i.value].name == x
    ensures forall j :: (if i.Some? then i.value + 1 else 0) <= j < |vars| ==> vars[j].name != x
    decreases |vars|
  {
    if vars == [] then None
    else if vars[|vars| - 1].name == x then Some(|vars| - 1)
    else Find(vars[..|vars| - 1], x)
  }

  function Gave(v: Option<int>, env: Env): Meaning {
    if v.None? then NoMeaning else Done(Gives(v.value), env)
  }

  function Read(env: Env, x: string): Meaning {
    match Find(env.vars, x)
    case None => NoMeaning
    case Some(i) => Gave(env.vars[i].val, env)
  }

  function Assigned(env: Env, i: nat, v: Option<int>): Meaning
    requires i < |env.vars|
  {
    if v.None? then NoMeaning
    else Done(Gives(v.value), env.(vars := env.vars[i := env.vars[i].(val := v)]))
  }

  /** `=`, `+=` and `-=` with the value `r` on the right. */
  function Assign(op: StoreOp, env: Env, x: string, r: int): Meaning {
    match Find(env.vars, x)
    case None => NoMeaning
    case Some(i) =>
      if op == Plain then Assigned(env, i, Some(r))
      else match env.vars[i].val
        case None => NoMeaning
        case Some(w) => Assigned(env, i, Fit(if op == AddAssign then w + r else w - r))
  }

  function Declare(env: Env, x: string, v: Option<int>): Meaning {
    if env.room == 0 then NoMeaning else Done(Nothing, Env(env.vars + [Cell(x, v)], env.room - 1))
  }

  /** At the end of a block, the variables made in it are gone. */
  function Leave(m: Meaning, n: nat): Meaning
    requires m.Done? ==> n <= |m.env.vars|
  {
    if m.Done? then Done(m.effect, m.env.(vars := m.env.vars[..n])) else m
  }

  // ----- Expressions -----

  predicate Mentions(e: Expr, x: string) {
    match e
    case Lit(_) => false
    case Var(y) => y == x
    case Set(_, y, a) => y == x || Mentions(a, x)
    case Unary(_, a) => Mentions(a, x)
    case Binary(_, l, r) => Mentions(l, x) || Mentions(r, x)
    case Call(f, args) => f == x || MentionsAny(args, x)
  }

  predicate MentionsAny(args: Exprs, x: string) {
    args.Arg? && (Mentions(args.e, x) || MentionsAny(args.rest, x))
  }

  function Count(args: Exprs): nat {
    if args.NoArgs? then 0 else 1 + Count(args.rest)
  }

  datatype Arguments = NoVals(m: Meaning) | Vals(vals: seq<int>, env: Env)

  /** The parameters as variables, with the values of the arguments. */
  function Parameters(params: seq<string>, vals: seq<int>): seq<Cell>
    requires |vals| == |params|
  {
    seq(|vals|, i requires 0 <= i < |vals| => Cell(params[i], Some(vals[i])))
  }

  function Eval(p: Program, e: Expr, fuel: nat, source: nat, env: Env): (m: Meaning)
    ensures m.Done? ==> |m.env.vars| == |env.vars| && !m.effect.Breaks?
    decreases fuel, e, 0
  {
    match e
    case Lit(v) => Gave(Fit(v), env)
    case Var(x) => Read(env, x)
    case Set(op, x, a) =>
      var r := Eval(p, a, fuel, source, env);
      if !r.Done? then r else if !r.effect.Gives? then NoMeaning else Assign(op, r.env, x, r.effect.v)
    case Unary(op, a) =>
      var r := Eval(p, a, fuel, source, env);
      if !r.Done? then r else if !r.effect.Gives? then NoMeaning else Gave(UnaryOf(op, r.effect.v), r.env)
    case Binary(op, a, b) =>
      var r := Eval(p, b, fuel, source, env);
      if !r.Done? then r else if !r.effect.Gives? then NoMeaning
      else
        var l := Eval(p, a, fuel, source, r.env);
        if !l.Done? then l else if !l.effect.Gives? then NoMeaning
        else Gave(BinaryOf(op, l.effect.v, r.effect.v), l.env)
    case Call(f, args) =>
      if Find(env.vars, f).Some? then NoMeaning
      else match Callee(p, NonStack(p, source, f))
        case None => NoMeaning
        case Some(fn) =>
          if Count(args) != |fn.params| then NoMeaning
          else if fuel == 0 then NoFuel
          else CallOf(p, fn, args, fuel, source, env)
  }

  /** The arguments belong to the caller; the body sees the parameters and nothing of the caller. */
  function CallOf(p: Program, fn: Func, args: Exprs, fuel: nat, source: nat, env: Env): (m: Meaning)
    requires fuel > 0 && Count(args) == |fn.params|
    ensures m.Done? ==> |m.env.vars| == |env.vars| && !m.effect.Breaks?
    decreases fuel, args, 1
  {
    match EvalArgs(p, args, fuel, source, env)
    case NoVals(bad) => bad
    case Vals(vals, s) =>
      var m := Exec(p, fn.body, fuel - 1, fn.source, Env(Parameters(fn.params, vals), s.room));
      if !m.Done? then m
      else if m.effect.Breaks? then NoMeaning
      else Done(m.effect, Env(s.vars, m.env.room))
  }

  function EvalArgs(p: Program, args: Exprs, fuel: nat, source: nat, env: Env): (r: Arguments)
    ensures if r.Vals? then |r.vals| == Count(args) && |r.env.vars| == |env.vars| else !r.m.Done?
    decreases fuel, args, 0
  {
    match args
    case NoArgs => Vals([], env)
    case Arg(e, rest) =>
      var m := Eval(p, e, fuel, source, env);
      if !m.Done? then NoVals(m)
      else if !m.effect.Gives? || m.env.room == 0 then NoVals(NoMeaning)
      else match EvalArgs(p, rest, fuel, source, m.env.(room := m.env.room - 1))
        case NoVals(bad) => NoVals(bad)
        case Vals(vals, s) => Vals([m.effect.v] + vals, s)
  }

  // ----- Statements -----

  /** The value of a condition. */
  datatype Truth = NoTruth(m: Meaning) | True(env: Env) | False(env: Env)

  function Cond(m: Meaning): (t: Truth)
    ensures t.NoTruth? ==> !t.m.Done?
  {
    if !m.Done? then NoTruth(m)
    else if !m.effect.Gives? then NoTruth(NoMeaning)
    else if m.effect.v != 0 then True(m.env)
    else False(m.env)
  }

  function Exec(p: Program, s: Stmt, fuel: nat, source: nat, env: Env): (m: Meaning)
    ensures m.Done? ==> |env.vars| <= |m.env.vars|
    decreases fuel, s, 3
  {
    match s
    case Compound(body) => Leave(ExecSeq(p, body, fuel, source, env), |env.vars|)
    case DeclStmt(ds) => ExecDecls(p, ds, fuel, source, env)
    case ExprStmt(e) =>
      var m := Eval(p, e, fuel, source, env);
      if m.Done? then Done(Nothing, m.env) else m
    case Return(e) =>
      var m := Eval(p, e, fuel, source, env);
      if m.Done? && !m.effect.Gives? then NoMeaning else m
    case If(c, a) =>
      (match Cond(Eval(p, c, fuel, source, env))
       case True(s) => Exec(p, a, fuel, source, s)
       case False(s) => Done(Nothing, s)
       case NoTruth(bad) => bad)
    case IfElse(c, a, b) =>
      (match Cond(Eval(p, c, fuel, source, env))
       case True(s) => Exec(p, a, fuel, source, s)
       case False(s) => Exec(p, b, fuel, source, s)
       case NoTruth(bad) => bad)
    case For(_, _, _, _) => Leave(ExecFor(p, s, fuel, source, env), |env.vars|)
    case NullStmt => Done(Nothing, env)
    case Switch(c, sub) => Leave(ExecSwitch(p, sub, Eval(p, c, fuel, source, env), fuel, source), |env.vars|)
    case Case(_, sub) => Exec(p, sub, fuel, source, env)
    case Default(sub) => Exec(p, sub, fuel, source, env)
    case Break => Done(Breaks, env)
    case Other => NoMeaning
  }

  function ExecSeq(p: Program, ss: Stmts, fuel: nat, source: nat, env: Env): (m: Meaning)
    ensures m.Done? ==> |env.vars| <= |m.env.vars|
    decreases fuel, ss, 0
  {
    match ss
    case End => Done(Nothing, env)
    case Then(s, rest) =>
      var m := Exec(p, s, fuel, source, env);
      if m.Done? && m.effect.Nothing? then ExecSeq(p, rest, fuel, source, m.env) else m
  }

  function ExecFor(p: Program, s: Stmt, fuel: nat, source: nat, env: Env): (m: Meaning)
    requires s.For?
    ensures m.Done? ==> |env.vars| <= |m.env.vars|
    decreases fuel, s, 2
  {
    var m := Exec(p, s.init, fuel, source, env);
    if !m.Done? then m
    else if !m.effect.Nothing? then NoMeaning
    else ExecLoop(p, s, fuel, source, m.env)
  }

  /** A `break` ends the loop, and what follows the loop is run. */
  function ExecLoop(p: Program, s: Stmt, fuel: nat, source: nat, env: Env): (m: Meaning)
    requires s.For?
    ensures m.Done? ==> |env.vars| <= |m.env.vars|
    decreases fuel, s, 1
  {
    match Cond(Eval(p, s.cond, fuel, source, env))
    case NoTruth(bad) => bad
    case False(t) => Done(Nothing, t)
    case True(t) =>
      var m := Exec(p, s.loop, fuel, source, t);
      if !m.Done? then m
      else match m.effect
        case Breaks => Done(Nothing, m.env)
        case Gives(_) => m
        case Nothing =>
          var n := Eval(p, s.inc, fuel, source, m.env);
          if !n.Done? then n
          else if fuel == 0 then NoFuel
          else ExecLoop(p, s, fuel - 1, source, n.env)
  }

  /** The variable comes into scope before its initialiser, which must not use it; it is evaluated once. */
  function ExecDecls(p: Program, ds: Decls, fuel: nat, source: nat, env: Env): (m: Meaning)
    ensures m.Done? ==> |env.vars| <= |m.env.vars| && m.effect.Nothing?
    decreases fuel, ds, 0
  {
    match ds
    case NoDecls => Done(Nothing, env)
    case Uninitialised(x, rest) =>
      var m := Declare(env, x, None);
      if m.Done? then ExecDecls(p, rest, fuel, source, m.env) else m
    case Initialised(x, e, rest) =>
      var v := Eval(p, e, fuel, source, env);
      if !v.Done? then v
      else if !v.effect.Gives? || Mentions(e, x) then NoMeaning
      else
        var m := Declare(v.env, x, Some(v.effect.v));
        if m.Done? then ExecDecls(p, rest, fuel, source, m.env) else m
  }

  /** The value of a constant expression. */
  function Constant(e: Expr): Option<int> {
    match e
    case Lit(v) => Fit(v)
    case Unary(op, a) =>
      var x := Constant(a);
      if x.None? then None else UnaryOf(op, x.value)
    case Binary(op, a, b) =>
      var x, y := Constant(a), Constant(b);
      if x.None? || y.None? then None else BinaryOf(op, x.value, y.value)
    case _ => None
  }

  /** The body from the label with that value on; None when there is a label without a value. */
  function FromCase(ss: Stmts, v: int): (r: Option<Stmts>)
    ensures r.Some? ==> r.value == ss || r.value < ss
  {
    if ss.End? then Some(ss)
    else if ss.s.Case? then
      var c := Constant(ss.s.value);
      if c.None? then None else if c.value == v then Some(ss) else FromCase(ss.rest, v)
    else FromCase(ss.rest, v)
  }

  function FromDefault(ss: Stmts): (r: Stmts)
    ensures r == ss || r < ss
  {
    if ss.End? || ss.s.Default? then ss else FromDefault(ss.rest)
  }

  /** There is a label in the statement that belongs to a switch around it. */
  predicate Labelled(s: Stmt) {
    match s
    case Compound(body) => LabelledIn(body)
    case If(_, a) => Labelled(a)
    case IfElse(_, a, b) => Labelled(a) || Labelled(b)
    case For(_, _, _, a) => Labelled(a)
    case Case(_, _) => true
    case Default(_) => true
    case _ => false
  }

  predicate LabelledIn(ss: Stmts) {
    ss.Then? && (Labelled(ss.s) || LabelledIn(ss.rest))
  }

  /** All labels of a switch are those of the statements of its body. */
  predicate LabelsOnTop(ss: Stmts) {
    ss.Then? ==>
      !(if ss.s.Case? || ss.s.Default? then Labelled(ss.s.sub) else Labelled(ss.s)) && LabelsOnTop(ss.rest)
  }

  /** A `break` in the body ends the switch. Labels deeper in the body are left out. */
  function ExecSwitch(p: Program, sub: Stmt, c: Meaning, fuel: nat, source: nat): (m: Meaning)
    ensures m.Done? ==> c.Done? && |c.env.vars| <= |m.env.vars|
    decreases fuel, sub, 0
  {
    if !c.Done? then c
    else if !c.effect.Gives? || !sub.Compound? || !LabelsOnTop(sub.body) then NoMeaning
    else match FromCase(sub.body, c.effect.v)
      case None => NoMeaning
      case Some(at) =>
        var m := ExecSeq(p, if at.End? then FromDefault(sub.body) else at, fuel, source, c.env);
        if m.Done? && m.effect.Breaks? then Done(Nothing, m.env) else m
  }
}
