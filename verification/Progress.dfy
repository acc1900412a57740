/** A run of the reference executor that ends is the same with more fuel. */
module Progress {
  import opened Memory
  import opened RefExec

  lemma {:induction false} EvalMore(p: Program, e: Expr, f: nat, g: nat, st: State)
    requires f <= g && !Eval(p, e, f, st).Timeout?
    ensures Eval(p, e, g, st) == Eval(p, e, f, st)
    decreases f, e, 0
  {
    match e
    case Lit(_) =>
    case Var(_) =>
    case Set(_, _, r) => EvalMore(p, r, f, g, st);
    case Unary(_, a) => EvalMore(p, a, f, g, st);
    case Binary(_, l, r) =>
      EvalMore(p, r, f, g, st);
      if Eval(p, r, f, st).Ok? {
        EvalMore(p, l, f, g, Eval(p, r, f, st).st);
      }
    case Call(name, args) =>
      var callee := Callee(p, Lookup(p, st, name));
      if callee.Some? {
        CallMore(p, callee.value, args, f, g, st);
      }
  }

  lemma {:induction false} CallMore(p: Program, fn: Func, args: Exprs, f: nat, g: nat, st: State)
    requires 0 < f <= g && !CallFn(p, fn, args, f, st).Timeout?
    ensures CallFn(p, fn, args, g, st) == CallFn(p, fn, args, f, st)
    decreases f, args, 1
  {
    hide Passed, Callee, Lookup;
    ArgsMore(p, fn.params, 0, args, f, g, Push(st));
    match EvalArgs(p, fn.params, 0, args, f, Push(st))
    case Ok(_, s) => ExecMore(p, fn.body, f - 1, g - 1, s.(source := fn.source));
    case _ =>
  }

  lemma {:induction false} ArgsMore(p: Program, params: seq<string>, i: nat, args: Exprs, f: nat, g: nat, st: State)
    requires f <= g && !EvalArgs(p, params, i, args, f, st).Timeout?
    ensures EvalArgs(p, params, i, args, g, st) == EvalArgs(p, params, i, args, f, st)
    decreases f, args, 0
  {
    match args
    case NoArgs =>
    case Arg(e, rest) =>
      EvalMore(p, e, f, g, st);
      var r := Passed(params, i, Eval(p, e, f, st));
      if r.Ok? {
        ArgsMore(p, params, i + 1, rest, f, g, r.st);
      }
  }

  lemma {:induction false} ExecMore(p: Program, s: Stmt, f: nat, g: nat, st: State)
    requires f <= g && !Exec(p, s, f, st).Timeout?
    ensures Exec(p, s, g, st) == Exec(p, s, f, st)
    decreases f, s, 3
  {
    match s
    case Compound(body) => SeqMore(p, body, f, g, Push(st));
    case DeclStmt(ds) => DeclsMore(p, ds, f, g, st);
    case ExprStmt(e) => EvalMore(p, e, f, g, st);
    case Return(e) => EvalMore(p, e, f, g, st);
    case If(_, _) => BranchMore(p, s, f, g, st);
    case IfElse(_, _, _) => BranchMore(p, s, f, g, st);
    case For(_, _, _, _) => ForMore(p, s, f, g, Push(st));
    case NullStmt =>
    case Switch(c, sub) =>
      EvalMore(p, c, f, g, Push(st));
      SwitchMore(p, sub, Eval(p, c, f, Push(st)), f, g);
    case Case(_, sub) => ExecMore(p, sub, f, g, st);
    case Default(sub) => ExecMore(p, sub, f, g, st);
    case Break =>
    case Other =>
  }

  lemma {:induction false} BranchMore(p: Program, s: Stmt, f: nat, g: nat, st: State)
    requires f <= g && (s.If? || s.IfElse?) && !Exec(p, s, f, st).Timeout?
    ensures Exec(p, s, g, st) == Exec(p, s, f, st)
    decreases f, s, 0
  {
    EvalMore(p, s.cond, f, g, st);
    match Tested(Eval(p, s.cond, f, st))
    case Zero(t) => if s.IfElse? { ExecMore(p, s.elseBranch, f, g, t); }
    case NonZero(t) => ExecMore(p, s.thenBranch, f, g, t);
    case Failed(_) =>
  }

  lemma {:induction false} SeqMore(p: Program, ss: Stmts, f: nat, g: nat, st: State)
    requires f <= g && !ExecSeq(p, ss, f, st).Timeout?
    ensures ExecSeq(p, ss, g, st) == ExecSeq(p, ss, f, st)
    decreases f, ss, 0
  {
    if ss.Then? {
      ExecMore(p, ss.s, f, g, st);
      var r := Exec(p, ss.s, f, st);
      if r.Ok? && r.out == Out.Null {
        SeqMore(p, ss.rest, f, g, r.st);
      }
    }
  }

  lemma {:induction false} ForMore(p: Program, s: Stmt, f: nat, g: nat, st: State)
    requires f <= g && s.For? && !ExecFor(p, s, f, st).Timeout?
    ensures ExecFor(p, s, g, st) == ExecFor(p, s, f, st)
    decreases f, s, 2
  {
    ExecMore(p, s.init, f, g, st);
    var r := Exec(p, s.init, f, st);
    if r.Ok? && r.out == Out.Null {
      LoopMore(p, s, f, g, r.st);
    }
  }

  lemma {:induction false} LoopMore(p: Program, s: Stmt, f: nat, g: nat, st: State)
    requires f <= g && s.For? && !ExecLoop(p, s, f, st).Timeout?
    ensures ExecLoop(p, s, g, st) == ExecLoop(p, s, f, st)
    decreases f, s, 1
  {
    hide Eval, Exec;
    EvalMore(p, s.cond, f, g, st);
    match Tested(Eval(p, s.cond, f, st))
    case NonZero(t) =>
      RoundMore(p, s, f, g, t);
      var r := ExecRound(p, s, f, t);
      if r.Ok? && r.out == Out.Null {
        LoopMore(p, s, f - 1, g - 1, r.st);
      }
    case _ =>
  }

  lemma {:induction false} RoundMore(p: Program, s: Stmt, f: nat, g: nat, st: State)
    requires f <= g && s.For? && !ExecRound(p, s, f, st).Timeout?
    ensures ExecRound(p, s, g, st) == ExecRound(p, s, f, st)
    decreases f, s, 0
  {
    ExecMore(p, s.loop, f, g, st);
    var r := Exec(p, s.loop, f, st);
    if r.Ok? && r.out == Out.Null {
      EvalMore(p, s.inc, f, g, r.st);
    }
  }

  lemma {:induction false} DeclsMore(p: Program, ds: Decls, f: nat, g: nat, st: State)
    requires f <= g && !ExecDecls(p, ds, f, st).Timeout?
    ensures ExecDecls(p, ds, g, st) == ExecDecls(p, ds, f, st)
    decreases f, ds, 0
  {
    match ds
    case NoDecls =>
    case Uninitialised(x, rest) =>
      var r := Declared(st, x, Value(UninitInt(p.junk)));
      if r.Ok? {
        DeclsMore(p, rest, f, g, r.st);
      }
    case Initialised(x, e, rest) =>
      EvalMore(p, e, f, g, st);
      var first := Eval(p, e, f, st);
      if first.Ok? {
        EvalMore(p, e, f, g, first.st);
        var r := Initial(x, first.out, Eval(p, e, f, first.st));
        if r.Ok? {
          DeclsMore(p, rest, f, g, r.st);
        }
      }
  }

  lemma {:induction false} FindMore(p: Program, v: IntNum, ss: Stmts, f: nat, g: nat, st: State)
    requires f <= g && !FindCase(p, v, ss, f, st).FTimeout?
    ensures FindCase(p, v, ss, g, st) == FindCase(p, v, ss, f, st)
    decreases f, ss, 0
  {
    if ss.Then? {
      if ss.s.Case? {
        EvalMore(p, ss.s.value, f, g, st);
        var r := Eval(p, ss.s.value, f, st);
        if r.Ok? && r.out.Value? && v.val != r.out.n.val {
          FindMore(p, v, ss.rest, f, g, r.st);
        }
      } else {
        FindMore(p, v, ss.rest, f, g, st);
      }
    }
  }

  lemma {:induction false} SwitchMore(p: Program, sub: Stmt, r: Res, f: nat, g: nat)
    requires f <= g && !ExecSwitch(p, sub, r, f).Timeout?
    ensures ExecSwitch(p, sub, r, g) == ExecSwitch(p, sub, r, f)
    decreases f, sub, 0
  {
    if r.Ok? && r.out.Value? && sub.Compound? {
      FindMore(p, r.out.n, sub.body, f, g, r.st);
      match FindCase(p, r.out.n, sub.body, f, r.st)
      case Found(at, t) => SeqMore(p, if at.End? then DefaultIn(sub.body) else at, f, g, t);
      case _ =>
    }
  }
}
