/**
 The interpreter (eval.cpp): it walks the program and changes the machine step by step, looking names
 up in the index. Every method gives the result, the memory and the frames of the reference executor,
 which has no index.
 */
module Interp {
  import opened Options
  import opened Numbers
  import opened Arithmetic
  import opened Values
  import opened Memory
  import opened Frames
  import opened RefExec
  import opened Machines

  datatype Step = Aborted | OutOfFuel | Done(out: Out)

  /** The step and the state reached are those of the reference result. */
  predicate Agrees(r: Res, s: Step, st: State) {
    match r
    case Abort => s == Aborted
    case Timeout => s == OutOfFuel
    case Ok(o, t) => s == Done(o) && st == t
  }

  // ----- Variables -----

  method NewVar(m: Machine, name: string, o: Out) returns (r: Step)
    requires m.Valid()
    modifies m
    ensures Agrees(Declared(old(m.St()), name, o), r, m.St()) && (r.Done? ==> m.Valid())
  {
    if !o.Value? || m.stackVars == [] {
      return Aborted;
    }
    var storage := m.NewBlock(STACK, EncodeNum(o.n));
    if storage.None? {
      return Aborted;
    }
    m.AddStackVar(name, storage.value);
    return Done(Out.Null);
  }

  method FromLvalue(m: Machine, l: Option<Global>) returns (r: Step)
    ensures Agrees(ReadVar(m.St(), l), r, m.St())
  {
    if l.None? || !l.value.IntVar? {
      return Aborted;
    }
    var id := l.value.block;
    if id !in m.activeMem || m.activeMem[id].memtype == FREED || |m.activeMem[id].data| < SIZE_INT {
      return Aborted;
    }
    return Done(Value(IntAt(m.activeMem[id].data)));
  }

  method Store(m: Machine, p: Program, op: StoreOp, l: Option<Global>, right: Out) returns (r: Step)
    requires m.Valid()
    modifies m
    ensures Agrees(SetVar(p, old(m.St()), op, l, right), r, m.St()) && (r.Done? ==> m.Valid())
  {
    if l.None? || !l.value.IntVar? || !right.Value? {
      return Aborted;
    }
    var result := CastInt(right.n);
    if op != Plain {
      var id := l.value.block;
      if id !in m.activeMem || |m.activeMem[id].data| < SIZE_INT {
        return Aborted;
      }
      var value := IntAt(m.activeMem[id].data);
      result := ApplyBinary(Arith(if op == AddAssign then Add else Sub), value, right.n, p.junk);
    }
    var ok := m.WriteVar(l.value.block, result);
    return if ok then Done(Value(result)) else Aborted;
  }

  // ----- Expressions -----

  method EvalRexpr(m: Machine, p: Program, e: Expr, fuel: nat) returns (r: Step)
    requires m.Valid()
    modifies m
    ensures Agrees(Eval(p, e, fuel, old(m.St())), r, m.St()) && (r.Done? ==> m.Valid())
    decreases fuel, e, 0
  {
    hide IndexOk, Lookup, Callee, SetVar, ReadVar, CallFn, ApplyUnary, ApplyBinary;
    match e {
      case Lit(v) =>
        var n := Literal(v);
        return if n.Some? then Done(Value(n.value)) else Aborted;
      case Var(x) =>
        var l := m.EvalLexpr(p, x);
        r := FromLvalue(m, l);
      case Set(op, x, right) =>
        r := EvalRexpr(m, p, right, fuel);
        if r.Done? {
          var left := m.EvalLexpr(p, x);
          r := Store(m, p, op, left, r.out);
        }
      case Unary(op, a) =>
        r := EvalRexpr(m, p, a, fuel);
        if r.Done? {
          r := if r.out.Value? then Done(Value(ApplyUnary(op, r.out.n, p.junk))) else Aborted;
        }
      case Binary(op, l, right) =>
        r := EvalRexpr(m, p, right, fuel);
        if r.Done? {
          var left := EvalRexpr(m, p, l, fuel);
          r := if !left.Done? then left
               else if left.out.Value? && r.out.Value? then
                 Done(Value(ApplyBinary(op, left.out.n, r.out.n, p.junk)))
               else Aborted;
        }
      case Call(f, args) =>
        var l := m.EvalLexpr(p, f);
        var fn := Callee(p, l);
        if fn.None? {
          return Aborted;
        }
        if fuel == 0 {
          return OutOfFuel;
        }
        r := CallFunction(m, p, fn.value, args, fuel);
    }
  }

  method CallFunction(m: Machine, p: Program, fn: Func, args: Exprs, fuel: nat) returns (r: Step)
    requires m.Valid() && fuel > 0
    modifies m
    ensures Agrees(CallFn(p, fn, args, fuel, old(m.St())), r, m.St()) && (r.Done? ==> m.Valid())
    decreases fuel, args, 1
  {
    hide IndexOk, Exec, EvalArgs, PushFrame, Pop;
    m.AddStackFrame();
    r := PassArguments(m, p, fn.params, args, fuel);
    if !r.Done? {
      return;
    }
    var save := m.currSource;
    m.currSource := fn.source;
    r := ExecStmt(m, p, fn.body, fuel - 1);
    if r.Done? {
      m.currSource := save;
      r := Leave(m, r);
    }
  }

  /** The frame is popped on the way out. */
  method Leave(m: Machine, s: Step) returns (r: Step)
    requires m.Valid() && s.Done?
    modifies m
    ensures Agrees(Popped(Ok(s.out, old(m.St()))), r, m.St()) && (r.Done? ==> m.Valid())
  {
    if m.stackVars == [] {
      return Aborted;
    }
    m.PopStackFrame();
    return s;
  }

  method PassArguments(m: Machine, p: Program, params: seq<string>, args: Exprs, fuel: nat) returns (r: Step)
    requires m.Valid()
    modifies m
    ensures Agrees(EvalArgs(p, params, 0, args, fuel, old(m.St())), r, m.St()) && (r.Done? ==> m.Valid())
    decreases fuel, args, 0
  {
    hide IndexOk, Eval, Declared;
    ghost var target := EvalArgs(p, params, 0, args, fuel, m.St());
    var i: nat, it := 0, args;
    while it.Arg?
      invariant it == args || it < args
      invariant m.Valid() && EvalArgs(p, params, i, it, fuel, m.St()) == target
      decreases it
    {
      r := EvalRexpr(m, p, it.e, fuel);
      if !r.Done? {
        return;
      }
      r := NewVar(m, if i < |params| then params[i] else "", r.out);
      if !r.Done? {
        return;
      }
      i, it := i + 1, it.rest;
    }
    return Done(Out.Null);
  }

  // ----- Statements -----

  method ExecStmt(m: Machine, p: Program, s: Stmt, fuel: nat) returns (r: Step)
    requires m.Valid()
    modifies m
    ensures Agrees(Exec(p, s, fuel, old(m.St())), r, m.St()) && (r.Done? ==> m.Valid())
    decreases fuel, s, 3
  {
    hide IndexOk, Eval, ExecSeq, ExecFor, ExecDecls, ExecSwitch, Pop;
    match s {
      case Compound(body) =>
        m.AddStackFrame();
        r := ExecBody(m, p, body, fuel);
        if r.Done? {
          r := Leave(m, r);
        }
      case DeclStmt(ds) => r := ExecDecl(m, p, ds, fuel);
      case ExprStmt(e) =>
        r := EvalRexpr(m, p, e, fuel);
        if r.Done? {
          r := Done(Out.Null);
        }
      case Return(e) => r := EvalRexpr(m, p, e, fuel);
      case If(_, _) => r := ExecIf(m, p, s, fuel);
      case IfElse(_, _, _) => r := ExecIf(m, p, s, fuel);
      case For(_, _, _, _) =>
        m.AddStackFrame();
        r := RunFor(m, p, s, fuel);
        if r.Done? {
          r := Leave(m, r);
        }
      case NullStmt => return Done(Out.Null);
      case Switch(c, sub) =>
        m.AddStackFrame();
        FailedSwitch(p, sub, Eval(p, c, fuel, m.St()), fuel);
        r := EvalRexpr(m, p, c, fuel);
        if r.Done? {
          r := RunSwitch(m, p, sub, r.out, fuel);
        }
      case Case(_, sub) => r := ExecStmt(m, p, sub, fuel);
      case Default(sub) => r := ExecStmt(m, p, sub, fuel);
      case Break => return Done(BreakMark);
      case Other => return Aborted;
    }
  }

  /** `is_scalar_zero` */
  method IsScalarZero(s: Step, ghost st: State) returns (ok: bool, z: bool)
    requires s.Done?
    ensures var t := Tested(Ok(s.out, st));
            if !ok then t == Failed(Abort) else if z then t == Zero(st) else t == NonZero(st)
  {
    return s.out.Value?, s.out.Value? && s.out.n.val == 0;
  }

  method ExecIf(m: Machine, p: Program, s: Stmt, fuel: nat) returns (r: Step)
    requires m.Valid() && (s.If? || s.IfElse?)
    modifies m
    ensures Agrees(Exec(p, s, fuel, old(m.St())), r, m.St()) && (r.Done? ==> m.Valid())
    decreases fuel, s, 0
  {
    hide IndexOk, Eval, Tested;
    r := EvalRexpr(m, p, s.cond, fuel);
    FailedTest(Eval(p, s.cond, fuel, old(m.St())));
    if !r.Done? {
      return;
    }
    var ok, zero := IsScalarZero(r, m.St());
    if !ok {
      return Aborted;
    }
    if zero {
      if s.If? {
        return Done(Out.Null);
      }
      r := ExecStmt(m, p, s.elseBranch, fuel);
    } else {
      r := ExecStmt(m, p, s.thenBranch, fuel);
    }
  }

  lemma {:induction false} FailedTest(r: Res)
    ensures !r.Ok? ==> Tested(r) == Failed(r)
  {
  }

  /** Statements in turn, until one returns something. */
  method ExecBody(m: Machine, p: Program, body: Stmts, fuel: nat) returns (r: Step)
    requires m.Valid()
    modifies m
    ensures Agrees(ExecSeq(p, body, fuel, old(m.St())), r, m.St()) && (r.Done? ==> m.Valid())
    decreases fuel, body, 0
  {
    hide IndexOk, Exec;
    ghost var target := ExecSeq(p, body, fuel, m.St());
    var it := body;
    while it.Then?
      invariant it == body || it < body
      invariant m.Valid() && ExecSeq(p, it, fuel, m.St()) == target
      decreases it
    {
      r := ExecStmt(m, p, it.s, fuel);
      if r != Done(Out.Null) {
        return;
      }
      it := it.rest;
    }
    return Done(Out.Null);
  }

  method RunFor(m: Machine, p: Program, s: Stmt, fuel: nat) returns (r: Step)
    requires m.Valid() && s.For?
    modifies m
    ensures Agrees(ExecFor(p, s, fuel, old(m.St())), r, m.St()) && (r.Done? ==> m.Valid())
    decreases fuel, s, 2
  {
    hide IndexOk, Exec, ExecLoop;
    r := ExecStmt(m, p, s.init, fuel);
    if r == Done(Out.Null) {
      r := RunLoop(m, p, s, fuel);
    }
  }

  method RunLoop(m: Machine, p: Program, s: Stmt, fuel: nat) returns (r: Step)
    requires m.Valid() && s.For?
    modifies m
    ensures Agrees(ExecLoop(p, s, fuel, old(m.St())), r, m.St()) && (r.Done? ==> m.Valid())
    decreases fuel, s, 1
  {
    hide IndexOk, Exec, Eval, Tested, ExecRound;
    ghost var target := ExecLoop(p, s, fuel, m.St());
    var f: nat := fuel;
    while true
      invariant f <= fuel && m.Valid() && ExecLoop(p, s, f, m.St()) == target
      decreases f
    {
      FailedTest(Eval(p, s.cond, f, m.St()));
      r := EvalRexpr(m, p, s.cond, f);
      if !r.Done? {
        return;
      }
      var ok, zero := IsScalarZero(r, m.St());
      if !ok {
        return Aborted;
      }
      if zero {
        return Done(Out.Null);
      }
      r := RunRound(m, p, s, f);
      if r != Done(Out.Null) {
        return;
      }
      if f == 0 {
        return OutOfFuel;
      }
      f := f - 1;
    }
  }

  /** The body of the loop and then the increment. */
  method RunRound(m: Machine, p: Program, s: Stmt, fuel: nat) returns (r: Step)
    requires m.Valid() && s.For?
    modifies m
    ensures Agrees(ExecRound(p, s, fuel, old(m.St())), r, m.St()) && (r.Done? ==> m.Valid())
    decreases fuel, s, 0
  {
    hide IndexOk, Exec, Eval;
    r := ExecStmt(m, p, s.loop, fuel);
    if r == Done(Out.Null) {
      r := EvalRexpr(m, p, s.inc, fuel);
      if r.Done? {
        r := Done(Out.Null);
      }
    }
  }

  /** Each initialiser is evaluated twice, as the source does. */
  method ExecDecl(m: Machine, p: Program, decls: Decls, fuel: nat) returns (r: Step)
    requires m.Valid()
    modifies m
    ensures Agrees(ExecDecls(p, decls, fuel, old(m.St())), r, m.St()) && (r.Done? ==> m.Valid())
    decreases fuel, decls, 0
  {
    hide IndexOk, Eval, Declared, CastInt, UninitInt;
    ghost var target := ExecDecls(p, decls, fuel, m.St());
    var it := decls;
    while !it.NoDecls?
      invariant it == decls || it < decls
      invariant m.Valid() && ExecDecls(p, it, fuel, m.St()) == target
      decreases it
    {
      if it.Uninitialised? {
        r := NewVar(m, it.name, Value(UninitInt(p.junk)));
        if !r.Done? {
          return;
        }
      } else {
        var temp := EvalRexpr(m, p, it.e, fuel);
        if !temp.Done? {
          return temp;
        }
        r := EvalRexpr(m, p, it.e, fuel);
        if !r.Done? {
          return;
        }
        if !r.out.Value? || temp.out == BreakMark {
          return Aborted;
        }
        r := NewVar(m, it.name, Value(CastInt(r.out.n)));
        if !r.Done? {
          return;
        }
      }
      it := it.rest;
    }
    return Done(Out.Null);
  }

  // ----- Switch -----

  method RunSwitch(m: Machine, p: Program, sub: Stmt, value: Out, fuel: nat) returns (r: Step)
    requires m.Valid()
    modifies m
    ensures Agrees(ExecSwitch(p, sub, Ok(value, old(m.St())), fuel), r, m.St()) && (r.Done? ==> m.Valid())
    decreases fuel, sub, 0
  {
    hide IndexOk, ExecSeq, FindCase, Pop;
    if !value.Value? || !sub.Compound? {
      return Aborted;
    }
    var bad, it := SeekCase(m, p, value.n, sub.body, fuel);
    if !bad.Done? {
      return bad;
    }
    if it.End? {
      it := SeekDefault(sub.body);
    }
    r := ExecBody(m, p, it, fuel);
    if r.Done? {
      r := Leave(m, if r.out == BreakMark then Done(Out.Null) else r);
    }
  }

  lemma {:induction false} FailedSwitch(p: Program, sub: Stmt, r: Res, fuel: nat)
    ensures !r.Ok? ==> ExecSwitch(p, sub, r, fuel) == r
  {
  }

  predicate Finds(f: Found, s: Step, at: Stmts, st: State) {
    match f
    case FAbort => s == Aborted
    case FTimeout => s == OutOfFuel
    case Found(ss, t) => s == Done(Out.Null) && at == ss && st == t
  }

  /** The first child that is a case with the value, or the end. */
  method SeekCase(m: Machine, p: Program, val: IntNum, body: Stmts, fuel: nat) returns (r: Step, it: Stmts)
    requires m.Valid()
    modifies m
    ensures Finds(FindCase(p, val, body, fuel, old(m.St())), r, it, m.St()) && (r.Done? ==> m.Valid())
    ensures it == body || it < body
    decreases fuel, body, 0
  {
    hide IndexOk, Eval;
    ghost var target := FindCase(p, val, body, fuel, m.St());
    it := body;
    while it.Then?
      invariant it == body || it < body
      invariant m.Valid() && FindCase(p, val, it, fuel, m.St()) == target
      decreases it
    {
      if it.s.Case? {
        r := EvalRexpr(m, p, it.s.value, fuel);
        if !r.Done? {
          return;
        }
        if !r.out.Value? {
          r := Aborted;
          return;
        }
        if val.val == r.out.n.val {
          r := Done(Out.Null);
          return;
        }
      }
      it := it.rest;
    }
    r := Done(Out.Null);
  }

  method SeekDefault(body: Stmts) returns (it: Stmts)
    ensures it == DefaultIn(body)
  {
    it := body;
    while it.Then? && !it.s.Default?
      invariant DefaultIn(it) == DefaultIn(body)
      decreases it
    {
      it := it.rest;
    }
  }

  // ----- Whole programs -----

  method RunProgram(m: Machine, p: Program, mainSource: Option<nat>, fuel: nat) returns (r: Step)
    requires m.Valid()
    modifies m
    ensures Agrees(RunMain(p, mainSource, fuel, old(m.St())), r, m.St()) && (r.Done? ==> m.Valid())
  {
    hide IndexOk, Exec, CastInt;
    if mainSource.None? {
      return Aborted;
    }
    var fn := Callee(p, GlobalIn(p, mainSource.value, "main"));
    if fn.None? {
      return Aborted;
    }
    m.currSource := mainSource.value;
    m.AddStackFrame();
    if fn.value.params != [] {
      return Aborted;
    }
    r := ExecStmt(m, p, fn.value.body, fuel);
    if r.Done? {
      r := if r.out.Value? then Done(Value(CastInt(r.out.n))) else Aborted;
    }
  }
}
