/**
 The executor does what C says, on every program that keeps away from the places where it is known not to:
 a `break` directly in a loop, an initialiser with effects, an argument that names an earlier parameter,
 and a variable named like a function.
 */
module AgreesWithC {
  import opened Options
  import opened Arithmetic
  import opened Values
  import opened Memory
  import opened RefExec
  import opened Discipline
  import opened Breaks
  import opened EvalOrder
  import opened CVariables
  import opened CArithmetic
  import C = CSemantics

  // ----- Fair programs -----

  /** No assignments and no calls. */
  predicate Still(e: Expr) {
    match e
    case Lit(_) => true
    case Var(_) => true
    case Set(_, _, _) => false
    case Unary(_, a) => Still(a)
    case Binary(_, l, r) => Still(l) && Still(r)
    case Call(_, _) => false
  }

  predicate FairExpr(p: Program, source: nat, e: Expr)
    decreases e
  {
    match e
    case Lit(_) => true
    case Var(_) => true
    case Set(_, _, a) => FairExpr(p, source, a)
    case Unary(_, a) => FairExpr(p, source, a)
    case Binary(_, l, r) => FairExpr(p, source, l) && FairExpr(p, source, r)
    case Call(f, args) =>
      match Callee(p, NonStack(p, source, f))
      case None => true
      case Some(fn) => FairArgs(p, source, fn.params, 0, args)
  }

  /** From the `k`-th argument on, none names a parameter before it. */
  predicate FairArgs(p: Program, source: nat, params: seq<string>, k: nat, args: Exprs)
    decreases args
  {
    args.Arg? ==>
      FairExpr(p, source, args.e) && (forall j :: 0 <= j < k && j < |params| ==> !C.Mentions(args.e, params[j])) &&
      FairArgs(p, source, params, k + 1, args.rest)
  }

  predicate FairDecls(p: Program, source: nat, ds: Decls) {
    match ds
    case NoDecls => true
    case Uninitialised(x, rest) => !FunctionName(p, x) && FairDecls(p, source, rest)
    case Initialised(x, e, rest) =>
      !FunctionName(p, x) && FairExpr(p, source, e) && Still(e) && FairDecls(p, source, rest)
  }

  predicate FairStmt(p: Program, source: nat, s: Stmt) {
    match s
    case Compound(body) => FairStmts(p, source, body)
    case DeclStmt(ds) => FairDecls(p, source, ds)
    case ExprStmt(e) => FairExpr(p, source, e)
    case Return(e) => FairExpr(p, source, e)
    case If(c, a) => FairExpr(p, source, c) && FairStmt(p, source, a)
    case IfElse(c, a, b) => FairExpr(p, source, c) && FairStmt(p, source, a) && FairStmt(p, source, b)
    case For(init, c, inc, body) =>
      FairStmt(p, source, init) && FairExpr(p, source, c) && FairExpr(p, source, inc) &&
      FairStmt(p, source, body) && !Loose(p, {}, source, body)
    case Switch(c, sub) => FairExpr(p, source, c) && FairStmt(p, source, sub)
    case Case(_, sub) => FairStmt(p, source, sub)
    case Default(sub) => FairStmt(p, source, sub)
    case _ => true
  }

  predicate FairStmts(p: Program, source: nat, ss: Stmts) {
    ss.Then? ==> FairStmt(p, source, ss.s) && FairStmts(p, source, ss.rest)
  }

  predicate FairFunc(p: Program, fn: Func) {
    FairStmt(p, fn.source, fn.body) && !Loose(p, {}, fn.source, fn.body) &&
    forall i :: 0 <= i < |fn.params| ==> !FunctionName(p, fn.params[i])
  }

  predicate FairProgram(p: Program) {
    forall fid :: fid in p.funcs ==> FairFunc(p, p.funcs[fid])
  }

  // ----- Expressions -----

  predicate SameEffect(o: Out, e: C.Effect) {
    match e
    case Nothing => o == Out.Null
    case Gives(v) => InRangeInt(v) && o == Value(IntOf(v))
    case Breaks => o == BreakMark
  }

  /**
   Where C gives a run from `st` a meaning, the executor ends, with the same effect and the same variables:
   those of the function that runs, between `pre` and `post`, and these unchanged.
   */
  ghost predicate Agree(p: Program, st: State, r: Res, m: C.Meaning, pre: seq<C.Cell>, post: seq<C.Cell>) {
    m.Done? ==>
      r.Ok? && SameEffect(r.out, m.effect) && r.st.source == st.source &&
      Mirrors(p, r.st, pre + m.env.vars + post, m.env.room)
  }

  predicate Apart(e: Expr, cells: seq<C.Cell>) {
    forall i :: 0 <= i < |cells| ==> !C.Mentions(e, cells[i].name)
  }

  predicate ApartAll(args: Exprs, cells: seq<C.Cell>) {
    args.Arg? ==> Apart(args.e, cells) && ApartAll(args.rest, cells)
  }

  lemma {:induction false} ApartArgs(args: Exprs, cells: seq<C.Cell>)
    requires forall i :: 0 <= i < |cells| ==> !C.MentionsAny(args, cells[i].name)
    ensures ApartAll(args, cells)
  {
    if args.Arg? {
      ApartArgs(args.rest, cells);
    }
  }

  lemma {:induction false} FindMiddle(pre: seq<C.Cell>, own: seq<C.Cell>, post: seq<C.Cell>, x: string)
    requires C.Find(own, x).Some? && forall i :: 0 <= i < |post| ==> post[i].name != x
    ensures C.Find(pre + own + post, x) == Some(|pre| + C.Find(own, x).value)
  {
    hide C.Find;
    var all, k := pre + own + post, |pre| + C.Find(own, x).value;
    assert all[k].name == x;
    forall j | k < j < |all|
      ensures all[j].name != x
    {
      if j < |pre| + |own| {
        assert all[j] == own[j - |pre|];
      } else {
        assert all[j] == post[j - |pre| - |own|];
      }
    }
  }

  lemma {:induction false} UpdateMiddle(pre: seq<C.Cell>, own: seq<C.Cell>, post: seq<C.Cell>, i: nat, c: C.Cell)
    requires i < |own|
    ensures (pre + own + post)[|pre| + i := c] == pre + own[i := c] + post
    ensures (pre + own + post)[|pre| + i] == own[i]
  {
  }

  /** A variable of the function that runs, in the state. */
  lemma {:induction false} OwnVariable(
      p: Program, st: State, pre: seq<C.Cell>, env: C.Env, post: seq<C.Cell>, x: string, i: nat)
    requires Mirrors(p, st, pre + env.vars + post, env.room) && C.Find(env.vars, x) == Some(i)
    requires forall k :: 0 <= k < |post| ==> post[k].name != x
    ensures |pre| + i < |All(st)|
    ensures var id := All(st)[|pre| + i].block;
            Lookup(p, st, x) == Some(IntVar(id)) && ReadInt(st.mem, id).Some? && st.mem.blocks[id].memtype != FREED &&
            (env.vars[i].val.Some? ==>
               InRangeInt(env.vars[i].val.value) && ReadInt(st.mem, id) == Some(IntOf(env.vars[i].val.value)))
  {
    hide MemOk, FunctionName, IntOf, IntAt, Lookup, Flat, C.Find;
    FindMiddle(pre, env.vars, post, x);
    var cells := pre + env.vars + post;
    NameOfVariable(p, st, cells, env.room, x);
    assert Represents(p, st.mem, All(st)[|pre| + i], cells[|pre| + i]);
    UpdateMiddle(pre, env.vars, post, i, env.vars[i]);
  }

  lemma {:induction false} ReadAgrees(
      p: Program, x: string, fuel: nat, st: State, pre: seq<C.Cell>, env: C.Env, post: seq<C.Cell>)
    requires Mirrors(p, st, pre + env.vars + post, env.room) && Apart(Var(x), post)
    ensures Agree(p, st, Eval(p, Var(x), fuel, st), C.Read(env, x), pre, post)
  {
    hide Mirrors, IntOf, Lookup, ReadInt, C.Find;
    forall k | 0 <= k < |post|
      ensures post[k].name != x
    {
      assert !C.Mentions(Var(x), post[k].name);
    }
    if C.Read(env, x).Done? {
      OwnVariable(p, st, pre, env, post, x, C.Find(env.vars, x).value);
    }
  }

  lemma {:induction false} AssignAgrees(
      p: Program, op: StoreOp, x: string, v: int, st: State, pre: seq<C.Cell>, env: C.Env, post: seq<C.Cell>)
    requires Mirrors(p, st, pre + env.vars + post, env.room) && InRangeInt(v)
    requires forall k :: 0 <= k < |post| ==> post[k].name != x
    ensures Agree(p, st, SetVar(p, st, op, Lookup(p, st, x), Value(IntOf(v))), C.Assign(op, env, x, v), pre, post)
  {
    hide Mirrors, IntOf, Lookup, ReadInt, C.Find, WriteRes, ApplyBinary, CastInt;
    var m := C.Assign(op, env, x, v);
    if m.Done? {
      var i, z := C.Find(env.vars, x).value, m.effect.v;
      OwnVariable(p, st, pre, env, post, x, i);
      SignOf(v);
      if op != Plain {
        ArithmeticStep(op, env.vars[i].val.value, v, p.junk);
      }
      MirrorWrite(p, st, pre + env.vars + post, env.room, |pre| + i, z);
      UpdateMiddle(pre, env.vars, post, i, env.vars[i].(val := Some(z)));
    }
  }

  lemma {:induction false} ArithmeticStep(op: StoreOp, w: int, v: int, junk: nat)
    requires InRangeInt(w) && InRangeInt(v) && op != Plain && C.Fit(if op == AddAssign then w + v else w - v).Some?
    ensures var z := if op == AddAssign then w + v else w - v;
            var plus := Arith(if op == AddAssign then Add else Sub);
            InRangeInt(z) && ApplyBinary(plus, IntOf(w), IntOf(v), junk) == IntOf(z)
  {
    hide Apply, IntOf;
    BinaryAgrees(Arith(if op == AddAssign then Add else Sub), w, v, junk);
  }

  lemma {:induction false} SourceKept(p: Program, e: Expr, fuel: nat, st: State)
    requires Eval(p, e, fuel, st).Ok?
    ensures Eval(p, e, fuel, st).st.source == st.source && Eval(p, e, fuel, st).st.frames == st.frames
  {
    hide Eval;
    EvalKeeps(p, e, fuel, st);
  }

  lemma {:induction false} EvalAgrees(
      p: Program, e: Expr, fuel: nat, st: State, pre: seq<C.Cell>, env: C.Env, post: seq<C.Cell>)
    requires FairProgram(p) && FairExpr(p, st.source, e) && Apart(e, post)
    requires Mirrors(p, st, pre + env.vars + post, env.room)
    ensures Agree(p, st, Eval(p, e, fuel, st), C.Eval(p, e, fuel, st.source, env), pre, post)
    decreases fuel, e, 0
  {
    hide Mirrors, IntOf, Lookup, SetVar, Literal, FairProgram, ApplyUnary, ApplyBinary;
    match e
    case Lit(v) => if C.Fit(v).Some? { SignOf(v); }
    case Var(x) => ReadAgrees(p, x, fuel, st, pre, env, post);
    case Set(op, x, a) =>
      ApartSub(e, a, post);
      EvalAgrees(p, a, fuel, st, pre, env, post);
      var m, r := C.Eval(p, a, fuel, st.source, env), Eval(p, a, fuel, st);
      if m.Done? && m.effect.Gives? {
        AssignAgrees(p, op, x, m.effect.v, r.st, pre, m.env, post);
      }
    case Unary(op, a) =>
      ApartSub(e, a, post);
      EvalAgrees(p, a, fuel, st, pre, env, post);
      var m := C.Eval(p, a, fuel, st.source, env);
      if m.Done? && m.effect.Gives? && C.UnaryOf(op, m.effect.v).Some? {
        UnaryAgrees(op, m.effect.v, p.junk);
      }
    case Binary(_, _, _) => OperandsAgree(p, e, fuel, st, pre, env, post);
    case Call(_, _) => CallAgrees(p, e, fuel, st, pre, env, post);
  }

  lemma {:induction false} ApartSub(e: Expr, a: Expr, cells: seq<C.Cell>)
    requires Apart(e, cells)
    requires match e
             case Set(_, _, b) => a == b
             case Unary(_, b) => a == b
             case Binary(_, l, r) => a == l || a == r
             case _ => false
    ensures Apart(a, cells) && (e.Set? ==> forall k :: 0 <= k < |cells| ==> cells[k].name != e.name)
  {
    forall i | 0 <= i < |cells|
      ensures !C.Mentions(a, cells[i].name) && (e.Set? ==> cells[i].name != e.name)
    {
      assert !C.Mentions(e, cells[i].name);
    }
  }

  lemma {:induction false} OperandsAgree(
      p: Program, e: Expr, fuel: nat, st: State, pre: seq<C.Cell>, env: C.Env, post: seq<C.Cell>)
    requires FairProgram(p) && FairExpr(p, st.source, e) && Apart(e, post) && e.Binary?
    requires Mirrors(p, st, pre + env.vars + post, env.room)
    ensures Agree(p, st, Eval(p, e, fuel, st), C.Eval(p, e, fuel, st.source, env), pre, post)
    decreases fuel, e, 0, 0
  {
    hide Mirrors, IntOf, FairProgram, ApplyBinary, C.BinaryOf, Apart;
    ApartSub(e, e.l, post);
    ApartSub(e, e.r, post);
    EvalAgrees(p, e.r, fuel, st, pre, env, post);
    var m := C.Eval(p, e.r, fuel, st.source, env);
    if m.Done? && m.effect.Gives? {
      var s := Eval(p, e.r, fuel, st).st;
      EvalAgrees(p, e.l, fuel, s, pre, m.env, post);
      var n := C.Eval(p, e.l, fuel, st.source, m.env);
      if n.Done? && n.effect.Gives? && C.BinaryOf(e.bop, n.effect.v, m.effect.v).Some? {
        BinaryAgrees(e.bop, n.effect.v, m.effect.v, p.junk);
      }
    }
  }

  // ----- Calls -----

  /** The parameters from the `k`-th on, with values. */
  function Bound(params: seq<string>, k: nat, vals: seq<int>): seq<C.Cell>
    requires k + |vals| <= |params|
  {
    seq(|vals|, i requires 0 <= i < |vals| => C.Cell(params[k + i], Some(vals[i])))
  }

  lemma {:induction false} CallAgrees(
      p: Program, e: Expr, fuel: nat, st: State, pre: seq<C.Cell>, env: C.Env, post: seq<C.Cell>)
    requires FairProgram(p) && FairExpr(p, st.source, e) && Apart(e, post) && e.Call?
    requires Mirrors(p, st, pre + env.vars + post, env.room)
    ensures Agree(p, st, Eval(p, e, fuel, st), C.Eval(p, e, fuel, st.source, env), pre, post)
    decreases fuel, e, 0, 0
  {
    hide Mirrors, IntOf, C.Find, CallFn, C.CallOf, Lookup, FairFunc;
    if C.Eval(p, e, fuel, st.source, env).Done? {
      NameOfFunction(p, st, pre + env.vars + post, env.room, e.name);
      forall i | 0 <= i < |post|
        ensures !C.MentionsAny(e.args, post[i].name)
      {
        assert !C.Mentions(e, post[i].name);
      }
      ApartArgs(e.args, post);
      BodyAgrees(p, Callee(p, NonStack(p, st.source, e.name)).value, e.args, fuel, st, pre, env, post);
    }
  }

  /** The cells of the caller, and after them the parameters. */
  lemma {:induction false} Reassociate(pre: seq<C.Cell>, own: seq<C.Cell>, post: seq<C.Cell>, params: seq<C.Cell>)
    ensures pre + own + (post + params) == (pre + own + post) + params + []
    ensures pre + own + (post + []) == pre + own + post
    ensures (pre + own + post)[..|pre| + |own| + |post|] == pre + own + post
  {
  }

  lemma {:induction false} Cutoff(a: seq<C.Cell>, b: seq<C.Cell>)
    ensures (a + b + [])[..|a|] == a
  {
  }

  lemma {:induction false} MirrorSource(p: Program, st: State, cells: seq<C.Cell>, room: nat, source: nat)
    requires Mirrors(p, st, cells, room)
    ensures Mirrors(p, st.(source := source), cells, room)
  {
    hide MemOk, Represents;
    assert All(st.(source := source)) == All(st);
    assert forall i :: 0 <= i < |cells| ==> Represents(p, st.mem, All(st)[i], cells[i]);
  }

  lemma {:induction false} MirrorLength(p: Program, st: State, cells: seq<C.Cell>, room: nat)
    requires Mirrors(p, st, cells, room)
    ensures |All(st)| == |cells|
  {
  }

  lemma {:induction false} BodyAgrees(
      p: Program, fn: Func, args: Exprs, fuel: nat, st: State, pre: seq<C.Cell>, env: C.Env, post: seq<C.Cell>)
    requires FairProgram(p) && FairFunc(p, fn) && FairArgs(p, st.source, fn.params, 0, args) && ApartAll(args, post)
    requires fuel > 0 && C.Count(args) == |fn.params| && Mirrors(p, st, pre + env.vars + post, env.room)
    ensures Agree(p, st, CallFn(p, fn, args, fuel, st), C.CallOf(p, fn, args, fuel, st.source, env), pre, post)
    decreases fuel, args, 1
  {
    hide Mirrors, FairProgram, Flat, Pop, Loose, FairStmt, FunctionName, EvalArgs, C.EvalArgs, Exec, C.Exec, FairArgs,
         ApartAll, Kept, SameEffect;
    var a := C.EvalArgs(p, args, fuel, st.source, env);
    if a.Vals? {
      MirrorPush(p, st, pre + env.vars + post, env.room);
      Reassociate(pre, env.vars, post, []);
      ArgsAgree(p, fn.params, 0, args, fuel, Push(st), pre, env, post, []);
      var s := EvalArgs(p, fn.params, 0, args, fuel, Push(st)).st;
      var own, low := C.Parameters(fn.params, a.vals), pre + a.env.vars + post;
      SameParameters(fn.params, a.vals);
      assert post + [] + own == post + own;
      Reassociate(pre, a.env.vars, post, own);
      var entered := s.(source := fn.source);
      MirrorSource(p, s, low + own + [], a.env.room, fn.source);
      ExecAgrees(p, fn.body, fuel - 1, entered, low, C.Env(own, a.env.room));
      var m := C.Exec(p, fn.body, fuel - 1, fn.source, C.Env(own, a.env.room));
      if m.Done? {
        StmtKept(p, fn.body, fuel - 1, entered);
        var back := Exec(p, fn.body, fuel - 1, entered).st.(source := st.source);
        MirrorSource(p, Exec(p, fn.body, fuel - 1, entered).st, low + m.env.vars + [], m.env.room, st.source);
        assert CallFn(p, fn, args, fuel, st).Ok?;
        CallKeeps(p, fn, args, fuel, st);
        ReturnAgrees(p, st, pre + env.vars + post, env.room, back, low, m.env.vars, m.env.room);
      }
    }
  }

  lemma {:induction false} SameParameters(params: seq<string>, vals: seq<int>)
    requires |vals| == |params|
    ensures Bound(params, 0, vals) == C.Parameters(params, vals)
  {
  }

  /** When the frame of a call is popped, the variables of the caller are left. */
  lemma {:induction false} ReturnAgrees(
      p: Program, st: State, cells: seq<C.Cell>, room: nat, t: State, low: seq<C.Cell>, own: seq<C.Cell>, left: nat)
    requires Mirrors(p, st, cells, room) && |low| == |cells| && Mirrors(p, t, low + own + [], left)
    requires t.frames != [] && Pop(t).frames == st.frames
    ensures Mirrors(p, Pop(t), low, left)
  {
    hide Mirrors, Pop, Flat;
    MirrorLength(p, st, cells, room);
    MirrorPop(p, t, low + own + [], left);
    Cutoff(low, own);
  }

  lemma {:induction false} ArgsAgree(
      p: Program, params: seq<string>, k: nat, args: Exprs, fuel: nat, st: State,
      pre: seq<C.Cell>, env: C.Env, post: seq<C.Cell>, bound: seq<C.Cell>)
    requires FairProgram(p) && FairArgs(p, st.source, params, k, args) && ApartAll(args, post)
    requires forall i :: 0 <= i < |params| ==> !FunctionName(p, params[i])
    requires |bound| == k && k + C.Count(args) == |params| && st.frames != []
    requires forall i :: 0 <= i < k ==> bound[i].name == params[i]
    requires Mirrors(p, st, pre + env.vars + (post + bound), env.room)
    ensures var a, r := C.EvalArgs(p, args, fuel, st.source, env), EvalArgs(p, params, k, args, fuel, st);
            a.Vals? ==>
              r.Ok? && r.st.source == st.source && r.st.frames != [] &&
              Mirrors(p, r.st, pre + a.env.vars + (post + bound + Bound(params, k, a.vals)), a.env.room)
    decreases fuel, args, 0
  {
    hide Mirrors, IntOf, FairProgram, Declared, FunctionName, Eval, C.Eval, FairExpr, C.Mentions;
    match args
    case NoArgs => assert post + bound + Bound(params, k, []) == post + bound;
    case Arg(e, rest) =>
      ArgumentApart(e, post, bound, params);
      EvalAgrees(p, e, fuel, st, pre, env, post + bound);
      var m, r := C.Eval(p, e, fuel, st.source, env), Eval(p, e, fuel, st);
      if C.EvalArgs(p, args, fuel, st.source, env).Vals? {
        var v := m.effect.v;
        var cell := C.Cell(params[k], Some(v));
        SourceKept(p, e, fuel, st);
        MirrorDeclare(p, r.st, pre + m.env.vars + (post + bound), m.env.room, params[k], IntOf(v), Some(v));
        var t := Declared(r.st, params[k], Value(IntOf(v))).st;
        var env' := m.env.(room := m.env.room - 1);
        var b := C.EvalArgs(p, rest, fuel, st.source, env');
        OneBound(pre, m.env.vars, post, bound, params, k, v, b.vals);
        ArgsAgree(p, params, k + 1, rest, fuel, t, pre, env', post, bound + [cell]);
      }
  }

  lemma {:induction false} ArgumentApart(e: Expr, post: seq<C.Cell>, bound: seq<C.Cell>, params: seq<string>)
    requires Apart(e, post) && |bound| <= |params|
    requires forall i :: 0 <= i < |bound| ==> bound[i].name == params[i] && !C.Mentions(e, params[i])
    ensures Apart(e, post + bound)
  {
    hide C.Mentions;
    forall i | 0 <= i < |post + bound|
      ensures !C.Mentions(e, (post + bound)[i].name)
    {
      assert (post + bound)[i] == if i < |post| then post[i] else bound[i - |post|];
    }
  }

  lemma {:induction false} OneBound(
      pre: seq<C.Cell>, own: seq<C.Cell>, post: seq<C.Cell>, bound: seq<C.Cell>,
      params: seq<string>, k: nat, v: int, vals: seq<int>)
    requires k + 1 + |vals| <= |params|
    ensures var cell := C.Cell(params[k], Some(v));
            pre + own + (post + bound) + [cell] == pre + own + (post + (bound + [cell])) &&
            post + (bound + [cell]) + Bound(params, k + 1, vals) == post + bound + Bound(params, k, [v] + vals)
  {
    var cell := C.Cell(params[k], Some(v));
    assert [cell] + Bound(params, k + 1, vals) == Bound(params, k, [v] + vals);
  }

  // ----- Statements -----

  lemma {:induction false} ExecAgrees(p: Program, s: Stmt, fuel: nat, st: State, pre: seq<C.Cell>, env: C.Env)
    requires FairProgram(p) && FairStmt(p, st.source, s) && st.frames != []
    requires Mirrors(p, st, pre + env.vars + [], env.room)
    ensures Agree(p, st, Exec(p, s, fuel, st), C.Exec(p, s, fuel, st.source, env), pre, [])
    decreases fuel, s, 3
  {
    hide Mirrors, IntOf, FairProgram, Popped, Loose;
    match s
    case Compound(body) =>
      MirrorPush(p, st, pre + env.vars + [], env.room);
      SeqAgrees(p, body, fuel, Push(st), pre, env);
      var r := ExecSeq(p, body, fuel, Push(st));
      if r.Ok? { SeqKeeps(p, body, fuel, Push(st)); }
      LeaveAgrees(p, st, r, C.ExecSeq(p, body, fuel, st.source, env), pre, env);
    case DeclStmt(ds) => DeclsAgree(p, ds, fuel, st, pre, env);
    case ExprStmt(e) => EvalAgrees(p, e, fuel, st, pre, env, []);
    case Return(e) => EvalAgrees(p, e, fuel, st, pre, env, []);
    case If(_, _) => BranchAgrees(p, s, fuel, st, pre, env);
    case IfElse(_, _, _) => BranchAgrees(p, s, fuel, st, pre, env);
    case For(_, _, _, _) =>
      MirrorPush(p, st, pre + env.vars + [], env.room);
      ForAgrees(p, s, fuel, Push(st), pre, env);
      var r := ExecFor(p, s, fuel, Push(st));
      if r.Ok? { ForKeeps(p, s, fuel, Push(st)); }
      LeaveAgrees(p, st, r, C.ExecFor(p, s, fuel, st.source, env), pre, env);
    case NullStmt =>
    case Switch(_, _) => SwitchAgrees(p, s, fuel, st, pre, env);
    case Case(_, sub) => ExecAgrees(p, sub, fuel, st, pre, env);
    case Default(sub) => ExecAgrees(p, sub, fuel, st, pre, env);
    case Break =>
    case Other =>
  }

  /** At the end of a block. */
  lemma {:induction false} LeaveAgrees(p: Program, st: State, r: Res, m: C.Meaning, pre: seq<C.Cell>, env: C.Env)
    requires Mirrors(p, st, pre + env.vars + [], env.room) && (m.Done? ==> |env.vars| <= |m.env.vars|)
    requires r.Ok? ==> Kept(Push(st), r.st)
    requires Agree(p, Push(st), r, m, pre, [])
    ensures Agree(p, st, Popped(r), C.Leave(m, |env.vars|), pre, [])
  {
    hide Mirrors, Kept, Pop, Flat, SameEffect;
    if m.Done? {
      LeaveKeeps(st, r);
      MirrorLength(p, st, pre + env.vars + [], env.room);
      MirrorPop(p, r.st, pre + m.env.vars + [], m.env.room);
      var n := |pre| + |env.vars|;
      assert (pre + m.env.vars + [])[..n] == pre + m.env.vars[..|env.vars|] + [];
    }
  }

  lemma {:induction false} ConditionAgrees(st: State, r: Res, p: Program, m: C.Meaning, pre: seq<C.Cell>)
    requires Agree(p, st, r, m, pre, [])
    ensures match C.Cond(m)
            case NoTruth(_) => true
            case True(env) => Tested(r) == NonZero(r.st) && r.Ok? && Mirrors(p, r.st, pre + env.vars + [], env.room)
            case False(env) => Tested(r) == Zero(r.st) && r.Ok? && Mirrors(p, r.st, pre + env.vars + [], env.room)
  {
    hide Mirrors;
    if m.Done? && m.effect.Gives? {
      SignOf(m.effect.v);
    }
  }

  lemma {:induction false} BranchAgrees(p: Program, s: Stmt, fuel: nat, st: State, pre: seq<C.Cell>, env: C.Env)
    requires FairProgram(p) && FairStmt(p, st.source, s) && st.frames != [] && (s.If? || s.IfElse?)
    requires Mirrors(p, st, pre + env.vars + [], env.room)
    ensures Agree(p, st, Exec(p, s, fuel, st), C.Exec(p, s, fuel, st.source, env), pre, [])
    decreases fuel, s, 0
  {
    hide Mirrors, IntOf, FairProgram, Tested, C.Cond;
    EvalAgrees(p, s.cond, fuel, st, pre, env, []);
    var m, r := C.Eval(p, s.cond, fuel, st.source, env), Eval(p, s.cond, fuel, st);
    ConditionAgrees(st, r, p, m, pre);
    match C.Cond(m)
    case NoTruth(_) =>
    case True(env') =>
      SourceKept(p, s.cond, fuel, st);
      ExecAgrees(p, s.thenBranch, fuel, r.st, pre, env');
    case False(env') =>
      SourceKept(p, s.cond, fuel, st);
      if s.IfElse? {
        ExecAgrees(p, s.elseBranch, fuel, r.st, pre, env');
      }
  }

  lemma {:induction false} StmtKept(p: Program, s: Stmt, fuel: nat, st: State)
    requires Exec(p, s, fuel, st).Ok? && st.frames != []
    ensures Exec(p, s, fuel, st).st.source == st.source && Exec(p, s, fuel, st).st.frames != []
  {
    hide Exec;
    ExecKeeps(p, s, fuel, st);
  }

  lemma {:induction false} SeqAgrees(p: Program, ss: Stmts, fuel: nat, st: State, pre: seq<C.Cell>, env: C.Env)
    requires FairProgram(p) && FairStmts(p, st.source, ss) && st.frames != []
    requires Mirrors(p, st, pre + env.vars + [], env.room)
    ensures Agree(p, st, ExecSeq(p, ss, fuel, st), C.ExecSeq(p, ss, fuel, st.source, env), pre, [])
    decreases fuel, ss, 0
  {
    hide Mirrors, IntOf, FairProgram, Exec, C.Exec;
    if ss.Then? {
      ExecAgrees(p, ss.s, fuel, st, pre, env);
      var m, r := C.Exec(p, ss.s, fuel, st.source, env), Exec(p, ss.s, fuel, st);
      if m.Done? && m.effect.Nothing? {
        StmtKept(p, ss.s, fuel, st);
        SeqAgrees(p, ss.rest, fuel, r.st, pre, m.env);
      }
    }
  }

  lemma {:induction false} ForAgrees(p: Program, s: Stmt, fuel: nat, st: State, pre: seq<C.Cell>, env: C.Env)
    requires FairProgram(p) && s.For? && FairStmt(p, st.source, s) && st.frames != []
    requires Mirrors(p, st, pre + env.vars + [], env.room)
    ensures Agree(p, st, ExecFor(p, s, fuel, st), C.ExecFor(p, s, fuel, st.source, env), pre, [])
    decreases fuel, s, 2
  {
    hide Mirrors, IntOf, FairProgram, Exec, C.Exec, ExecLoop, C.ExecLoop;
    ExecAgrees(p, s.init, fuel, st, pre, env);
    var m, r := C.Exec(p, s.init, fuel, st.source, env), Exec(p, s.init, fuel, st);
    if m.Done? && m.effect.Nothing? {
      StmtKept(p, s.init, fuel, st);
      LoopAgrees(p, s, fuel, r.st, pre, m.env);
    }
  }

  /** A fair body gives no marker to the loop. */
  lemma {:induction false} NoLooseBreak(p: Program, s: Stmt, fuel: nat, st: State)
    requires FairProgram(p) && !Loose(p, {}, st.source, s)
    ensures !Marks(Exec(p, s, fuel, st))
  {
    hide Loose, Exec, FairStmt;
    assert Collects(p, {}) by {
      assert forall fid :: fid in p.funcs ==> FairFunc(p, p.funcs[fid]);
    }
    BreakScoping(p, {}, s, Lit(0), fuel, st);
  }

  lemma {:induction false} LoopAgrees(p: Program, s: Stmt, fuel: nat, st: State, pre: seq<C.Cell>, env: C.Env)
    requires FairProgram(p) && s.For? && FairStmt(p, st.source, s) && st.frames != []
    requires Mirrors(p, st, pre + env.vars + [], env.room)
    ensures Agree(p, st, ExecLoop(p, s, fuel, st), C.ExecLoop(p, s, fuel, st.source, env), pre, [])
    decreases fuel, s, 1
  {
    hide Mirrors, IntOf, FairProgram, Exec, C.Exec, Eval, C.Eval, Loose, Tested, C.Cond;
    EvalAgrees(p, s.cond, fuel, st, pre, env, []);
    var m, r := C.Eval(p, s.cond, fuel, st.source, env), Eval(p, s.cond, fuel, st);
    ConditionAgrees(st, r, p, m, pre);
    if !C.Cond(m).NoTruth? {
      SourceKept(p, s.cond, fuel, st);
    }
    if C.Cond(m).True? {
      RoundAgrees(p, s, fuel, r.st, pre, C.Cond(m).env);
    }
  }

  /** The body, the increment and the rounds after it. */
  lemma {:induction false} RoundAgrees(p: Program, s: Stmt, fuel: nat, t: State, pre: seq<C.Cell>, env: C.Env)
    requires FairProgram(p) && s.For? && FairStmt(p, t.source, s) && t.frames != []
    requires Mirrors(p, t, pre + env.vars + [], env.room)
    ensures Agree(p, t, Rounds(p, s, fuel, t), CRounds(p, s, fuel, t.source, env), pre, [])
    decreases fuel, s, 0
  {
    hide Mirrors, IntOf, FairProgram, Exec, C.Exec, Eval, C.Eval, Loose, ExecLoop, C.ExecLoop;
    ExecAgrees(p, s.loop, fuel, t, pre, env);
    NoLooseBreak(p, s.loop, fuel, t);
    var m, r := C.Exec(p, s.loop, fuel, t.source, env), Exec(p, s.loop, fuel, t);
    if m.Done? && m.effect.Nothing? {
      StmtKept(p, s.loop, fuel, t);
      EvalAgrees(p, s.inc, fuel, r.st, pre, m.env, []);
      var n, q := C.Eval(p, s.inc, fuel, t.source, m.env), Eval(p, s.inc, fuel, r.st);
      if n.Done? && fuel > 0 {
        SourceKept(p, s.inc, fuel, r.st);
        LoopAgrees(p, s, fuel - 1, q.st, pre, n.env);
      }
    }
  }

  /** What `ExecLoop` does once the condition has held, here and in C. */
  function Rounds(p: Program, s: Stmt, fuel: nat, t: State): Res
    requires s.For?
  {
    match ExecRound(p, s, fuel, t)
    case Ok(o, u) => if o != Null then Ok(o, u) else if fuel == 0 then Timeout else ExecLoop(p, s, fuel - 1, u)
    case bad => bad
  }

  function CRounds(p: Program, s: Stmt, fuel: nat, source: nat, env: C.Env): C.Meaning
    requires s.For?
  {
    var m := C.Exec(p, s.loop, fuel, source, env);
    if !m.Done? then m
    else match m.effect
      case Breaks => C.Done(C.Nothing, m.env)
      case Gives(_) => m
      case Nothing =>
        var n := C.Eval(p, s.inc, fuel, source, m.env);
        if !n.Done? then n
        else if fuel == 0 then C.NoFuel
        else C.ExecLoop(p, s, fuel - 1, source, n.env)
  }

  lemma {:induction false} StillKeeps(p: Program, e: Expr, fuel: nat, source: nat, env: C.Env)
    requires Still(e)
    ensures C.Eval(p, e, fuel, source, env).Done? ==> C.Eval(p, e, fuel, source, env).env == env
    decreases e
  {
    match e
    case Unary(_, a) => StillKeeps(p, a, fuel, source, env);
    case Binary(_, l, r) =>
      StillKeeps(p, r, fuel, source, env);
      StillKeeps(p, l, fuel, source, env);
    case _ =>
  }

  lemma {:induction false} DeclsAgree(p: Program, ds: Decls, fuel: nat, st: State, pre: seq<C.Cell>, env: C.Env)
    requires FairProgram(p) && FairDecls(p, st.source, ds) && st.frames != []
    requires Mirrors(p, st, pre + env.vars + [], env.room)
    ensures Agree(p, st, ExecDecls(p, ds, fuel, st), C.ExecDecls(p, ds, fuel, st.source, env), pre, [])
    decreases fuel, ds, 0
  {
    hide Mirrors, IntOf, FairProgram, Declared, FunctionName, Eval, C.Eval, UninitInt, FairExpr;
    match ds
    case NoDecls =>
    case Uninitialised(x, rest) =>
      if env.room > 0 {
        var n := UninitInt(p.junk);
        MirrorDeclare(p, st, pre + env.vars + [], env.room, x, n, None);
        var cell := C.Cell(x, None);
        assert pre + env.vars + [] + [cell] == pre + (env.vars + [cell]) + [];
        DeclsAgree(p, rest, fuel, Declared(st, x, Value(n)).st, pre, C.Env(env.vars + [cell], env.room - 1));
      }
    case Initialised(x, e, rest) => InitialAgrees(p, ds, fuel, st, pre, env);
  }

  /** The second evaluation of an initialiser without effects gives what the first one gave. */
  lemma {:induction false} InitialAgrees(p: Program, ds: Decls, fuel: nat, st: State, pre: seq<C.Cell>, env: C.Env)
    requires FairProgram(p) && FairDecls(p, st.source, ds) && st.frames != [] && ds.Initialised?
    requires Mirrors(p, st, pre + env.vars + [], env.room)
    ensures Agree(p, st, ExecDecls(p, ds, fuel, st), C.ExecDecls(p, ds, fuel, st.source, env), pre, [])
    decreases fuel, ds, 0, 0
  {
    hide Mirrors, IntOf, FairProgram, Declared, FunctionName, Eval, C.Eval, FairExpr, CastInt;
    var m := C.Eval(p, ds.e, fuel, st.source, env);
    StillKeeps(p, ds.e, fuel, st.source, env);
    if m.Done? && m.effect.Gives? && env.room > 0 {
      var v := m.effect.v;
      EvalAgrees(p, ds.e, fuel, st, pre, env, []);
      var s := Eval(p, ds.e, fuel, st).st;
      SourceKept(p, ds.e, fuel, st);
      EvalAgrees(p, ds.e, fuel, s, pre, env, []);
      var t := Eval(p, ds.e, fuel, s).st;
      SourceKept(p, ds.e, fuel, s);
      SignOf(v);
      MirrorDeclare(p, t, pre + env.vars + [], env.room, ds.name, IntOf(v), Some(v));
      var cell := C.Cell(ds.name, Some(v));
      assert pre + env.vars + [] + [cell] == pre + (env.vars + [cell]) + [];
      var env' := C.Env(env.vars + [cell], env.room - 1);
      DeclsAgree(p, ds.rest, fuel, Declared(t, ds.name, Value(IntOf(v))).st, pre, env');
    }
  }

  // ----- Switches -----

  lemma {:induction false} ConstantAgrees(p: Program, e: Expr, fuel: nat, st: State)
    requires C.Constant(e).Some?
    ensures InRangeInt(C.Constant(e).value) && Eval(p, e, fuel, st) == Ok(Value(IntOf(C.Constant(e).value)), st)
    decreases e
  {
    hide IntOf, ApplyUnary, ApplyBinary, C.UnaryOf, C.BinaryOf, Literal;
    match e
    case Lit(v) => SignOf(v);
    case Unary(op, a) =>
      ConstantAgrees(p, a, fuel, st);
      UnaryAgrees(op, C.Constant(a).value, p.junk);
    case Binary(op, l, r) =>
      ConstantAgrees(p, r, fuel, st);
      ConstantAgrees(p, l, fuel, st);
      BinaryAgrees(op, C.Constant(l).value, C.Constant(r).value, p.junk);
  }

  lemma {:induction false} CaseAgrees(p: Program, v: int, ss: Stmts, fuel: nat, st: State)
    requires InRangeInt(v) && C.FromCase(ss, v).Some? && FairStmts(p, st.source, ss)
    ensures FindCase(p, IntOf(v), ss, fuel, st) == Found(C.FromCase(ss, v).value, st)
    ensures FairStmts(p, st.source, C.FromCase(ss, v).value)
    decreases ss
  {
    hide IntOf, Eval, C.Constant, FairStmt;
    if ss.Then? {
      if ss.s.Case? {
        var c := C.Constant(ss.s.value).value;
        ConstantAgrees(p, ss.s.value, fuel, st);
        SameInt(v, c);
        if c != v {
          CaseAgrees(p, v, ss.rest, fuel, st);
        }
      } else {
        CaseAgrees(p, v, ss.rest, fuel, st);
      }
    }
  }

  lemma {:induction false} DefaultAgrees(p: Program, source: nat, ss: Stmts)
    requires FairStmts(p, source, ss)
    ensures DefaultIn(ss) == C.FromDefault(ss) && FairStmts(p, source, DefaultIn(ss))
  {
    hide FairStmt;
    if ss.Then? && !ss.s.Default? {
      DefaultAgrees(p, source, ss.rest);
    }
  }

  lemma {:induction false} SwitchAgrees(p: Program, s: Stmt, fuel: nat, st: State, pre: seq<C.Cell>, env: C.Env)
    requires FairProgram(p) && s.Switch? && FairStmt(p, st.source, s) && st.frames != []
    requires Mirrors(p, st, pre + env.vars + [], env.room)
    ensures Agree(p, st, Exec(p, s, fuel, st), C.Exec(p, s, fuel, st.source, env), pre, [])
    decreases fuel, s, 2
  {
    hide Mirrors, IntOf, FairProgram, Popped, Eval, C.Eval, ExecSeq, C.ExecSeq, FindCase, C.FromCase, Kept,
         C.LabelsOnTop;
    var pushed := Push(st);
    MirrorPush(p, st, pre + env.vars + [], env.room);
    EvalAgrees(p, s.cond, fuel, pushed, pre, env, []);
    var m, r := C.Eval(p, s.cond, fuel, st.source, env), Eval(p, s.cond, fuel, pushed);
    if C.ExecSwitch(p, s.sub, m, fuel, st.source).Done? {
      var ss, v := s.sub.body, m.effect.v;
      SourceKept(p, s.cond, fuel, pushed);
      CaseAgrees(p, v, ss, fuel, r.st);
      DefaultAgrees(p, st.source, ss);
      var at := C.FromCase(ss, v).value;
      var from := if at.End? then DefaultIn(ss) else at;
      SeqAgrees(p, from, fuel, r.st, pre, m.env);
      var n, q := C.ExecSeq(p, from, fuel, st.source, m.env), ExecSeq(p, from, fuel, r.st);
      SeqKeeps(p, from, fuel, r.st);
      EvalKeeps(p, s.cond, fuel, pushed);
      QuietIsKept(pushed, r.st);
      KeptTrans(pushed, r.st, q.st);
      var n' := if n.effect.Breaks? then C.Done(C.Nothing, n.env) else n;
      var q' := if q.out == BreakMark then Ok(Out.Null, q.st) else q;
      LeaveAgrees(p, st, q', n', pre, env);
    }
  }

  // ----- Whole runs -----

  /**
   In a fair program, whatever C says that a statement does, the executor does: it ends in the same way,
   with the same value, and the variables hold the same integers.
   */
  lemma {:induction false} StatementsAgree(p: Program, s: Stmt, fuel: nat, st: State, env: C.Env)
    requires FairProgram(p) && FairStmt(p, st.source, s) && st.frames != [] && Mirrors(p, st, env.vars, env.room)
    requires C.Exec(p, s, fuel, st.source, env).Done?
    ensures var m, r := C.Exec(p, s, fuel, st.source, env), Exec(p, s, fuel, st);
            r.Ok? && SameEffect(r.out, m.effect) && r.st.source == st.source &&
            Mirrors(p, r.st, m.env.vars, m.env.room)
  {
    hide Exec, C.Exec, Mirrors, FairProgram, FairStmt, SameEffect;
    var m := C.Exec(p, s, fuel, st.source, env);
    assert [] + env.vars + [] == env.vars && [] + m.env.vars + [] == m.env.vars;
    ExecAgrees(p, s, fuel, st, [], env);
  }

  /** The same for expressions. */
  lemma {:induction false} ExpressionsAgree(p: Program, e: Expr, fuel: nat, st: State, env: C.Env)
    requires FairProgram(p) && FairExpr(p, st.source, e) && Mirrors(p, st, env.vars, env.room)
    requires C.Eval(p, e, fuel, st.source, env).Done?
    ensures var m, r := C.Eval(p, e, fuel, st.source, env), Eval(p, e, fuel, st);
            r.Ok? && SameEffect(r.out, m.effect) && r.st.source == st.source && r.st.frames == st.frames &&
            Mirrors(p, r.st, m.env.vars, m.env.room)
  {
    hide Eval, C.Eval, Mirrors, FairProgram, FairExpr, SameEffect;
    var m := C.Eval(p, e, fuel, st.source, env);
    assert [] + env.vars + [] == env.vars && [] + m.env.vars + [] == m.env.vars;
    EvalAgrees(p, e, fuel, st, [], env, []);
    SourceKept(p, e, fuel, st);
  }

  /** A fair program gives the number that C says its `main` returns. */
  lemma {:induction false} MainAgrees(p: Program, mainSource: Option<nat>, fuel: nat, mem: Mem, source: nat, room: nat)
    requires FairProgram(p) && MainOf(p, mainSource).Some?
    requires MemOk(mem) && 0 < mem.next && mem.next + room < ID_LIMIT
    requires var m := C.Exec(p, MainOf(p, mainSource).value.body, fuel, mainSource.value, C.Env([], room));
             m.Done? && m.effect.Gives? && MainOf(p, mainSource).value.source == mainSource.value
    ensures var m := C.Exec(p, MainOf(p, mainSource).value.body, fuel, mainSource.value, C.Env([], room));
            var r := RunMain(p, mainSource, fuel, State([], mem, source));
            r.Ok? && InRangeInt(m.effect.v) && r.out == Value(IntOf(m.effect.v))
  {
    hide Exec, C.Exec, FairStmt, Loose, FunctionName, IntOf, CastInt;
    var fn := MainOf(p, mainSource).value;
    var m := C.Exec(p, fn.body, fuel, mainSource.value, C.Env([], room));
    assert FairFunc(p, fn);
    var st := Push(State([], mem, source)).(source := mainSource.value);
    assert st.frames == [[]];
    NoVariables(p, st, room);
    StatementsAgree(p, fn.body, fuel, st, C.Env([], room));
    SignOf(m.effect.v);
  }

  lemma {:induction false} NoVariables(p: Program, st: State, room: nat)
    requires st.frames == [[]] && MemOk(st.mem) && 0 < st.mem.next && st.mem.next + room < ID_LIMIT
    ensures Mirrors(p, st, [], room)
  {
    assert Flat(st.frames, 0) == [] && Flat(st.frames, 1) == Flat(st.frames, 0) + st.frames[0];
  }
}
