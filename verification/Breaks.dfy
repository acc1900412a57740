/**
 Where the break marker goes, and which part of its body a switch runs.

 As in the source, a loop passes the marker on to its own caller instead of absorbing it.
 */
module Breaks {
  import opened Options
  import opened Numbers
  import opened Memory
  import opened Frames
  import opened PureExpressions
  import opened RefExec
  import opened Discipline

  // ----- Break scoping -----

  /** Called by that name in that file, a function of `m` runs, unless a variable has the name. */
  predicate CallsInto(p: Program, m: set<nat>, source: nat, name: string) {
    var g := NonStack(p, source, name);
    g.Some? && g.value.Function? && g.value.fid in m && g.value.fid in p.funcs
  }

  /** The statement contains, not enclosed in a switch within it, a `break` or a `return` of a call into `m`. */
  predicate Loose(p: Program, m: set<nat>, source: nat, s: Stmt) {
    match s
    case Compound(body) => LooseIn(p, m, source, body)
    case Return(e) => e.Call? && CallsInto(p, m, source, e.name)
    case If(_, a) => Loose(p, m, source, a)
    case IfElse(_, a, b) => Loose(p, m, source, a) || Loose(p, m, source, b)
    case For(init, _, _, body) => Loose(p, m, source, init) || Loose(p, m, source, body)
    case Case(_, sub) => Loose(p, m, source, sub)
    case Default(sub) => Loose(p, m, source, sub)
    case Break => true
    case _ => false
  }

  predicate LooseIn(p: Program, m: set<nat>, source: nat, ss: Stmts) {
    ss.Then? && (Loose(p, m, source, ss.s) || LooseIn(p, m, source, ss.rest))
  }

  /** `m` has every function whose body has a loose `break`, or a loose `return` of a call into `m`. */
  predicate Collects(p: Program, m: set<nat>) {
    forall fid :: fid in p.funcs && fid !in m ==> !Loose(p, m, p.funcs[fid].source, p.funcs[fid].body)
  }

  predicate Marks(r: Res) {
    r.Ok? && r.out == BreakMark
  }

  /** No call with at most that fuel evaluates to the marker, but for calls into `m`. */
  ghost predicate CallsAbsorb(p: Program, m: set<nat>, fuel: nat) {
    forall f, args, g: nat, st :: g <= fuel && Marks(Eval(p, Call(f, args), g, st)) ==> CallsInto(p, m, st.source, f)
  }

  lemma {:induction false} ExprMarks(p: Program, e: Expr, fuel: nat, st: State)
    requires Marks(Eval(p, e, fuel, st))
    ensures e.Call?
  {
    hide Lookup, Callee, ReadInt, WriteInt, ApplyUnary, ApplyBinary, CallFn, Literal;
  }

  /** What runs after `st` runs in the same file. */
  lemma {:induction false} SameFile(p: Program, e: Expr, s: Stmt, fuel: nat, st: State)
    ensures Eval(p, e, fuel, st).Ok? ==> Eval(p, e, fuel, st).st.source == st.source
    ensures Exec(p, s, fuel, st).Ok? ==> Exec(p, s, fuel, st).st.source == st.source
  {
    hide Eval, Exec;
    if Eval(p, e, fuel, st).Ok? {
      EvalKeeps(p, e, fuel, st);
    }
    if Exec(p, s, fuel, st).Ok? {
      ExecKeeps(p, s, fuel, st);
    }
  }

  /** The marker comes from a loose break, or from a call into `m` that is returned. */
  lemma {:induction false} ExecMarks(p: Program, m: set<nat>, s: Stmt, fuel: nat, st: State)
    requires CallsAbsorb(p, m, fuel) && Marks(Exec(p, s, fuel, st))
    ensures Loose(p, m, st.source, s)
    decreases fuel, s, 3
  {
    hide Eval, Pop, Declared, CallsInto, CallsAbsorb;
    match s
    case Compound(body) => SeqMarks(p, m, body, fuel, Push(st));
    case DeclStmt(ds) => DeclsMark(p, ds, fuel, st);
    case Return(e) => ReturnMarks(p, m, e, fuel, st);
    case If(_, _) => BranchMarks(p, m, s, fuel, st);
    case IfElse(_, _, _) => BranchMarks(p, m, s, fuel, st);
    case For(_, _, _, _) => ForMarks(p, m, s, fuel, Push(st));
    case Switch(c, sub) =>
      if !Marks(Eval(p, c, fuel, Push(st))) {
        SwitchAbsorbs(p, sub, Eval(p, c, fuel, Push(st)), fuel);
      }
    case Case(_, sub) => ExecMarks(p, m, sub, fuel, st);
    case Default(sub) => ExecMarks(p, m, sub, fuel, st);
    case _ =>
  }

  lemma {:induction false} BranchMarks(p: Program, m: set<nat>, s: Stmt, fuel: nat, st: State)
    requires (s.If? || s.IfElse?) && CallsAbsorb(p, m, fuel) && Marks(Exec(p, s, fuel, st))
    ensures Loose(p, m, st.source, s)
    decreases fuel, s, 0
  {
    hide Eval, CallsAbsorb;
    SameFile(p, s.cond, s, fuel, st);
    match Tested(Eval(p, s.cond, fuel, st))
    case Zero(t) => if s.IfElse? { ExecMarks(p, m, s.elseBranch, fuel, t); }
    case NonZero(t) => ExecMarks(p, m, s.thenBranch, fuel, t);
    case Failed(_) =>
  }

  lemma {:induction false} ReturnMarks(p: Program, m: set<nat>, e: Expr, fuel: nat, st: State)
    requires CallsAbsorb(p, m, fuel) && Marks(Eval(p, e, fuel, st))
    ensures e.Call? && CallsInto(p, m, st.source, e.name)
  {
    hide CallsInto;
    ExprMarks(p, e, fuel, st);
    assert Marks(Eval(p, Call(e.name, e.args), fuel, st));
  }

  lemma {:induction false} SeqMarks(p: Program, m: set<nat>, ss: Stmts, fuel: nat, st: State)
    requires CallsAbsorb(p, m, fuel) && Marks(ExecSeq(p, ss, fuel, st))
    ensures LooseIn(p, m, st.source, ss)
    decreases fuel, ss, 0
  {
    hide CallsAbsorb;
    SameFile(p, Lit(0), ss.s, fuel, st);
    var r := Exec(p, ss.s, fuel, st);
    if r.out == Out.Null {
      SeqMarks(p, m, ss.rest, fuel, r.st);
    } else {
      ExecMarks(p, m, ss.s, fuel, st);
    }
  }

  lemma {:induction false} DeclsMark(p: Program, ds: Decls, fuel: nat, st: State)
    ensures !Marks(ExecDecls(p, ds, fuel, st))
    decreases ds
  {
    hide Eval, Created, EncodeNum, AddBinding;
    match ds
    case NoDecls =>
    case Uninitialised(x, rest) =>
      var r := Declared(st, x, Value(UninitInt(p.junk)));
      if r.Ok? {
        DeclsMark(p, rest, fuel, r.st);
      }
    case Initialised(x, e, rest) =>
      var first := Eval(p, e, fuel, st);
      if first.Ok? {
        var second := Eval(p, e, fuel, first.st);
        var r := Initial(x, first.out, second);
        if r.Ok? {
          DeclsMark(p, rest, fuel, r.st);
        }
      }
  }

  lemma {:induction false} ForMarks(p: Program, m: set<nat>, s: Stmt, fuel: nat, st: State)
    requires CallsAbsorb(p, m, fuel) && s.For? && Marks(ExecFor(p, s, fuel, st))
    ensures Loose(p, m, st.source, s)
    decreases fuel, s, 2
  {
    hide CallsAbsorb;
    SameFile(p, Lit(0), s.init, fuel, st);
    var r := Exec(p, s.init, fuel, st);
    if r.out == Out.Null {
      LoopMarks(p, m, s, fuel, r.st);
    } else {
      ExecMarks(p, m, s.init, fuel, st);
    }
  }

  lemma {:induction false} LoopMarks(p: Program, m: set<nat>, s: Stmt, fuel: nat, st: State)
    requires CallsAbsorb(p, m, fuel) && s.For? && Marks(ExecLoop(p, s, fuel, st))
    ensures Loose(p, m, st.source, s)
    decreases fuel, s, 1
  {
    hide Eval, CallsAbsorb;
    var t := Tested(Eval(p, s.cond, fuel, st)).st;
    SameFile(p, s.cond, s.loop, fuel, st);
    SameFile(p, s.cond, s.loop, fuel, t);
    var r := ExecRound(p, s, fuel, t);
    if r.out == Out.Null {
      SameFile(p, s.inc, s.loop, fuel, Exec(p, s.loop, fuel, t).st);
      FewerCalls(p, m, fuel);
      LoopMarks(p, m, s, fuel - 1, r.st);
    } else {
      ExecMarks(p, m, s.loop, fuel, t);
    }
  }

  lemma {:induction false} FewerCalls(p: Program, m: set<nat>, fuel: nat)
    requires CallsAbsorb(p, m, fuel)
    ensures fuel > 0 ==> CallsAbsorb(p, m, fuel - 1)
  {
    hide Eval, CallsInto;
  }

  /** A switch never gives the marker to its caller, whatever is in its body. */
  lemma {:induction false} SwitchAbsorbs(p: Program, sub: Stmt, r: Res, fuel: nat)
    requires !Marks(r)
    ensures !Marks(ExecSwitch(p, sub, r, fuel))
  {
    hide FindCase, ExecSeq, Pop;
  }

  lemma {:induction false} CollectedCalls(p: Program, m: set<nat>, fuel: nat)
    requires Collects(p, m)
    ensures CallsAbsorb(p, m, fuel)
  {
    hide Loose, Scan;
    if fuel > 0 {
      CollectedCalls(p, m, fuel - 1);
    }
    forall f, args, g: nat, st | g <= fuel && Marks(Eval(p, Call(f, args), g, st))
      ensures CallsInto(p, m, st.source, f)
    {
      var fid := NonStack(p, st.source, f).value.fid;
      if fid !in m {
        QuietCall(p, m, p.funcs[fid], args, g, st);
      }
    }
  }

  lemma {:induction false} QuietCall(p: Program, m: set<nat>, fn: Func, args: Exprs, fuel: nat, st: State)
    requires fuel > 0 && CallsAbsorb(p, m, fuel - 1) && !Loose(p, m, fn.source, fn.body)
    ensures !Marks(CallFn(p, fn, args, fuel, st))
  {
    hide Loose, Pop;
    var r := EvalArgs(p, fn.params, 0, args, fuel, Push(st));
    if r.Ok? {
      var entered := r.st.(source := fn.source);
      if Marks(Exec(p, fn.body, fuel - 1, entered)) {
        ExecMarks(p, m, fn.body, fuel - 1, entered);
      }
    }
  }

  /**
   Where `m` collects the functions with loose breaks, through any chain of returns, a statement gives the
   marker to its caller only if it contains a loose break or return itself, and an expression only if it is
   a call into `m`.
   */
  lemma {:induction false} BreakScoping(p: Program, m: set<nat>, s: Stmt, e: Expr, fuel: nat, st: State)
    requires Collects(p, m)
    ensures Scoped(p, m, s, fuel, st)
    ensures Marks(Eval(p, e, fuel, st)) ==> e.Call? && CallsInto(p, m, st.source, e.name)
  {
    hide Loose, CallsInto, CallsAbsorb, Eval, Exec;
    CollectedCalls(p, m, fuel);
    if Marks(Eval(p, e, fuel, st)) {
      ReturnMarks(p, m, e, fuel, st);
    }
    if Marks(Exec(p, s, fuel, st)) {
      ExecMarks(p, m, s, fuel, st);
    }
  }

  /** The statement gives the marker to its caller only if it contains a loose break, or such a return. */
  predicate Scoped(p: Program, m: set<nat>, s: Stmt, fuel: nat, st: State) {
    Marks(Exec(p, s, fuel, st)) ==> Loose(p, m, st.source, s)
  }

  /** In every program, whatever its functions do: the marker comes from a loose `break` or `return` of a call. */
  lemma {:induction false} EveryBreakScoped(p: Program, s: Stmt, fuel: nat, st: State)
    ensures Scoped(p, p.funcs.Keys, s, fuel, st)
  {
    hide Loose, CallsInto;
    BreakScoping(p, p.funcs.Keys, s, Lit(0), fuel, st);
  }

  /** Breaks alone, without returns, are scoped to statements exactly when no call evaluates to the marker. */
  lemma {:induction false} ScopingNeedsCalls(p: Program, fuel: nat)
    ensures CallsAbsorb(p, {}, fuel) <==>
            forall s, g: nat, st :: g <= fuel ==> Scoped(p, {}, s, g, st)
  {
    if CallsAbsorb(p, {}, fuel) {
      forall s, g: nat, st | g <= fuel
        ensures Scoped(p, {}, s, g, st)
      {
        if Marks(Exec(p, s, g, st)) {
          ExecMarks(p, {}, s, g, st);
        }
      }
    } else {
      var f, args, g: nat, st :| g <= fuel && Marks(Eval(p, Call(f, args), g, st));
      assert Exec(p, Return(Call(f, args)), g, st) == Eval(p, Call(f, args), g, st);
      assert !Scoped(p, {}, Return(Call(f, args)), g, st);
    }
  }

  const LEAKY := Program(map[0 := map["f" := Function(3)]], map[],
                         map[3 := Func(0, [], For(NullStmt, Lit(1), Lit(0), Break))], 0)

  lemma {:induction false} LeakyCalls()
    ensures var s := Return(Call("f", NoArgs)); !Loose(LEAKY, {}, 0, s) && Loose(LEAKY, {3}, 0, s)
    ensures Collects(LEAKY, {3})
  {
  }

  /** A function whose loop breaks hands the marker to its caller: `return f();` then acts as a `break`. */
  lemma {:induction false} LeakThroughReturn(m: Mem)
    ensures var s := Return(Call("f", NoArgs));
            !Loose(LEAKY, {}, 0, s) && Collects(LEAKY, {3}) && Loose(LEAKY, {3}, 0, s) &&
            Exec(LEAKY, s, 1, State([], m, 0)) == Ok(BreakMark, State([], m, 0))
  {
    hide Loose, CallsInto, Collects, ExecFor, Pop;
    LeakyCalls();
    var st := State([], m, 0);
    var fn := LEAKY.funcs[3];
    assert Lookup(LEAKY, st, "f") == Some(Function(3));
    LeakyBody(Push(st));
    PushPop(st);
    assert EvalArgs(LEAKY, fn.params, 0, NoArgs, 1, Push(st)) == Ok(Out.Null, Push(st));
    assert CallFn(LEAKY, fn, NoArgs, 1, st) == Ok(BreakMark, st);
    assert Exec(LEAKY, Return(Call("f", NoArgs)), 1, st) == Eval(LEAKY, Call("f", NoArgs), 1, st);
  }

  lemma {:induction false} PushPop(st: State)
    ensures Push(st).frames != [] && Pop(Push(st)) == st
  {
  }

  lemma {:induction false} LeakyBody(st: State)
    ensures Exec(LEAKY, LEAKY.funcs[3].body, 0, st) == Ok(BreakMark, st)
  {
    hide Pop, ExecLoop;
    LoopLeaks(Push(st));
    PushPop(st);
    assert Exec(LEAKY, NullStmt, 0, Push(st)) == Ok(Out.Null, Push(st));
  }

  lemma {:induction false} LoopLeaks(st: State)
    ensures ExecLoop(LEAKY, LEAKY.funcs[3].body, 0, st) == Ok(BreakMark, st)
  {
    var s := LEAKY.funcs[3].body;
    assert Eval(LEAKY, Lit(1), 0, st).out.n.val == 1;
    assert Exec(LEAKY, Break, 0, st) == Ok(BreakMark, st);
    assert ExecRound(LEAKY, s, 0, st) == Ok(BreakMark, st);
  }

  // ----- Switch -----

  function Length(ss: Stmts): nat {
    if ss.End? then 0 else 1 + Length(ss.rest)
  }

  function Nth(ss: Stmts, i: nat): Stmt
    requires i < Length(ss)
  {
    if i == 0 then ss.s else Nth(ss.rest, i - 1)
  }

  function Drop(ss: Stmts, n: nat): Stmts
    requires n <= Length(ss)
  {
    if n == 0 then ss else Drop(ss.rest, n - 1)
  }

  /** All case labels among the children are constant expressions with a value. */
  predicate ConstantCases(p: Program, ss: Stmts) {
    ss.Then? ==>
      (ss.s.Case? ==> Closed(ss.s.value) && ConstVal(p, ss.s.value).Some?) && ConstantCases(p, ss.rest)
  }

  /** The child is a case whose label has the value `v`, which is a 32-bit pattern. */
  predicate Matches(p: Program, s: Stmt, v: nat) {
    s.Case? && Closed(s.value) && ConstVal(p, s.value).Some? && ConstVal(p, s.value).value.val == v
  }

  /** `k` is the first child that is a matching case; or, without one, the first default; or the end. */
  predicate Target(p: Program, ss: Stmts, v: nat, k: nat) {
    k <= Length(ss) &&
    if exists i :: 0 <= i < Length(ss) && Matches(p, Nth(ss, i), v)
    then k < Length(ss) && Matches(p, Nth(ss, k), v) && forall i :: 0 <= i < k ==> !Matches(p, Nth(ss, i), v)
    else (k < Length(ss) ==> Nth(ss, k).Default?) && forall i :: 0 <= i < k ==> !Nth(ss, i).Default?
  }

  function FirstMatch(p: Program, ss: Stmts, v: nat): (k: nat)
    ensures k <= Length(ss) && (k < Length(ss) ==> Matches(p, Nth(ss, k), v))
    ensures forall i :: 0 <= i < k ==> !Matches(p, Nth(ss, i), v)
    decreases ss
  {
    if ss.End? || Matches(p, ss.s, v) then 0 else 1 + FirstMatch(p, ss.rest, v)
  }

  function FirstDefault(ss: Stmts): (k: nat)
    ensures k <= Length(ss) && (k < Length(ss) ==> Nth(ss, k).Default?)
    ensures forall i :: 0 <= i < k ==> !Nth(ss, i).Default?
  {
    if ss.End? || ss.s.Default? then 0 else 1 + FirstDefault(ss.rest)
  }

  lemma {:induction false} FindCaseIsFirstMatch(p: Program, v: IntNum, ss: Stmts, fuel: nat, st: State)
    requires ConstantCases(p, ss)
    ensures FindCase(p, v, ss, fuel, st) == Found(Drop(ss, FirstMatch(p, ss, v.val)), st)
    decreases ss
  {
    hide Eval, Closed, ConstVal;
    if ss.Then? {
      if ss.s.Case? {
        ClosedEval(p, ss.s.value, fuel, st);
      }
      if !Matches(p, ss.s, v.val) {
        FindCaseIsFirstMatch(p, v, ss.rest, fuel, st);
      }
    }
  }

  lemma {:induction false} DefaultInIsFirst(ss: Stmts)
    ensures DefaultIn(ss) == Drop(ss, FirstDefault(ss))
  {
    if ss.Then? && !ss.s.Default? {
      DefaultInIsFirst(ss.rest);
    }
  }

  lemma {:induction false} DropEnd(ss: Stmts, k: nat)
    requires k <= Length(ss)
    ensures Drop(ss, k).End? <==> k == Length(ss)
  {
    if k > 0 {
      DropEnd(ss.rest, k - 1);
    }
  }

  /**
   A switch over constant labels runs its body from the target child on, in the frame it pushed, and
   absorbs a break; the value compared is the bit pattern, whatever its status.
   */
  lemma {:induction false} SwitchRunsFromTarget(p: Program, c: Expr, ss: Stmts, k: nat, fuel: nat, st: State)
    requires ConstantCases(p, ss)
    requires Eval(p, c, fuel, Push(st)).Ok? && Eval(p, c, fuel, Push(st)).out.Value?
    requires Target(p, ss, Eval(p, c, fuel, Push(st)).out.n.val, k)
    ensures Exec(p, Switch(c, Compound(ss)), fuel, st) ==
            SwitchRes(ExecSeq(p, Drop(ss, k), fuel, Eval(p, c, fuel, Push(st)).st))
  {
    hide Eval, ExecSeq, Popped, Closed, ConstVal;
    var r := Eval(p, c, fuel, Push(st));
    FindCaseIsFirstMatch(p, r.out.n, ss, fuel, r.st);
    DefaultInIsFirst(ss);
    var m, d := FirstMatch(p, ss, r.out.n.val), FirstDefault(ss);
    DropEnd(ss, m);
    if m < Length(ss) {
      assert Matches(p, Nth(ss, m), r.out.n.val);
      assert k == m;
    } else {
      assert k == d;
    }
  }

  /** A label right after another one is not seen: `switch (2) { case 1: case 2: return v; }` runs nothing. */
  lemma {:induction false} SecondLabelIsMissed(p: Program, v: int, fuel: nat, st: State)
    ensures Exec(p, Switch(Lit(2), Compound(Then(Case(Lit(1), Case(Lit(2), Return(Lit(v)))), End))), fuel, st) ==
            Ok(Out.Null, st)
  {
    hide Pop;
    var ss := Then(Case(Lit(1), Case(Lit(2), Return(Lit(v)))), End);
    var pushed := Push(st);
    assert ConstantCases(p, ss) by { assert ConstantCases(p, End); }
    assert Eval(p, Lit(2), fuel, pushed).out.n.val == 2;
    assert Nth(ss, 0) == ss.s && Length(ss) == 1 && !Matches(p, ss.s, 2);
    assert Target(p, ss, 2, 1);
    SwitchRunsFromTarget(p, Lit(2), ss, 1, fuel, st);
    assert Drop(ss, 1) == End;
    PushPop(st);
  }

  function Append(a: Stmts, b: Stmts): Stmts {
    if a.End? then b else Then(a.s, Append(a.rest, b))
  }

  /** Statements fall through to the next ones exactly when they return nothing. */
  lemma {:induction false} FallThrough(p: Program, a: Stmts, b: Stmts, fuel: nat, st: State)
    ensures var r := ExecSeq(p, a, fuel, st);
            ExecSeq(p, Append(a, b), fuel, st) ==
            if r.Ok? && r.out == Out.Null then ExecSeq(p, b, fuel, r.st) else r
    decreases a
  {
    hide Exec;
    if a.Then? {
      var r := Exec(p, a.s, fuel, st);
      if r.Ok? && r.out == Out.Null {
        FallThrough(p, a.rest, b, fuel, r.st);
      }
    }
  }

  /** What follows a break or a return in the body is not run. */
  lemma {:induction false} NothingAfterBreak(p: Program, a: Stmts, s: Stmt, b: Stmts, fuel: nat, st: State)
    requires s.Break? || s.Return?
    requires ExecSeq(p, a, fuel, st).Ok? && ExecSeq(p, a, fuel, st).out == Out.Null
    requires s.Return? ==> Eval(p, s.e, fuel, ExecSeq(p, a, fuel, st).st).Ok? ==>
             Eval(p, s.e, fuel, ExecSeq(p, a, fuel, st).st).out != Out.Null
    ensures ExecSeq(p, Append(a, Then(s, b)), fuel, st) == Exec(p, s, fuel, ExecSeq(p, a, fuel, st).st)
  {
    hide Eval;
    FallThrough(p, a, Then(s, b), fuel, st);
  }
}
