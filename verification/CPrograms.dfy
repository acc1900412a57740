/**
 What the executor computes for particular programs, whatever the state they are run in: read off the
 meaning of the program in C.
 */
module CPrograms {
  import opened Options
  import opened Arithmetic
  import opened Memory
  import opened RefExec
  import opened EvalOrder
  import opened CVariables
  import opened AgreesWithC
  import Breaks
  import C = CSemantics

  // ----- A loop -----

  /** `for (x = a; x < b; x += 1) ;` */
  function CountTo(x: string, a: int, b: int): Stmt {
    For(ExprStmt(Set(Plain, x, Lit(a))), Binary(Rel(LT), Var(x), Lit(b)), Set(AddAssign, x, Lit(1)), NullStmt)
  }

  function Holding(env: C.Env, i: nat, v: int): C.Env
    requires i < |env.vars|
  {
    env.(vars := env.vars[i := env.vars[i].(val := Some(v))])
  }

  lemma {:induction false} SameLength(env: C.Env, i: nat, v: int)
    requires i < |env.vars|
    ensures var e := Holding(env, i, v); |e.vars| == |env.vars| && e.vars[..|env.vars|] == e.vars
  {
  }

  lemma {:induction false} HoldingAgain(env: C.Env, x: string, i: nat, v: int, w: int)
    requires C.Find(env.vars, x) == Some(i)
    ensures var e := Holding(env, i, v); C.Find(e.vars, x) == Some(i) && Holding(e, i, w) == Holding(env, i, w)
  {
    hide C.Find;
    var vars := Holding(env, i, v).vars;
    assert vars[i].name == x;
    assert forall j :: i < j < |vars| ==> vars[j].name != x;
  }

  /** The rounds from `x == k` on. */
  lemma {:induction false} Counting(
      p: Program, x: string, a: int, b: int, k: int, fuel: nat, source: nat, env: C.Env, i: nat)
    requires C.Find(env.vars, x) == Some(i) && env.vars[i].val == Some(k)
    requires InRangeInt(k) && InRangeInt(b) && k <= b && b - k <= fuel
    ensures C.ExecLoop(p, CountTo(x, a, b), fuel, source, env) == C.Done(C.Nothing, Holding(env, i, b))
    decreases fuel
  {
    hide C.Find;
    var s := CountTo(x, a, b);
    assert C.Eval(p, Lit(b), fuel, source, env) == C.Done(C.Gives(b), env);
    assert C.Eval(p, Var(x), fuel, source, env) == C.Done(C.Gives(k), env);
    assert C.Eval(p, s.cond, fuel, source, env) == C.Done(C.Gives(if k < b then 1 else 0), env);
    if k < b {
      var next := Holding(env, i, k + 1);
      HoldingAgain(env, x, i, k + 1, b);
      assert C.Eval(p, Lit(1), fuel, source, env) == C.Done(C.Gives(1), env);
      assert C.Eval(p, s.inc, fuel, source, env) == C.Done(C.Gives(k + 1), next);
      Counting(p, x, a, b, k + 1, fuel - 1, source, next, i);
    } else {
      assert Holding(env, i, b) == env;
    }
  }

  lemma {:induction false} CountMeans(
      p: Program, x: string, a: int, b: int, fuel: nat, source: nat, env: C.Env, i: nat)
    requires C.Find(env.vars, x) == Some(i) && InRangeInt(a) && InRangeInt(b) && b - a <= fuel
    ensures C.Exec(p, CountTo(x, a, b), fuel, source, env) ==
            C.Done(C.Nothing, Holding(env, i, if a < b then b else a))
  {
    hide C.Find, C.ExecLoop, Holding, C.Eval;
    var s, start := CountTo(x, a, b), Holding(env, i, a);
    HoldingAgain(env, x, i, a, if a < b then b else a);
    Starts(p, x, a, b, fuel, source, env, i);
    if a < b {
      Counting(p, x, a, b, a, fuel, source, start, i);
    } else {
      StopsAtOnce(p, x, a, b, fuel, source, start, i);
    }
    SameLength(env, i, if a < b then b else a);
  }

  lemma {:induction false} Starts(
      p: Program, x: string, a: int, b: int, fuel: nat, source: nat, env: C.Env, i: nat)
    requires C.Find(env.vars, x) == Some(i) && InRangeInt(a)
    ensures var start := Holding(env, i, a);
            C.Exec(p, CountTo(x, a, b).init, fuel, source, env) == C.Done(C.Nothing, start) &&
            |start.vars| == |env.vars| && start.vars[i].val == Some(a)
  {
    hide C.Find;
    assert C.Eval(p, Lit(a), fuel, source, env) == C.Done(C.Gives(a), env);
  }

  lemma {:induction false} StopsAtOnce(
      p: Program, x: string, a: int, b: int, fuel: nat, source: nat, env: C.Env, i: nat)
    requires C.Find(env.vars, x) == Some(i) && env.vars[i].val == Some(a) && InRangeInt(b) && b <= a
    ensures C.ExecLoop(p, CountTo(x, a, b), fuel, source, env) == C.Done(C.Nothing, env)
  {
    hide C.Find;
    assert C.Eval(p, Lit(b), fuel, source, env) == C.Done(C.Gives(b), env);
    assert C.Eval(p, Var(x), fuel, source, env) == C.Done(C.Gives(a), env);
  }

  lemma {:induction false} CountIsFair(p: Program, source: nat, x: string, a: int, b: int)
    ensures FairStmt(p, source, CountTo(x, a, b))
  {
    hide NonStack, Callee;
    var s := CountTo(x, a, b);
    assert FairExpr(p, source, Var(x)) && FairExpr(p, source, Lit(a)) && FairExpr(p, source, Lit(b));
    assert FairExpr(p, source, Lit(1)) && FairExpr(p, source, s.cond) && FairExpr(p, source, s.inc);
    assert FairExpr(p, source, s.init.e) && FairStmt(p, source, s.init);
    assert FairStmt(p, source, NullStmt) && !Breaks.Loose(p, {}, source, NullStmt);
  }

  /** The loop ends with the greater one of its bounds in the variable, and all other variables as they were. */
  lemma {:induction false} LoopEndsAtMaximum(
      p: Program, x: string, a: int, b: int, fuel: nat, st: State, env: C.Env, i: nat)
    requires FairProgram(p) && Mirrors(p, st, env.vars, env.room) && st.frames != []
    requires C.Find(env.vars, x) == Some(i) && InRangeInt(a) && InRangeInt(b) && b - a <= fuel
    ensures var r, max := Exec(p, CountTo(x, a, b), fuel, st), if a < b then b else a;
            r.Ok? && r.out == Out.Null && Mirrors(p, r.st, Holding(env, i, max).vars, env.room) &&
            ReadVar(r.st, Lookup(p, r.st, x)) == Ok(Value(IntOf(max)), r.st)
  {
    hide Exec, C.Exec, Mirrors, FairProgram, C.Find, Lookup, IntOf, ReadInt;
    var max := if a < b then b else a;
    CountMeans(p, x, a, b, fuel, st.source, env, i);
    CountIsFair(p, st.source, x, a, b);
    StatementsAgree(p, CountTo(x, a, b), fuel, st, env);
    var t, end := Exec(p, CountTo(x, a, b), fuel, st).st, Holding(env, i, max);
    HoldingAgain(env, x, i, max, max);
    assert [] + end.vars + [] == end.vars;
    OwnVariable(p, t, [], end, [], x, i);
  }

  // ----- A recursive function -----

  function Factorial(n: nat): (f: nat)
    ensures f > 0
  {
    if n == 0 then 1 else n * Factorial(n - 1)
  }

  /** `if (n <= 1) return 1; else return n * fact(n - 1);` */
  const FACT_BODY := IfElse(Binary(Rel(LE), Var("n"), Lit(1)), Return(Lit(1)),
                            Return(Binary(Arith(Mul), Var("n"), Call("fact", Arg(MINUS_ONE, NoArgs)))))

  const MINUS_ONE := Binary(Arith(Sub), Var("n"), Lit(1))

  /** In that file `fact` is the function with that body and the parameter `n`. */
  predicate HasFactorial(p: Program, source: nat, fid: nat) {
    && NonStack(p, source, "fact") == Some(Function(fid)) && fid in p.funcs
    && p.funcs[fid] == Func(source, ["n"], FACT_BODY)
  }

  lemma {:induction false} FactorialFits(n: nat)
    requires n <= 12
    ensures Factorial(n) <= 479001600
  {
    assert Factorial(4) == 24;
    assert Factorial(8) == 8 * (7 * (6 * (5 * Factorial(4))));
    assert Factorial(12) == 12 * (11 * (10 * (9 * Factorial(8))));
    FactorialGrows(n, 12);
  }

  lemma {:induction false} FactorialGrows(n: nat, m: nat)
    requires n <= m
    ensures Factorial(n) <= Factorial(m)
    decreases m
  {
    if n < m {
      FactorialGrows(n, m - 1);
      Nonneg(m - 1, Factorial(m - 1));
      assert Factorial(m) == (m - 1) * Factorial(m - 1) + Factorial(m - 1);
    }
  }

  /** The variables that the body makes, in all its calls. */
  function Depth(n: nat): nat {
    if n <= 1 then 0 else n - 1
  }

  lemma {:induction false} BodyMeans(p: Program, source: nat, fid: nat, n: nat, fuel: nat, room: nat)
    requires HasFactorial(p, source, fid) && n <= 12 && Depth(n) <= fuel && Depth(n) <= room
    ensures var own := [C.Cell("n", Some(n))];
            C.Exec(p, FACT_BODY, fuel, source, C.Env(own, room)) ==
            C.Done(C.Gives(Factorial(n)), C.Env(own, room - Depth(n)))
    decreases n, 0
  {
    hide NonStack;
    var own := [C.Cell("n", Some(n))];
    var env := C.Env(own, room);
    assert C.Find(own, "n") == Some(0);
    assert C.Eval(p, Lit(1), fuel, source, env) == C.Done(C.Gives(1), env);
    assert C.Eval(p, Var("n"), fuel, source, env) == C.Done(C.Gives(n), env);
    if n <= 1 {
      assert Factorial(n) == 1 by { assert Factorial(0) == 1; }
      assert C.Eval(p, FACT_BODY.cond, fuel, source, env) == C.Done(C.Gives(1), env);
    } else {
      assert C.Eval(p, FACT_BODY.cond, fuel, source, env) == C.Done(C.Gives(0), env);
      assert C.Eval(p, MINUS_ONE, fuel, source, env) == C.Done(C.Gives(n - 1), env);
      CallMeans(p, source, fid, MINUS_ONE, n - 1, fuel, env);
      var rest := C.Env(own, room - Depth(n));
      assert C.Eval(p, Var("n"), fuel, source, rest) == C.Done(C.Gives(n), rest);
      FactorialFits(n);
      assert C.Eval(p, FACT_BODY.elseBranch.e, fuel, source, env) == C.Done(C.Gives(Factorial(n)), rest);
    }
  }

  /** A call whose argument has the value `n`, and leaves the variables as they are. */
  lemma {:induction false} CallMeans(p: Program, source: nat, fid: nat, e: Expr, n: nat, fuel: nat, env: C.Env)
    requires HasFactorial(p, source, fid) && n <= 12 && Depth(n) + 1 <= fuel && Depth(n) + 1 <= env.room
    requires C.Find(env.vars, "fact").None? && C.Eval(p, e, fuel, source, env) == C.Done(C.Gives(n), env)
    ensures C.Eval(p, Call("fact", Arg(e, NoArgs)), fuel, source, env) ==
            C.Done(C.Gives(Factorial(n)), env.(room := env.room - Depth(n) - 1))
    decreases n, 1
  {
    hide NonStack, C.Find;
    var fn, args, less := p.funcs[fid], Arg(e, NoArgs), env.(room := env.room - 1);
    assert C.EvalArgs(p, NoArgs, fuel, source, less) == C.Vals([], less);
    assert C.EvalArgs(p, args, fuel, source, env) == C.Vals([n] + [], less);
    assert [n] + [] == [n];
    var own := C.Parameters(fn.params, [n]);
    assert own == [C.Cell("n", Some(n))];
    BodyMeans(p, source, fid, n, fuel - 1, less.room);
    assert C.Count(args) == 1;
    assert C.CallOf(p, fn, args, fuel, source, env) ==
           C.Done(C.Gives(Factorial(n)), env.(room := env.room - Depth(n) - 1));
  }

  /** In a fair program with that function, `fact(n)` is n!, for every n whose factorial is an `int`. */
  lemma {:induction false} FactIsFactorial(p: Program, fid: nat, n: nat, fuel: nat, st: State, env: C.Env)
    requires FairProgram(p) && HasFactorial(p, st.source, fid) && Mirrors(p, st, env.vars, env.room)
    requires n <= 12 && n + 1 <= fuel && n + 1 <= env.room
    ensures var r := Eval(p, Call("fact", Arg(Lit(n), NoArgs)), fuel, st);
            r.Ok? && r.out == Value(IntOf(Factorial(n))) && r.st.frames == st.frames &&
            Mirrors(p, r.st, env.vars, env.room - Depth(n) - 1)
  {
    hide Eval, C.Eval, FairProgram, IntOf, NonStack, C.Find, Mirrors;
    var e := Call("fact", Arg(Lit(n), NoArgs));
    NoVariableIsFact(p, fid, st, env);
    LitMeans(p, n, fuel, st.source, env);
    CallMeans(p, st.source, fid, Lit(n), n, fuel, env);
    assert FairExpr(p, st.source, Lit(n)) && FairArgs(p, st.source, ["n"], 1, NoArgs);
    ExpressionsAgree(p, e, fuel, st, env);
  }

  lemma {:induction false} LitMeans(p: Program, n: nat, fuel: nat, source: nat, env: C.Env)
    requires n <= 12
    ensures C.Eval(p, Lit(n), fuel, source, env) == C.Done(C.Gives(n), env)
  {
  }

  lemma {:induction false} NoVariableIsFact(p: Program, fid: nat, st: State, env: C.Env)
    requires HasFactorial(p, st.source, fid) && Mirrors(p, st, env.vars, env.room)
    ensures C.Find(env.vars, "fact").None?
  {
    hide C.Find;
    NameOfFunction(p, st, env.vars, env.room, "fact");
    NameOfVariable(p, st, env.vars, env.room, "fact");
  }

  /** A program with that function and `main() { return fact(k); }`. */
  function FactProgram(k: nat): Program {
    Program(map[0 := map["fact" := Function(0), "main" := Function(1)]], map["main" := 0],
            map[0 := Func(0, ["n"], FACT_BODY), 1 := Func(0, [], MainBody(k))], 0)
  }

  function MainBody(k: nat): Stmt {
    Compound(Then(Return(Call("fact", Arg(Lit(k), NoArgs))), End))
  }

  lemma {:induction false} FactIsFair(p: Program)
    requires HasFactorial(p, 0, 0) && !FunctionName(p, "n")
    ensures FairFunc(p, p.funcs[0])
  {
    hide FunctionName, NonStack;
    assert FairExpr(p, 0, Lit(1)) && FairExpr(p, 0, Var("n")) && FairExpr(p, 0, MINUS_ONE);
    assert FairArgs(p, 0, ["n"], 1, NoArgs) && FairArgs(p, 0, ["n"], 0, Arg(MINUS_ONE, NoArgs));
    assert FairExpr(p, 0, FACT_BODY.elseBranch.e) && FairExpr(p, 0, FACT_BODY.cond);
    assert FairStmt(p, 0, FACT_BODY.thenBranch) && FairStmt(p, 0, FACT_BODY.elseBranch);
    assert !Breaks.Loose(p, {}, 0, FACT_BODY.thenBranch) && !Breaks.Loose(p, {}, 0, FACT_BODY.elseBranch);
  }

  lemma {:induction false} MainIsFair(p: Program, k: nat)
    requires HasFactorial(p, 0, 0)
    ensures FairFunc(p, Func(0, [], MainBody(k)))
  {
    hide NonStack;
    var ss := MainBody(k).body;
    assert FairExpr(p, 0, Lit(k)) && FairArgs(p, 0, ["n"], 1, NoArgs);
    assert FairArgs(p, 0, ["n"], 0, ss.s.e.args) && FairStmt(p, 0, ss.s);
    assert FairStmts(p, 0, ss.rest) && FairStmts(p, 0, ss);
    assert !Breaks.LooseIn(p, {}, 0, ss.rest) && !Breaks.LooseIn(p, {}, 0, ss);
  }

  lemma {:induction false} FactProgramIsFair(k: nat)
    ensures FairProgram(FactProgram(k)) && HasFactorial(FactProgram(k), 0, 0)
  {
    hide FairFunc;
    var p := FactProgram(k);
    assert NonStack(p, 0, "fact") == Some(Function(0));
    assert !FunctionName(p, "n");
    FactIsFair(p);
    MainIsFair(p, k);
  }

  /** The number that the whole run gives is k!. */
  lemma {:induction false} RunGivesFactorial(k: nat, fuel: nat, mem: Mem, source: nat)
    requires k <= 12 && k + 1 <= fuel && MemOk(mem) && 0 < mem.next < ID_LIMIT - 13
    ensures var r := RunMain(FactProgram(k), Some(0), fuel, State([], mem, source));
            r.Ok? && r.out == Value(IntOf(Factorial(k)))
  {
    hide FairProgram, C.Eval, RunMain, HasFactorial, IntOf, C.Find;
    var p, env, e := FactProgram(k), C.Env([], 13), Call("fact", Arg(Lit(k), NoArgs));
    FactProgramIsFair(k);
    LitMeans(p, k, fuel, 0, env);
    NoVariable();
    CallMeans(p, 0, 0, Lit(k), k, fuel, env);
    assert MainOf(p, Some(0)) == Some(p.funcs[1]);
    assert C.Exec(p, Return(e), fuel, 0, env) == C.Eval(p, e, fuel, 0, env);
    assert C.Exec(p, MainBody(k), fuel, 0, env).Done?;
    MainAgrees(p, Some(0), fuel, mem, source, 13);
  }

  lemma {:induction false} NoVariable()
    ensures C.Find([], "fact") == None
  {
  }

  // ----- A switch that returns -----

  /** `switch (x) { case a: return v; default: return w; }` */
  function Choice(x: string, a: int, v: int, w: int): Stmt {
    Switch(Var(x), Compound(Then(Case(Lit(a), Return(Lit(v))), Then(Default(Return(Lit(w))), End))))
  }

  /** The value that the switch returns is returned from the statement, and the variables are as they were. */
  lemma {:induction false} SwitchReturns(
      p: Program, x: string, a: int, v: int, w: int, k: int, fuel: nat, st: State, env: C.Env, i: nat)
    requires FairProgram(p) && Mirrors(p, st, env.vars, env.room) && st.frames != []
    requires C.Find(env.vars, x) == Some(i) && env.vars[i].val == Some(k)
    requires InRangeInt(a) && InRangeInt(v) && InRangeInt(w)
    ensures var r := Exec(p, Choice(x, a, v, w), fuel, st);
            r.Ok? && r.out == Value(IntOf(if k == a then v else w)) && Mirrors(p, r.st, env.vars, env.room)
  {
    hide Exec, FairProgram, Mirrors, C.Find, IntOf;
    var s, source := Choice(x, a, v, w), st.source;
    ChoiceMeans(p, x, a, v, w, k, fuel, source, env, i);
    assert FairExpr(p, source, Var(x)) && FairExpr(p, source, Lit(v)) && FairExpr(p, source, Lit(w));
    assert FairStmt(p, source, Return(Lit(v))) && FairStmt(p, source, Return(Lit(w)));
    assert FairStmts(p, source, s.sub.body.rest.rest) && FairStmts(p, source, s.sub.body.rest);
    assert FairStmts(p, source, s.sub.body);
    StatementsAgree(p, s, fuel, st, env);
  }

  lemma {:induction false} ChoiceLabels(x: string, a: int, v: int, w: int, k: int)
    requires InRangeInt(a)
    ensures var ss := Choice(x, a, v, w).sub.body;
            C.LabelsOnTop(ss) && C.FromDefault(ss) == ss.rest && C.FromCase(ss, k) == Some(if k == a then ss else End)
  {
    var ss := Choice(x, a, v, w).sub.body;
    assert !C.Labelled(Return(Lit(v))) && !C.Labelled(Return(Lit(w)));
    assert C.LabelsOnTop(End) && C.LabelsOnTop(ss.rest);
    assert C.FromCase(End, k) == Some(End) && C.FromCase(ss.rest, k) == Some(End);
    assert C.Constant(Lit(a)) == Some(a);
  }

  lemma {:induction false} ChoiceMeans(
      p: Program, x: string, a: int, v: int, w: int, k: int, fuel: nat, source: nat, env: C.Env, i: nat)
    requires C.Find(env.vars, x) == Some(i) && env.vars[i].val == Some(k)
    requires InRangeInt(a) && InRangeInt(v) && InRangeInt(w)
    ensures C.Exec(p, Choice(x, a, v, w), fuel, source, env) == C.Done(C.Gives(if k == a then v else w), env)
  {
    hide C.Find, C.LabelsOnTop, C.FromCase, C.FromDefault;
    var ss := Choice(x, a, v, w).sub.body;
    var z := if k == a then v else w;
    var from := if k == a then ss else ss.rest;
    assert C.Eval(p, Var(x), fuel, source, env) == C.Done(C.Gives(k), env);
    ChoiceLabels(x, a, v, w, k);
    assert C.Exec(p, Return(Lit(z)), fuel, source, env) == C.Done(C.Gives(z), env);
    assert C.Exec(p, from.s, fuel, source, env) == C.Done(C.Gives(z), env);
    assert C.ExecSeq(p, from, fuel, source, env) == C.Done(C.Gives(z), env);
    assert env.vars[..|env.vars|] == env.vars;
  }
}
