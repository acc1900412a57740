/**
 Where evaluation differs from what a C programmer expects, stated for all states: the order of
 operands, initialisers, and the scope in which arguments are evaluated.
 */
module EvalOrder {
  import opened Options
  import opened Numbers
  import opened Arithmetic
  import opened Values
  import opened Memory
  import opened Frames
  import opened RefExec

  /** The name stands for the variable in block `id`, which can be read and written. */
  predicate Names(p: Program, st: State, x: string, id: nat) {
    Lookup(p, st, x) == Some(IntVar(id)) && ReadInt(st.mem, id).Some?
  }

  lemma {:induction false} SetAgain(p: Program, st: State, x: string, id: nat, n: IntNum)
    requires Names(p, st, x, id) && n.status == DEFINED && n.tag == INT_ID
    ensures var r := WriteRes(st, id, n);
            r.Ok? && r.out == Value(n) && Names(p, r.st, x, id) && ReadInt(r.st.mem, id) == Some(n) &&
            r.st == st.(mem := r.st.mem)
  {
    hide EncodeNum, IntAt;
    ReadAfterWrite(st.mem, id, n, id);
  }

  function IntOf(v: int): IntNum {
    BytesOfKind(Int);
    OfValue(Int, v)
  }

  predicate InRangeInt(v: int) {
    MIN_INT <= v <= MAX_INT
  }

  lemma {:induction false} AssignLit(p: Program, st: State, x: string, id: nat, v: int, fuel: nat)
    requires Names(p, st, x, id) && InRangeInt(v)
    ensures Eval(p, Set(Plain, x, Lit(v)), fuel, st) == WriteRes(st, id, IntOf(v))
  {
    hide WriteInt, Lookup;
    assert Eval(p, Lit(v), fuel, st) == Ok(Value(IntOf(v)), st);
    assert CastInt(IntOf(v)) == IntOf(v);
  }

  /** The right operand is evaluated first: in `(x = v) op (x = w)` the variable ends up as `v`. */
  lemma {:induction false} RightOperandFirst(
      p: Program, st: State, x: string, id: nat, op: BinOp, v: int, w: int, fuel: nat)
    requires Names(p, st, x, id) && InRangeInt(v) && InRangeInt(w)
    ensures var r := Eval(p, Binary(op, Set(Plain, x, Lit(v)), Set(Plain, x, Lit(w))), fuel, st);
            r.Ok? && r.out == Value(ApplyBinary(op, IntOf(v), IntOf(w), p.junk)) &&
            ReadInt(r.st.mem, id) == Some(IntOf(v))
  {
    hide WriteInt, ReadInt, Lookup, IntOf, ApplyBinary, WriteRes, Names;
    DefinedInt(v);
    DefinedInt(w);
    AssignLit(p, st, x, id, w, fuel);
    SetAgain(p, st, x, id, IntOf(w));
    var s := WriteRes(st, id, IntOf(w)).st;
    AssignLit(p, s, x, id, v, fuel);
    SetAgain(p, s, x, id, IntOf(v));
  }

  lemma {:induction false} DefinedInt(v: int)
    ensures IntOf(v).status == DEFINED && IntOf(v).tag == INT_ID && IntOf(v).val == v % 0x1_0000_0000
  {
  }

  lemma {:induction false} AddLit(p: Program, st: State, x: string, id: nat, v: int, n: IntNum, fuel: nat)
    requires Names(p, st, x, id) && InRangeInt(v) && ReadInt(st.mem, id) == Some(n) && n.status == DEFINED
    ensures Eval(p, Set(AddAssign, x, Lit(v)), fuel, st) == WriteRes(st, id, IntOf(n.val + v))
  {
    hide WriteInt, Lookup, ReadInt;
    assert Eval(p, Lit(v), fuel, st) == Ok(Value(IntOf(v)), st);
    DefinedInt(v);
    SumOfPatterns(n.val, v);
    assert ApplyBinary(Arith(Add), n, IntOf(v), p.junk) == IntOf(n.val + v);
  }

  lemma {:induction false} SumOfPatterns(a: int, v: int)
    ensures (a + v % 0x1_0000_0000) % 0x1_0000_0000 == (a + v) % 0x1_0000_0000
  {
  }

  /** Two evaluations of `x += v` in a row. */
  lemma {:induction false} AddsTwice(p: Program, st: State, x: string, id: nat, v: int, n: IntNum, fuel: nat)
    requires Names(p, st, x, id) && InRangeInt(v) && ReadInt(st.mem, id) == Some(n) && n.status == DEFINED
    requires MemOk(st.mem)
    ensures var e, two := Set(AddAssign, x, Lit(v)), IntOf(n.val + v + v);
            var r := Eval(p, e, fuel, st);
            r.Ok? && r.out.Value? &&
            var q := Eval(p, e, fuel, r.st);
            q.Ok? && q.out == Value(two) && q.st == st.(mem := q.st.mem) && ReadInt(q.st.mem, id) == Some(two) &&
            MemOk(q.st.mem) && q.st.mem.next == st.mem.next
  {
    hide WriteInt, ReadInt, Lookup, IntOf, WriteRes, Names, Eval;
    var one, two := IntOf(n.val + v), IntOf(n.val + v + v);
    DefinedInt(n.val + v);
    DefinedInt(n.val + v + v);
    SumOfPatterns(v, n.val + v);
    AddLit(p, st, x, id, v, n, fuel);
    SetAgain(p, st, x, id, one);
    var s := WriteRes(st, id, one).st;
    AddLit(p, s, x, id, v, one, fuel);
    SameIntOf(one.val + v, n.val + v + v);
    SetAgain(p, s, x, id, two);
    KeepsCounter(st, id, one);
    KeepsCounter(s, id, two);
  }

  /** `int y = (x += v);` adds `v` twice, and stores the second sum. */
  lemma {:induction false} InitialiserRunsTwice(
      p: Program, st: State, x: string, id: nat, y: string, v: int, n: IntNum, fuel: nat)
    requires Names(p, st, x, id) && InRangeInt(v) && ReadInt(st.mem, id) == Some(n) && n.status == DEFINED
    requires MemOk(st.mem) && st.mem.next != 0 && st.frames != []
    ensures var r := Exec(p, DeclStmt(Initialised(y, Set(AddAssign, x, Lit(v)), NoDecls)), fuel, st);
            r.Ok? && r.st.frames == AddBinding(st.frames, Binding(y, st.mem.next)) &&
            ReadInt(r.st.mem, id) == Some(IntOf(n.val + v + v)) &&
            ReadInt(r.st.mem, st.mem.next) == Some(IntOf(n.val + v + v))
  {
    hide ReadInt, Lookup, IntOf, Names, AddBinding, Eval, Declared;
    var e, two := Set(AddAssign, x, Lit(v)), IntOf(n.val + v + v);
    AddsTwice(p, st, x, id, v, n, fuel);
    DefinedInt(n.val + v + v);
    var first := Eval(p, e, fuel, st);
    var t := Eval(p, e, fuel, first.st).st;
    assert CastInt(two) == two;
    NewBlockReads(t, y, two, id);
    var r := Declared(t, y, Value(two));
    assert Initial(y, first.out, Ok(Value(two), t)) == r;
    assert ExecDecls(p, NoDecls, fuel, r.st) == r;
    assert ExecDecls(p, Initialised(y, e, NoDecls), fuel, st) == r;
  }

  lemma {:induction false} SameIntOf(a: int, b: int)
    requires a % 0x1_0000_0000 == b % 0x1_0000_0000
    ensures IntOf(a) == IntOf(b)
  {
  }

  lemma {:induction false} KeepsCounter(st: State, id: nat, n: IntNum)
    requires MemOk(st.mem) && WriteRes(st, id, n).Ok?
    ensures var m := WriteRes(st, id, n).st.mem; MemOk(m) && m.next == st.mem.next
  {
  }

  /** A declared variable reads as it was initialised, and the others as before. */
  lemma {:induction false} NewBlockReads(st: State, y: string, n: IntNum, id: nat)
    requires MemOk(st.mem) && st.mem.next != 0 && st.frames != [] && n.status == DEFINED && n.tag == INT_ID
    requires ReadInt(st.mem, id).Some?
    ensures var r := Declared(st, y, Value(n));
            r.Ok? && r.out == Out.Null && r.st.frames == AddBinding(st.frames, Binding(y, st.mem.next)) &&
            ReadInt(r.st.mem, st.mem.next) == Some(n) && ReadInt(r.st.mem, id) == ReadInt(st.mem, id)
  {
    LoadAfterStore(n);
    assert EncodeNum(n)[..SIZE_INT] == EncodeNum(n);
  }

  // ----- Branches -----

  lemma {:induction false} AssignStmt(p: Program, st: State, x: string, id: nat, v: int, fuel: nat)
    requires Names(p, st, x, id) && InRangeInt(v)
    ensures var r := Exec(p, ExprStmt(Set(Plain, x, Lit(v))), fuel, st);
            r.Ok? && r.out == Out.Null && ReadInt(r.st.mem, id) == Some(IntOf(v)) &&
            r.st == st.(mem := r.st.mem)
  {
    hide WriteInt, ReadInt, Lookup, IntOf, WriteRes, Names, Eval;
    DefinedInt(v);
    AssignLit(p, st, x, id, v, fuel);
    SetAgain(p, st, x, id, IntOf(v));
  }

  /** After `if (c) x = a; else x = b;` the variable is `a` when `c` is not zero, and `b` when it is. */
  lemma {:induction false} IfElseChooses(
      p: Program, st: State, c: Expr, x: string, id: nat, a: int, b: int, fuel: nat)
    requires Eval(p, c, fuel, st).Ok? && Eval(p, c, fuel, st).out.Value? && InRangeInt(a) && InRangeInt(b)
    requires Names(p, Eval(p, c, fuel, st).st, x, id)
    ensures var s := IfElse(c, ExprStmt(Set(Plain, x, Lit(a))), ExprStmt(Set(Plain, x, Lit(b))));
            var n, r := Eval(p, c, fuel, st).out.n, Exec(p, s, fuel, st);
            r.Ok? && r.out == Out.Null && ReadInt(r.st.mem, id) == Some(IntOf(if n.val != 0 then a else b))
  {
    hide WriteInt, ReadInt, Lookup, IntOf, Names, Eval;
    var t := Eval(p, c, fuel, st).st;
    AssignStmt(p, t, x, id, a, fuel);
    AssignStmt(p, t, x, id, b, fuel);
  }

  /** After `if (c) x = a;` the variable is `a` when `c` is not zero; otherwise nothing changed after `c`. */
  lemma {:induction false} IfChooses(p: Program, st: State, c: Expr, x: string, id: nat, a: int, fuel: nat)
    requires Eval(p, c, fuel, st).Ok? && Eval(p, c, fuel, st).out.Value? && InRangeInt(a)
    requires Names(p, Eval(p, c, fuel, st).st, x, id)
    ensures var t, r := Eval(p, c, fuel, st), Exec(p, If(c, ExprStmt(Set(Plain, x, Lit(a)))), fuel, st);
            r.Ok? && r.out == Out.Null &&
            (t.out.n.val != 0 ==> ReadInt(r.st.mem, id) == Some(IntOf(a))) && (t.out.n.val == 0 ==> r.st == t.st)
  {
    hide WriteInt, ReadInt, Lookup, IntOf, Names, Eval;
    AssignStmt(p, Eval(p, c, fuel, st).st, x, id, a, fuel);
  }

  /** In particular where the condition is a variable. */
  lemma {:induction false} IfElseOnVariable(
      p: Program, st: State, x: string, id: nat, n: IntNum, a: int, b: int, fuel: nat)
    requires Names(p, st, x, id) && ReadInt(st.mem, id) == Some(n) && st.mem.blocks[id].memtype != FREED
    requires InRangeInt(a) && InRangeInt(b)
    ensures var s := IfElse(Var(x), ExprStmt(Set(Plain, x, Lit(a))), ExprStmt(Set(Plain, x, Lit(b))));
            var r := Exec(p, s, fuel, st);
            r.Ok? && r.out == Out.Null && ReadInt(r.st.mem, id) == Some(IntOf(if n.val != 0 then a else b))
  {
    hide WriteInt, Lookup, IntOf, Exec;
    assert Eval(p, Var(x), fuel, st) == Ok(Value(n), st);
    IfElseChooses(p, st, Var(x), x, id, a, b, fuel);
  }

  // ----- Names and declarations -----

  /** A name that is not on the stack is that of the file, if the file has it, whatever other files define. */
  lemma {:induction false} FileLevelFirst(p: Program, st: State, x: string, id: nat, v: int, other: nat, fuel: nat)
    requires Scan(st.frames, |st.frames|, x).None? && ReadInt(st.mem, id).Some? && InRangeInt(v)
    requires st.source in p.locals
    requires if x in p.locals[st.source] then p.locals[st.source][x] == IntVar(id)
             else x in p.globals && p.globals[x] in p.locals && x in p.locals[p.globals[x]] &&
                  p.locals[p.globals[x]][x] == IntVar(id)
    ensures var r := Exec(p, ExprStmt(Set(Plain, x, Lit(v))), fuel, st);
            r.Ok? && ReadInt(r.st.mem, id) == Some(IntOf(v)) &&
            (other != id ==> ReadInt(r.st.mem, other) == ReadInt(st.mem, other))
  {
    hide WriteInt, ReadInt, IntOf;
    assert Names(p, st, x, id);
    AssignStmt(p, st, x, id, v, fuel);
    DefinedInt(v);
    AssignLit(p, st, x, id, v, fuel);
    assert WriteInt(st.mem, id, IntOf(v)).Some?;
    ReadAfterWrite(st.mem, id, IntOf(v), other);
  }

  /** `x = e` makes `x` defined, with the bits of `e`, even where `e` is undefined or uninitialised. */
  lemma {:induction false} AssignmentDefines(p: Program, st: State, x: string, id: nat, e: Expr, fuel: nat)
    requires Eval(p, e, fuel, st).Ok? && Eval(p, e, fuel, st).out.Value? && Names(p, Eval(p, e, fuel, st).st, x, id)
    ensures var n, r := Eval(p, e, fuel, st).out.n, Eval(p, Set(Plain, x, e), fuel, st);
            r.Ok? && ReadInt(r.st.mem, id).Some? && ReadInt(r.st.mem, id).value == Num(Int, DEFINED, n.val, INT_ID)
  {
    hide WriteInt, ReadInt, Lookup, WriteRes, Names;
    var t := Eval(p, e, fuel, st);
    Named(p, t.st, x, id);
    SetAgain(p, t.st, x, id, CastInt(t.out.n));
  }

  lemma {:induction false} Named(p: Program, st: State, x: string, id: nat)
    requires Names(p, st, x, id)
    ensures Lookup(p, st, x) == Some(IntVar(id))
  {
  }

  /** A variable can be read exactly when its block is there, has not been freed, and has room for an `int`. */
  lemma {:induction false} ReadsExactly(p: Program, st: State, x: string, id: nat, fuel: nat)
    requires Lookup(p, st, x) == Some(IntVar(id))
    ensures var r := Eval(p, Var(x), fuel, st);
            (r.Ok? <==> id in st.mem.blocks && st.mem.blocks[id].memtype != FREED &&
                        |st.mem.blocks[id].data| >= SIZE_INT) &&
            (r.Ok? ==> r.st == st && r.out.Value? && Some(r.out.n) == ReadInt(st.mem, id)) && (!r.Ok? ==> r == Abort)
  {
    hide Lookup, IntAt;
  }

  /** A variable declared without an initialiser reads as uninitialised. */
  lemma {:induction false} UninitialisedReads(p: Program, st: State, x: string, fuel: nat)
    requires MemOk(st.mem) && st.mem.next != 0 && st.frames != []
    ensures var r := Exec(p, DeclStmt(Uninitialised(x, NoDecls)), fuel, st);
            r.Ok? && r.out == Out.Null && Lookup(p, r.st, x) == Some(IntVar(st.mem.next)) &&
            var q := Eval(p, Var(x), fuel, r.st);
            q.Ok? && q.out.Value? && q.out.n.status == UNINITIALIZED && q.st == r.st
  {
    hide EncodeNum, UninitInt, LoadNum;
    var n := UninitInt(p.junk);
    NewIsUninitialised(p.junk);
    var t := Declared(st, x, Value(n)).st;
    assert ExecDecls(p, NoDecls, fuel, t) == Ok(Out.Null, t);
    assert Exec(p, DeclStmt(Uninitialised(x, NoDecls)), fuel, st) == Ok(Out.Null, t);
    var f := t.frames[|st.frames| - 1];
    assert ScanFrame(f, |f|, x) == Some(|f| - 1);
    assert t.mem.blocks[st.mem.next].data[..SIZE_INT] == EncodeNum(n);
  }

  lemma {:induction false} NewIsUninitialised(junk: nat)
    ensures var n := UninitInt(junk); |EncodeNum(n)| == SIZE_INT && LoadNum(Int, EncodeNum(n)).status == UNINITIALIZED
  {
    StoredStatus(UninitInt(junk));
  }

  // ----- Arguments -----

  /** A new variable is found by its name, in the block it was given. */
  lemma {:induction false} DeclaredIsFound(p: Program, st: State, x: string, n: IntNum)
    requires MemOk(st.mem) && st.mem.next != 0 && st.frames != [] && n.status == DEFINED && n.tag == INT_ID
    ensures var r := Declared(st, x, Value(n));
            r.Ok? && r.out == Out.Null && r.st.source == st.source && r.st.frames != [] &&
            MemOk(r.st.mem) && r.st.mem.next == (st.mem.next + 1) % ID_LIMIT &&
            Scan(r.st.frames, |r.st.frames|, x).Some? && ReadVar(r.st, Lookup(p, r.st, x)) == Ok(Value(n), r.st)
  {
    hide IntAt, EncodeNum;
    var r := Declared(st, x, Value(n));
    CreatedEvolves(st.mem, Block(STACK, EncodeNum(n)));
    LoadAfterStore(n);
    assert EncodeNum(n)[..SIZE_INT] == EncodeNum(n);
    IntAtNew(n);
    var f := r.st.frames[|st.frames| - 1];
    assert ScanFrame(f, |f|, x) == Some(|f| - 1);
  }

  lemma {:induction false} IntAtNew(n: IntNum)
    requires n.status == DEFINED && n.tag == INT_ID
    ensures |EncodeNum(n)| == SIZE_INT && IntAt(EncodeNum(n)) == n
  {
    LoadAfterStore(n);
    assert EncodeNum(n)[..SIZE_INT] == EncodeNum(n);
  }

  /**
   Arguments are evaluated in the frame of the call, one after the other: in `f(v, a)`, where the first
   parameter of `f` is `a`, the second argument is `v`, whatever `a` is for the caller.
   */
  lemma {:induction false} ArgumentsSeeParameters(
      p: Program, st: State, f: string, fid: nat, a: string, b: string, v: int, fuel: nat)
    requires fuel > 0 && InRangeInt(v) && MemOk(st.mem) && 0 < st.mem.next < ID_LIMIT - 2
    requires Lookup(p, st, f) == Some(Function(fid)) && fid in p.funcs
    requires p.funcs[fid].params == [a, b] && p.funcs[fid].body == Return(Var(b))
    ensures var r := Eval(p, Call(f, Arg(Lit(v), Arg(Var(a), NoArgs))), fuel, st);
            r.Ok? && r.out == Value(IntOf(v))
  {
    hide Lookup, ReadVar, Declared, IntOf, Pop, RetireFrame, ReadInt;
    var fn, n := p.funcs[fid], IntOf(v);
    var args := Arg(Lit(v), Arg(Var(a), NoArgs));
    DefinedInt(v);
    var pushed := Push(st);
    assert Eval(p, Lit(v), fuel, pushed) == Ok(Value(n), pushed) by { LitValue(p, v, fuel, pushed); }
    DeclaredIsFound(p, pushed, a, n);
    var s := Declared(pushed, a, Value(n)).st;
    assert Eval(p, Var(a), fuel, s) == Ok(Value(n), s);
    DeclaredIsFound(p, s, b, n);
    var t := Declared(s, b, Value(n)).st;
    assert EvalArgs(p, [a, b], 2, NoArgs, fuel, t) == Ok(Out.Null, t);
    assert EvalArgs(p, [a, b], 1, Arg(Var(a), NoArgs), fuel, s) == Ok(Out.Null, t);
    assert EvalArgs(p, [a, b], 0, args, fuel, pushed) == Ok(Out.Null, t);
    BodyReads(p, t, b, fn.source, n, fuel - 1);
    assert CallFn(p, fn, args, fuel, st).Ok?;
  }

  lemma {:induction false} LitValue(p: Program, v: int, fuel: nat, st: State)
    requires InRangeInt(v)
    ensures Eval(p, Lit(v), fuel, st) == Ok(Value(IntOf(v)), st)
  {
  }

  /** A name on the stack is the same variable in any source file. */
  lemma {:induction false} BodyReads(p: Program, t: State, b: string, source: nat, n: IntNum, fuel: nat)
    requires Scan(t.frames, |t.frames|, b).Some? && ReadVar(t, Lookup(p, t, b)) == Ok(Value(n), t)
    ensures var entered := t.(source := source);
            Exec(p, Return(Var(b)), fuel, entered) == Ok(Value(n), entered)
  {
    hide ReadInt, Scan;
  }

  /** The stack is searched through all calls: a function reads its callers' variables before those of its file. */
  lemma {:induction false} CalleeSeesCaller(p: Program, st: State, f: string, fid: nat, x: string, n: IntNum, fuel: nat)
    requires fuel > 0 && Lookup(p, st, f) == Some(Function(fid)) && fid in p.funcs
    requires p.funcs[fid].params == [] && p.funcs[fid].body == Return(Var(x))
    requires Scan(st.frames, |st.frames|, x).Some? && ReadVar(st, Lookup(p, st, x)) == Ok(Value(n), st)
    ensures var r := Eval(p, Call(f, NoArgs), fuel, st); r.Ok? && r.out == Value(n)
  {
    hide Lookup, Pop, ReadVar, Scan;
    var fn, pushed := p.funcs[fid], Push(st);
    ScanPushed(p, st, x);
    assert ReadVar(pushed, Lookup(p, pushed, x)) == Ok(Value(n), pushed) by { SameRead(p, st, x, n); }
    BodyReads(p, pushed, x, fn.source, n, fuel - 1);
    assert EvalArgs(p, fn.params, 0, NoArgs, fuel, pushed) == Ok(Out.Null, pushed);
    assert CallFn(p, fn, NoArgs, fuel, st).Ok?;
  }

  /** So a variable of any caller hides a function of its name: to call the function then aborts. */
  lemma {:induction false} VariableHidesFunction(p: Program, st: State, f: string, args: Exprs, fuel: nat)
    requires Scan(st.frames, |st.frames|, f).Some?
    ensures Eval(p, Call(f, args), fuel, st) == Abort
    ensures Eval(p, Call(f, args), fuel, Push(st)) == Abort
  {
    hide Scan;
    ScanPushed(p, st, f);
  }

  lemma {:induction false} ScanPushed(p: Program, st: State, x: string)
    ensures Scan(Push(st).frames, |Push(st).frames|, x) == Scan(st.frames, |st.frames|, x)
    ensures Lookup(p, Push(st), x) == Lookup(p, st, x)
  {
    var fs, gs := st.frames, PushFrame(st.frames);
    assert ScanFrame(gs[|fs|], 0, x) == None;
    ScanSame(fs, gs, |fs|, x);
  }

  lemma {:induction false} ScanSame(fs: seq<Frame>, gs: seq<Frame>, n: nat, x: string)
    requires n <= |fs| && n <= |gs| && forall i :: 0 <= i < n ==> fs[i] == gs[i]
    ensures Scan(fs, n, x) == Scan(gs, n, x)
  {
    if n > 0 {
      ScanSame(fs, gs, n - 1, x);
    }
  }

  lemma {:induction false} SameRead(p: Program, st: State, x: string, n: IntNum)
    requires ReadVar(st, Lookup(p, st, x)) == Ok(Value(n), st)
    ensures ReadVar(Push(st), Lookup(p, Push(st), x)) == Ok(Value(n), Push(st))
  {
    hide Scan, ReadInt;
    ScanPushed(p, st, x);
  }
}
