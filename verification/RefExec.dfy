/**
 A reference executor for statements and expressions over `int` (eval.cpp): it looks names up by
 scanning the frames and keeps no index.

 The result of an expression or statement is a pointer in the source: to a number, null when nothing
 was returned, or the marker that `break` returns. Dereferencing one of the latter two has no
 defined behaviour there and aborts here, as does everything on which the interpreter gives up.
 `fuel` bounds the depth of calls and the rounds of each loop; `Progress.dfy` shows that a run that
 ends does not depend on it.
 */
module RefExec {
  import opened Options
  import opened Numbers
  import opened Arithmetic
  import opened Values
  import opened Memory
  import opened Frames

  // ----- Programs -----

  datatype UnOp = Minus | LNot

  datatype BinOp = Arith(op: Op) | Rel(c: Cmp)

  datatype StoreOp = Plain | AddAssign | SubAssign

  datatype Expr =
    | Lit(v: int)
    | Var(name: string)
    | Set(op: StoreOp, name: string, e: Expr)
    | Unary(uop: UnOp, e: Expr)
    | Binary(bop: BinOp, l: Expr, r: Expr)
    | Call(name: string, args: Exprs)

  datatype Exprs = NoArgs | Arg(e: Expr, rest: Exprs)

  /** `Other` is any statement that the interpreter cannot handle. */
  datatype Stmt =
    | Compound(body: Stmts)
    | DeclStmt(decls: Decls)
    | ExprStmt(e: Expr)
    | Return(e: Expr)
    | If(cond: Expr, thenBranch: Stmt)
    | IfElse(cond: Expr, thenBranch: Stmt, elseBranch: Stmt)
    | For(init: Stmt, cond: Expr, inc: Expr, loop: Stmt)
    | NullStmt
    | Switch(cond: Expr, sub: Stmt)
    | Case(value: Expr, sub: Stmt)
    | Default(sub: Stmt)
    | Break
    | Other

  datatype Stmts = End | Then(s: Stmt, rest: Stmts)

  datatype Decls = NoDecls | Uninitialised(name: string, rest: Decls) | Initialised(name: string, e: Expr, rest: Decls)

  /** What a name outside the stack stands for; `Undefined` is a function without an implementation. */
  datatype Global = IntVar(block: nat) | Function(fid: nat) | Undefined

  datatype Func = Func(source: nat, params: seq<string>, body: Stmt)

  /**
   `locals[source]` are the file-level names of one source file, `globals` says which file defines a
   name with external linkage. `junk` is the bit pattern of a number that is only a status.
   */
  datatype Program = Program(
    locals: map<nat, map<string, Global>>, globals: map<string, nat>, funcs: map<nat, Func>, junk: nat)

  // ----- States and results -----

  datatype State = State(frames: seq<Frame>, mem: Mem, source: nat)

  datatype Out = Null | BreakMark | Value(n: IntNum)

  datatype Res = Abort | Timeout | Ok(out: Out, st: State)

  // ----- Names -----

  function GlobalIn(p: Program, source: nat, name: string): Option<Global> {
    if source in p.locals && name in p.locals[source] then Some(p.locals[source][name]) else None
  }

  function NonStack(p: Program, source: nat, name: string): Option<Global> {
    if GlobalIn(p, source, name).Some? then GlobalIn(p, source, name)
    else if name in p.globals then GlobalIn(p, p.globals[name], name)
    else None
  }

  function Lookup(p: Program, st: State, name: string): Option<Global> {
    match Scan(st.frames, |st.frames|, name)
    case Some(pos) => Some(IntVar(st.frames[pos.level][pos.slot].block))
    case None => NonStack(p, st.source, name)
  }

  function Callee(p: Program, g: Option<Global>): Option<Func> {
    if g.Some? && g.value.Function? && g.value.fid in p.funcs then Some(p.funcs[g.value.fid]) else None
  }

  // ----- Frames and variables -----

  function Push(st: State): State {
    st.(frames := PushFrame(st.frames))
  }

  /** The blocks of the first `k` bindings are retired, in order. */
  function RetireFrame(m: Mem, f: Frame, k: nat): Mem
    requires k <= |f|
  {
    if k == 0 then m else Retired(RetireFrame(m, f, k - 1), f[k - 1].block)
  }

  function Pop(st: State): State
    requires st.frames != []
  {
    var f := st.frames[|st.frames| - 1];
    st.(frames := DropFrame(st.frames), mem := RetireFrame(st.mem, f, |f|))
  }

  /** A result on which the current frame is popped. */
  function Popped(r: Res): Res {
    if r.Ok? then if r.st.frames == [] then Abort else Ok(r.out, Pop(r.st)) else r
  }

  /** A new stack variable in a new block. */
  function Declared(st: State, name: string, o: Out): Res {
    if !o.Value? || st.mem.next == 0 || st.frames == [] then Abort
    else Ok(Null, st.(frames := AddBinding(st.frames, Binding(name, st.mem.next)),
                      mem := Created(st.mem, Block(STACK, EncodeNum(o.n)))))
  }

  // ----- Numbers -----

  const MIN_INT := -0x8000_0000
  const MAX_INT := 0x7FFF_FFFF

  function Literal(v: int): Option<IntNum> {
    BytesOfKind(Int);
    var n: IntNum := OfValue(Int, v);
    if MIN_INT <= v <= MAX_INT then Some(n) else None
  }

  /** `cast_to(int)` of an int: always defined, whatever the status was. */
  function CastInt(n: IntNum): IntNum {
    BytesOfKind(Int);
    Num(Int, DEFINED, n.val, INT_ID)
  }

  function UninitInt(junk: nat): IntNum {
    BytesOfKind(Int);
    OfStatus(Int, UNINITIALIZED, junk)
  }

  function ApplyUnary(op: UnOp, a: IntNum, junk: nat): IntNum {
    BytesOfKind(Int);
    if op == Minus then Negate(a, junk) else LogicalNot(a, junk)
  }

  function ApplyBinary(op: BinOp, a: IntNum, b: IntNum, junk: nat): IntNum {
    BytesOfKind(Int);
    match op
    case Arith(op) => Apply(op, a, b, junk)
    case Rel(c) => Compare(c, a.val, b.val)
  }

  function UnaryRes(p: Program, op: UnOp, o: Out, st: State): Res {
    if o.Value? then Ok(Value(ApplyUnary(op, o.n, p.junk)), st) else Abort
  }

  function BinaryRes(p: Program, op: BinOp, l: Out, r: Out, st: State): Res {
    if l.Value? && r.Value? then Ok(Value(ApplyBinary(op, l.n, r.n, p.junk)), st) else Abort
  }

  // ----- Variables -----

  function ReadVar(st: State, g: Option<Global>): Res {
    if g.None? || !g.value.IntVar? then Abort
    else
      var id := g.value.block;
      if id in st.mem.blocks && st.mem.blocks[id].memtype == FREED then Abort
      else match ReadInt(st.mem, id)
        case None => Abort
        case Some(n) => Ok(Value(n), st)
  }

  function WriteRes(st: State, id: nat, n: IntNum): Res {
    match WriteInt(st.mem, id, n)
    case None => Abort
    case Some(m) => Ok(Value(n), st.(mem := m))
  }

  /** `=`, `+=` and `-=`, once the right operand has been evaluated to `o`. */
  function SetVar(p: Program, st: State, op: StoreOp, g: Option<Global>, o: Out): Res {
    if g.None? || !g.value.IntVar? || !o.Value? then Abort
    else if op == Plain then WriteRes(st, g.value.block, CastInt(o.n))
    else match ReadInt(st.mem, g.value.block)
      case None => Abort
      case Some(value) =>
        WriteRes(st, g.value.block, ApplyBinary(Arith(if op == AddAssign then Add else Sub), value, o.n, p.junk))
  }

  // ----- Results of parts -----

  datatype Test = Zero(st: State) | NonZero(st: State) | Failed(r: Res)

  /** A condition: `is_scalar_zero` ignores the status. */
  function Tested(r: Res): Test {
    if !r.Ok? then Failed(r)
    else if !r.out.Value? then Failed(Abort)
    else if r.out.n.val == 0 then Zero(r.st)
    else NonZero(r.st)
  }

  /** An expression whose result is dropped. */
  function Discarded(r: Res): Res {
    if r.Ok? then Ok(Null, r.st) else r
  }

  /** An initialiser evaluated twice, to `first` and then to `r`. */
  function Initial(x: string, first: Out, r: Res): Res {
    if !r.Ok? then r
    else if !r.out.Value? || first == BreakMark then Abort
    else Declared(r.st, x, Value(CastInt(r.out.n)))
  }

  // ----- Switch -----

  function DefaultIn(ss: Stmts): (r: Stmts)
    ensures r == ss || r < ss
  {
    if ss.End? || ss.s.Default? then ss else DefaultIn(ss.rest)
  }

  datatype Found = FAbort | FTimeout | Found(at: Stmts, st: State)

  function SwitchRes(r: Res): Res {
    Popped(if r.Ok? && r.out == BreakMark then Ok(Null, r.st) else r)
  }

  // ----- The executor -----

  function Eval(p: Program, e: Expr, fuel: nat, st: State): Res
    decreases fuel, e, 0
  {
    match e
    case Lit(v) => (match Literal(v) case None => Abort case Some(n) => Ok(Value(n), st))
    case Var(x) => ReadVar(st, Lookup(p, st, x))
    case Set(op, x, r) =>
      (match Eval(p, r, fuel, st)
       case Ok(o, s) => SetVar(p, s, op, Lookup(p, s, x), o)
       case bad => bad)
    case Unary(op, a) =>
      (match Eval(p, a, fuel, st)
       case Ok(o, s) => UnaryRes(p, op, o, s)
       case bad => bad)
    case Binary(op, l, r) =>
      (match Eval(p, r, fuel, st)
       case Ok(b, s) =>
         (match Eval(p, l, fuel, s)
          case Ok(a, t) => BinaryRes(p, op, a, b, t)
          case bad => bad)
       case bad => bad)
    case Call(f, args) =>
      (match Callee(p, Lookup(p, st, f))
       case None => Abort
       case Some(fn) => if fuel == 0 then Timeout else CallFn(p, fn, args, fuel, st))
  }

  /** A call of `fn` in a new frame, into which the arguments are evaluated. */
  function CallFn(p: Program, fn: Func, args: Exprs, fuel: nat, st: State): Res
    requires fuel > 0
    decreases fuel, args, 1
  {
    match EvalArgs(p, fn.params, 0, args, fuel, Push(st))
    case Ok(_, s) => Returned(Exec(p, fn.body, fuel - 1, s.(source := fn.source)), s.source)
    case bad => bad
  }

  /** The end of a call made from file `source`. */
  function Returned(r: Res, source: nat): Res {
    Popped(if r.Ok? then Ok(r.out, r.st.(source := source)) else r)
  }

  /** The `i`-th argument becomes a variable; arguments beyond the parameters have the empty name. */
  function Passed(params: seq<string>, i: nat, r: Res): Res {
    if r.Ok? then Declared(r.st, if i < |params| then params[i] else "", r.out) else r
  }

  /** The arguments from the `i`-th on; each is bound in the new frame before the next is evaluated. */
  function EvalArgs(p: Program, params: seq<string>, i: nat, args: Exprs, fuel: nat, st: State): Res
    decreases fuel, args, 0
  {
    match args
    case NoArgs => Ok(Null, st)
    case Arg(e, rest) =>
      match Passed(params, i, Eval(p, e, fuel, st))
      case Ok(_, t) => EvalArgs(p, params, i + 1, rest, fuel, t)
      case bad => bad
  }

  function Exec(p: Program, s: Stmt, fuel: nat, st: State): Res
    decreases fuel, s, 3
  {
    match s
    case Compound(body) => Popped(ExecSeq(p, body, fuel, Push(st)))
    case DeclStmt(ds) => ExecDecls(p, ds, fuel, st)
    case ExprStmt(e) => Discarded(Eval(p, e, fuel, st))
    case Return(e) => Eval(p, e, fuel, st)
    case If(c, a) =>
      (match Tested(Eval(p, c, fuel, st))
       case Zero(t) => Ok(Null, t)
       case NonZero(t) => Exec(p, a, fuel, t)
       case Failed(bad) => bad)
    case IfElse(c, a, b) =>
      (match Tested(Eval(p, c, fuel, st))
       case Zero(t) => Exec(p, b, fuel, t)
       case NonZero(t) => Exec(p, a, fuel, t)
       case Failed(bad) => bad)
    case For(_, _, _, _) => Popped(ExecFor(p, s, fuel, Push(st)))
    case NullStmt => Ok(Null, st)
    case Switch(c, sub) => ExecSwitch(p, sub, Eval(p, c, fuel, Push(st)), fuel)
    case Case(_, sub) => Exec(p, sub, fuel, st)
    case Default(sub) => Exec(p, sub, fuel, st)
    case Break => Ok(BreakMark, st)
    case Other => Abort
  }

  /** Statements one after the other, until one returns something. */
  function ExecSeq(p: Program, ss: Stmts, fuel: nat, st: State): Res
    decreases fuel, ss, 0
  {
    match ss
    case End => Ok(Null, st)
    case Then(s, rest) =>
      match Exec(p, s, fuel, st)
      case Ok(o, t) => if o == Null then ExecSeq(p, rest, fuel, t) else Ok(o, t)
      case bad => bad
  }

  function ExecFor(p: Program, s: Stmt, fuel: nat, st: State): Res
    requires s.For?
    decreases fuel, s, 2
  {
    match Exec(p, s.init, fuel, st)
    case Ok(o, t) => if o == Null then ExecLoop(p, s, fuel, t) else Ok(o, t)
    case bad => bad
  }

  /** The rounds of a loop, from a test of the condition on; a `break` ends it just as a `return` does. */
  function ExecLoop(p: Program, s: Stmt, fuel: nat, st: State): Res
    requires s.For?
    decreases fuel, s, 1
  {
    match Tested(Eval(p, s.cond, fuel, st))
    case Zero(t) => Ok(Null, t)
    case NonZero(t) =>
      (match ExecRound(p, s, fuel, t)
       case Ok(o, u) => if o != Null then Ok(o, u) else if fuel == 0 then Timeout else ExecLoop(p, s, fuel - 1, u)
       case bad => bad)
    case Failed(bad) => bad
  }

  function ExecRound(p: Program, s: Stmt, fuel: nat, st: State): Res
    requires s.For?
    decreases fuel, s, 0
  {
    match Exec(p, s.loop, fuel, st)
    case Ok(o, t) => if o != Null then Ok(o, t) else Discarded(Eval(p, s.inc, fuel, t))
    case bad => bad
  }

  /** Each initialiser is evaluated twice, and the second value is stored. */
  function ExecDecls(p: Program, ds: Decls, fuel: nat, st: State): Res
    decreases fuel, ds, 0
  {
    match ds
    case NoDecls => Ok(Null, st)
    case Uninitialised(x, rest) =>
      (match Declared(st, x, Value(UninitInt(p.junk)))
       case Ok(_, t) => ExecDecls(p, rest, fuel, t)
       case bad => bad)
    case Initialised(x, e, rest) =>
      (match Eval(p, e, fuel, st)
       case Ok(first, s) =>
         (match Initial(x, first, Eval(p, e, fuel, s))
          case Ok(_, t) => ExecDecls(p, rest, fuel, t)
          case bad => bad)
       case bad => bad)
  }

  /** The children from the first case with the value on; every label before it is evaluated. */
  function FindCase(p: Program, v: IntNum, ss: Stmts, fuel: nat, st: State): (r: Found)
    ensures r.Found? ==> r.at == ss || r.at < ss
    decreases fuel, ss, 0
  {
    if ss.End? then Found(ss, st)
    else if ss.s.Case? then
      match Eval(p, ss.s.value, fuel, st)
      case Ok(o, t) =>
        if !o.Value? then FAbort
        else if v.val == o.n.val then Found(ss, t)
        else FindCase(p, v, ss.rest, fuel, t)
      case Abort => FAbort
      case Timeout => FTimeout
    else FindCase(p, v, ss.rest, fuel, st)
  }

  /** The statement `sub` of a switch whose condition gave `r`. */
  function ExecSwitch(p: Program, sub: Stmt, r: Res, fuel: nat): Res
    decreases fuel, sub, 0
  {
    if !r.Ok? then r
    else if !r.out.Value? || !sub.Compound? then Abort
    else match FindCase(p, r.out.n, sub.body, fuel, r.st)
      case FAbort => Abort
      case FTimeout => Timeout
      case Found(at, t) => SwitchRes(ExecSeq(p, if at.End? then DefaultIn(sub.body) else at, fuel, t))
  }

  /** `main`, as declared in the file that declares it with external linkage, if any; it has no parameters. */
  function MainOf(p: Program, mainSource: Option<nat>): Option<Func> {
    if mainSource.None? then None
    else match Callee(p, GlobalIn(p, mainSource.value, "main"))
      case None => None
      case Some(fn) => if fn.params == [] then Some(fn) else None
  }

  /** The run of a program from `main`; its result must be a number, and the frame of `main` stays. */
  function RunMain(p: Program, mainSource: Option<nat>, fuel: nat, st: State): Res {
    match MainOf(p, mainSource)
    case None => Abort
    case Some(fn) =>
      match Exec(p, fn.body, fuel, Push(st).(source := mainSource.value))
      case Ok(o, t) => if o.Value? then Ok(Value(CastInt(o.n)), t) else Abort
      case bad => bad
  }
}
