/**
 What every run of the executor keeps: from any state, the frames below the top and the file in which it
 runs; and from a state whose live stack blocks are those of its stack variables, that agreement, and
 memory as `Memory.Evolves` says.
 */
module Discipline {
  import opened Options
  import opened Words
  import opened Numbers
  import opened Values
  import opened Memory
  import opened Frames
  import opened RefExec

  // ----- The blocks of the stack variables -----

  function FrameIds(f: Frame): seq<nat> {
    seq(|f|, i requires 0 <= i < |f| => f[i].block)
  }

  /** The blocks of all stack variables in the first `n` frames, in the order of the stack. */
  function AllIds(fs: seq<Frame>, n: nat): seq<nat>
    requires n <= |fs|
  {
    if n == 0 then [] else AllIds(fs, n - 1) + FrameIds(fs[n - 1])
  }

  predicate IsVar(m: Mem, id: nat) {
    id in m.blocks && m.blocks[id].memtype == STACK
  }

  /** Each listed block is a live variable, none is listed twice, and every live stack block is listed. */
  ghost predicate Owned(m: Mem, ids: seq<nat>) {
    && (forall i :: 0 <= i < |ids| ==> IsVar(m, ids[i]))
    && (forall i, j :: 0 <= i < j < |ids| ==> ids[i] < ids[j])
    && (forall id :: id in m.blocks && m.blocks[id].memtype == STACK ==> id in ids)
  }

  /** The live stack blocks are exactly the blocks of the bound variables, one for each. */
  ghost predicate Conserved(st: State) {
    MemOk(st.mem) && Owned(st.mem, AllIds(st.frames, |st.frames|))
  }

  /** Before `main` there are no frames and no stack blocks. */
  lemma {:induction false} InitiallyConserved(m: Mem, source: nat)
    requires MemOk(m) && forall id :: id in m.blocks ==> m.blocks[id].memtype != STACK
    ensures Conserved(State([], m, source))
  {
  }

  lemma {:induction false} AllIdsLocal(fs: seq<Frame>, gs: seq<Frame>, n: nat)
    requires n <= |fs| && n <= |gs| && forall i :: 0 <= i < n ==> fs[i] == gs[i]
    ensures AllIds(fs, n) == AllIds(gs, n)
  {
    if n > 0 {
      AllIdsLocal(fs, gs, n - 1);
    }
  }

  lemma {:induction false} AllIdsPush(fs: seq<Frame>)
    ensures AllIds(PushFrame(fs), |fs| + 1) == AllIds(fs, |fs|)
  {
    AllIdsLocal(PushFrame(fs), fs, |fs|);
  }

  lemma {:induction false} AllIdsAdd(fs: seq<Frame>, b: Binding)
    requires fs != []
    ensures AllIds(AddBinding(fs, b), |fs|) == AllIds(fs, |fs|) + [b.block]
  {
    var n := |fs| - 1;
    AllIdsLocal(AddBinding(fs, b), fs, n);
    assert FrameIds(fs[n] + [b]) == FrameIds(fs[n]) + [b.block];
  }

  lemma {:induction false} AllIdsDrop(fs: seq<Frame>)
    requires fs != []
    ensures AllIds(fs, |fs|) == AllIds(DropFrame(fs), |fs| - 1) + FrameIds(fs[|fs| - 1])
  {
    AllIdsLocal(DropFrame(fs), fs, |fs| - 1);
  }

  // ----- What memory does -----

  /** `Evolves`, and moreover nothing is deleted, and only stack blocks are made or freed. */
  ghost predicate Grows(m: Mem, n: Mem) {
    && Evolves(m, n)
    && (forall id :: id in m.blocks ==> Stays(m, n, id))
    && (forall id :: id in n.blocks && id !in m.blocks ==> FromStack(n, id))
  }

  predicate FromStack(m: Mem, id: nat)
    requires id in m.blocks
  {
    (m.blocks[id].memtype == STACK && |m.blocks[id].data| >= SIZE_INT) || m.blocks[id].memtype == FREED
  }

  ghost predicate Stays(m: Mem, n: Mem, id: nat)
    requires id in m.blocks
  {
    id in n.blocks && (m.blocks[id].memtype != STACK ==> n.blocks[id].memtype == m.blocks[id].memtype)
  }

  lemma {:induction false} GrowsRefl(m: Mem)
    requires MemOk(m)
    ensures Grows(m, m)
  {
    EvolvesRefl(m);
  }

  lemma {:induction false} GrowsTrans(a: Mem, b: Mem, c: Mem)
    requires Grows(a, b) && Grows(b, c)
    ensures Grows(a, c)
  {
    EvolvesTrans(a, b, c);
    forall id | id in a.blocks
      ensures Stays(a, c, id)
    {
      assert Stays(a, b, id) && Stays(b, c, id);
    }
    forall id | id in c.blocks && id !in a.blocks
      ensures FromStack(c, id)
    {
      if id in b.blocks {
        assert FromStack(b, id) && Issued(b, id) && Survives(b, c, id);
      }
    }
  }

  lemma {:induction false} CreateOwned(m: Mem, ids: seq<nat>, data: seq<byte>)
    requires MemOk(m) && m.next != 0 && Owned(m, ids) && |data| >= SIZE_INT
    ensures var n := Created(m, Block(STACK, data)); Grows(m, n) && Owned(n, ids + [m.next])
  {
    var n := Created(m, Block(STACK, data));
    CreatedEvolves(m, Block(STACK, data));
    forall i | 0 <= i < |ids|
      ensures IsVar(n, ids[i]) && ids[i] < m.next
    {
      assert IsVar(m, ids[i]);
    }
    forall id | id in n.blocks && n.blocks[id].memtype == STACK
      ensures id in ids + [m.next]
    {
      if id == m.next {
        assert (ids + [m.next])[|ids|] == id;
      }
    }
  }

  lemma {:induction false} StoreOwned(m: Mem, ids: seq<nat>, id: nat, bytes: seq<byte>)
    requires MemOk(m) && Owned(m, ids) && id in m.blocks && |bytes| <= |m.blocks[id].data|
    ensures var w := Stored(m, id, 0, bytes); Grows(m, w) && Owned(w, ids)
  {
    var w := Stored(m, id, 0, bytes);
    StoredEvolves(m, id, 0, bytes);
    forall i | 0 <= i < |ids|
      ensures IsVar(w, ids[i])
    {
      assert IsVar(m, ids[i]);
    }
  }

  predicate InFrame(f: Frame, k: nat, id: nat)
    requires k <= |f|
  {
    exists i :: 0 <= i < k && f[i].block == id
  }

  /** The blocks of the frame are freed, and nothing else changes. */
  lemma {:induction false} RetireFrameEffect(m: Mem, f: Frame, k: nat)
    requires k <= |f| && MemOk(m)
    ensures var r := RetireFrame(m, f, k);
            r.next == m.next && r.blocks.Keys == m.blocks.Keys &&
            forall id :: id in m.blocks ==>
              r.blocks[id] == if InFrame(f, k, id) then m.blocks[id].(memtype := FREED) else m.blocks[id]
  {
    if k > 0 {
      RetireFrameEffect(m, f, k - 1);
      forall id
        ensures InFrame(f, k, id) <==> InFrame(f, k - 1, id) || id == f[k - 1].block
      {
        if InFrame(f, k - 1, id) {
          var i :| 0 <= i < k - 1 && f[i].block == id;
        }
      }
    }
  }

  lemma {:induction false} RetireOwned(m: Mem, ids: seq<nat>, f: Frame)
    requires MemOk(m) && Owned(m, ids + FrameIds(f))
    ensures var r := RetireFrame(m, f, |f|); Grows(m, r) && Owned(r, ids)
  {
    var r, fids := RetireFrame(m, f, |f|), FrameIds(f);
    var all := ids + fids;
    RetireFrameEffect(m, f, |f|);
    forall i | 0 <= i < |ids|
      ensures IsVar(r, ids[i])
    {
      assert all[i] == ids[i] && IsVar(m, all[i]);
      forall j | 0 <= j < |f|
        ensures f[j].block != ids[i]
      {
        assert all[|ids| + j] == f[j].block;
      }
      assert !InFrame(f, |f|, ids[i]);
    }
    forall id | id in r.blocks && r.blocks[id].memtype == STACK
      ensures id in ids
    {
      assert !InFrame(f, |f|, id) && id in all;
      assert id !in fids;
    }
    forall i, j | 0 <= i < j < |ids|
      ensures ids[i] < ids[j]
    {
      assert all[i] < all[j];
    }
    forall i | 0 <= i < |f|
      ensures IsVar(m, f[i].block)
    {
      assert all[|ids| + i] == f[i].block;
    }
    RetireGrows(m, f);
  }

  lemma {:induction false} RetireGrows(m: Mem, f: Frame)
    requires MemOk(m) && forall i :: 0 <= i < |f| ==> IsVar(m, f[i].block)
    ensures Grows(m, RetireFrame(m, f, |f|))
  {
    RetireFrameEffect(m, f, |f|);
  }

  // ----- Statements and expressions -----

  /** The depth and all frames below the top are the same, and the old top is a prefix of the new one. */
  predicate Extends(fs: seq<Frame>, gs: seq<Frame>) {
    |gs| == |fs| && fs[..|fs| - (if fs == [] then 0 else 1)] == gs[..|fs| - (if fs == [] then 0 else 1)] &&
    (fs != [] ==> fs[|fs| - 1] <= gs[|fs| - 1])
  }

  /** From `st` to `t`, in memory. */
  ghost predicate KeptMemory(st: State, t: State) {
    Conserved(st) ==> Grows(st.mem, t.mem) && Conserved(t)
  }

  /** From `st` to `t`, around a statement. */
  ghost predicate Kept(st: State, t: State) {
    Extends(st.frames, t.frames) && t.source == st.source && KeptMemory(st, t)
  }

  /** From `st` to `t`, around an expression. */
  ghost predicate Quiet(st: State, t: State) {
    t.frames == st.frames && t.source == st.source && KeptMemory(st, t)
  }

  lemma {:induction false} MemoryTrans(a: State, b: State, c: State)
    requires KeptMemory(a, b) && KeptMemory(b, c)
    ensures KeptMemory(a, c)
  {
    if Conserved(a) {
      GrowsTrans(a.mem, b.mem, c.mem);
    }
  }

  lemma {:induction false} KeptTrans(a: State, b: State, c: State)
    requires Kept(a, b) && Kept(b, c)
    ensures Kept(a, c)
  {
    MemoryTrans(a, b, c);
  }

  lemma {:induction false} QuietTrans(a: State, b: State, c: State)
    requires Quiet(a, b) && Quiet(b, c)
    ensures Quiet(a, c)
  {
    MemoryTrans(a, b, c);
  }

  lemma {:induction false} QuietRefl(st: State)
    ensures Quiet(st, st)
  {
    if Conserved(st) {
      GrowsRefl(st.mem);
    }
  }

  lemma {:induction false} QuietIsKept(a: State, b: State)
    requires Quiet(a, b)
    ensures Kept(a, b)
  {
  }

  lemma {:induction false} PushKeeps(st: State)
    requires Conserved(st)
    ensures Conserved(Push(st))
  {
    AllIdsPush(st.frames);
  }

  /** Leaving a frame restores the stack exactly, and frees the blocks of that frame. */
  lemma {:induction false} PopKeeps(st: State, t: State)
    requires Kept(Push(st), t)
    ensures t.frames != [] && Quiet(st, Pop(t))
  {
    assert DropFrame(t.frames) == DropFrame(PushFrame(st.frames)) == st.frames;
    if Conserved(st) {
      PushKeeps(st);
      AllIdsDrop(t.frames);
      RetireOwned(t.mem, AllIds(st.frames, |st.frames|), t.frames[|t.frames| - 1]);
      GrowsTrans(st.mem, t.mem, Pop(t).mem);
    }
  }

  /** A new variable, in a new block of any size from that of an `int` on. */
  lemma {:induction false} BindKeeps(st: State, name: string, data: seq<byte>)
    requires st.frames != [] && st.mem.next != 0 && |data| >= SIZE_INT
    ensures Kept(st, st.(frames := AddBinding(st.frames, Binding(name, st.mem.next)),
                         mem := Created(st.mem, Block(STACK, data))))
  {
    AllIdsAdd(st.frames, Binding(name, st.mem.next));
    if Conserved(st) {
      CreateOwned(st.mem, AllIds(st.frames, |st.frames|), data);
    }
  }

  lemma {:induction false} DeclaredKeeps(st: State, name: string, o: Out)
    requires Declared(st, name, o).Ok?
    ensures Kept(st, Declared(st, name, o).st)
  {
    hide EncodeNum, Kept;
    BindKeeps(st, name, EncodeNum(o.n));
  }

  lemma {:induction false} StoreKeeps(st: State, id: nat, bytes: seq<byte>)
    requires id in st.mem.blocks && |bytes| <= |st.mem.blocks[id].data|
    ensures Quiet(st, st.(mem := Stored(st.mem, id, 0, bytes)))
  {
    if Conserved(st) {
      StoreOwned(st.mem, AllIds(st.frames, |st.frames|), id, bytes);
    }
  }

  lemma {:induction false} SetKeeps(p: Program, st: State, op: StoreOp, g: Option<Global>, o: Out)
    requires SetVar(p, st, op, g, o).Ok?
    ensures Quiet(st, SetVar(p, st, op, g, o).st)
  {
    hide EncodeNum, Quiet, Stored;
    var r := SetVar(p, st, op, g, o);
    StoreKeeps(st, g.value.block, EncodeNum(r.out.n));
  }

  // ----- The executor -----

  lemma {:induction false} EvalKeeps(p: Program, e: Expr, fuel: nat, st: State)
    requires Eval(p, e, fuel, st).Ok?
    ensures Quiet(st, Eval(p, e, fuel, st).st)
    decreases fuel, e, 0
  {
    hide Quiet, Lookup, Callee, SetVar;
    match e
    case Lit(_) => QuietRefl(st);
    case Var(_) => QuietRefl(st);
    case Set(op, x, r) =>
      EvalKeeps(p, r, fuel, st);
      var s := Eval(p, r, fuel, st);
      SetKeeps(p, s.st, op, Lookup(p, s.st, x), s.out);
      QuietTrans(st, s.st, Eval(p, e, fuel, st).st);
    case Unary(_, a) => EvalKeeps(p, a, fuel, st);
    case Binary(_, l, r) =>
      EvalKeeps(p, r, fuel, st);
      var s := Eval(p, r, fuel, st).st;
      EvalKeeps(p, l, fuel, s);
      QuietTrans(st, s, Eval(p, l, fuel, s).st);
    case Call(f, args) => CallKeeps(p, Callee(p, Lookup(p, st, f)).value, args, fuel, st);
  }

  /** A body run in another file, seen from the file of the caller. */
  lemma {:induction false} KeptFromSource(a: State, source: nat, b: State)
    requires Kept(a.(source := source), b)
    ensures Kept(a, b.(source := a.source))
  {
  }

  lemma {:induction false} CallKeeps(p: Program, fn: Func, args: Exprs, fuel: nat, st: State)
    requires fuel > 0 && CallFn(p, fn, args, fuel, st).Ok?
    ensures Quiet(st, CallFn(p, fn, args, fuel, st).st)
    decreases fuel, args, 1
  {
    hide Quiet, Kept, Declared;
    ArgsKeep(p, fn.params, 0, args, fuel, Push(st));
    var s := EvalArgs(p, fn.params, 0, args, fuel, Push(st)).st;
    var entered := s.(source := fn.source);
    ExecKeeps(p, fn.body, fuel - 1, entered);
    var t := Exec(p, fn.body, fuel - 1, entered).st;
    KeptFromSource(s, fn.source, t);
    KeptTrans(Push(st), s, t.(source := s.source));
    PopKeeps(st, t.(source := s.source));
  }

  lemma {:induction false} ArgsKeep(p: Program, params: seq<string>, i: nat, args: Exprs, fuel: nat, st: State)
    requires EvalArgs(p, params, i, args, fuel, st).Ok?
    ensures Kept(st, EvalArgs(p, params, i, args, fuel, st).st)
    decreases fuel, args, 0
  {
    hide Quiet, Kept, Declared;
    match args
    case NoArgs =>
      QuietRefl(st);
      QuietIsKept(st, st);
    case Arg(e, rest) =>
      EvalKeeps(p, e, fuel, st);
      var s := Eval(p, e, fuel, st);
      DeclaredAfter(st, s.st, if i < |params| then params[i] else "", s.out);
      var t := Passed(params, i, s).st;
      ArgsKeep(p, params, i + 1, rest, fuel, t);
      KeptTrans(st, t, EvalArgs(p, params, i, args, fuel, st).st);
  }

  lemma {:induction false} DeclaredAfter(st: State, s: State, name: string, o: Out)
    requires Quiet(st, s) && Declared(s, name, o).Ok?
    ensures Kept(st, Declared(s, name, o).st)
  {
    DeclaredKeeps(s, name, o);
    KeptTrans(st, s, Declared(s, name, o).st);
  }

  lemma {:induction false} ExecKeeps(p: Program, s: Stmt, fuel: nat, st: State)
    requires Exec(p, s, fuel, st).Ok?
    ensures Kept(st, Exec(p, s, fuel, st).st)
    decreases fuel, s, 3
  {
    hide Quiet, Kept, Pop;
    QuietRefl(st);
    QuietIsKept(st, st);
    match s
    case Compound(body) =>
      SeqKeeps(p, body, fuel, Push(st));
      LeaveKeeps(st, ExecSeq(p, body, fuel, Push(st)));
    case DeclStmt(ds) => DeclsKeep(p, ds, fuel, st);
    case ExprStmt(e) => ExprKept(p, e, fuel, st);
    case Return(e) => ExprKept(p, e, fuel, st);
    case If(_, _) => BranchKeeps(p, s, fuel, st);
    case IfElse(_, _, _) => BranchKeeps(p, s, fuel, st);
    case For(_, _, _, _) =>
      ForKeeps(p, s, fuel, Push(st));
      LeaveKeeps(st, ExecFor(p, s, fuel, Push(st)));
    case NullStmt =>
    case Switch(c, sub) => SwitchKeeps(p, c, sub, fuel, st);
    case Case(_, sub) => ExecKeeps(p, sub, fuel, st);
    case Default(sub) => ExecKeeps(p, sub, fuel, st);
    case Break =>
  }

  lemma {:induction false} ExprKept(p: Program, e: Expr, fuel: nat, st: State)
    requires Eval(p, e, fuel, st).Ok?
    ensures Kept(st, Eval(p, e, fuel, st).st)
    decreases fuel, e, 1
  {
    EvalKeeps(p, e, fuel, st);
    QuietIsKept(st, Eval(p, e, fuel, st).st);
  }

  lemma {:induction false} LeaveKeeps(st: State, r: Res)
    requires r.Ok? && Kept(Push(st), r.st)
    ensures Popped(r).Ok? && Quiet(st, Popped(r).st) && Kept(st, Popped(r).st)
  {
    PopKeeps(st, r.st);
    QuietIsKept(st, Pop(r.st));
  }

  lemma {:induction false} BranchKeeps(p: Program, s: Stmt, fuel: nat, st: State)
    requires (s.If? || s.IfElse?) && Exec(p, s, fuel, st).Ok?
    ensures Kept(st, Exec(p, s, fuel, st).st)
    decreases fuel, s, 0
  {
    hide Quiet, Kept;
    ExprKept(p, s.cond, fuel, st);
    var t := Eval(p, s.cond, fuel, st).st;
    match Tested(Eval(p, s.cond, fuel, st))
    case Zero(_) =>
      if s.IfElse? {
        ExecKeeps(p, s.elseBranch, fuel, t);
        KeptTrans(st, t, Exec(p, s, fuel, st).st);
      }
    case NonZero(_) =>
      ExecKeeps(p, s.thenBranch, fuel, t);
      KeptTrans(st, t, Exec(p, s, fuel, st).st);
  }

  lemma {:induction false} SeqKeeps(p: Program, ss: Stmts, fuel: nat, st: State)
    requires ExecSeq(p, ss, fuel, st).Ok?
    ensures Kept(st, ExecSeq(p, ss, fuel, st).st)
    decreases fuel, ss, 0
  {
    hide Quiet, Kept;
    if ss.End? {
      QuietRefl(st);
      QuietIsKept(st, st);
    } else {
      ExecKeeps(p, ss.s, fuel, st);
      var r := Exec(p, ss.s, fuel, st);
      if r.out == Out.Null {
        SeqKeeps(p, ss.rest, fuel, r.st);
        KeptTrans(st, r.st, ExecSeq(p, ss, fuel, st).st);
      }
    }
  }

  lemma {:induction false} ForKeeps(p: Program, s: Stmt, fuel: nat, st: State)
    requires s.For? && ExecFor(p, s, fuel, st).Ok?
    ensures Kept(st, ExecFor(p, s, fuel, st).st)
    decreases fuel, s, 2
  {
    hide Quiet, Kept;
    ExecKeeps(p, s.init, fuel, st);
    var r := Exec(p, s.init, fuel, st);
    if r.out == Out.Null {
      LoopKeeps(p, s, fuel, r.st);
      KeptTrans(st, r.st, ExecFor(p, s, fuel, st).st);
    }
  }

  lemma {:induction false} LoopKeeps(p: Program, s: Stmt, fuel: nat, st: State)
    requires s.For? && ExecLoop(p, s, fuel, st).Ok?
    ensures Kept(st, ExecLoop(p, s, fuel, st).st)
    decreases fuel, s, 1
  {
    hide Quiet, Kept;
    ExprKept(p, s.cond, fuel, st);
    var t := Eval(p, s.cond, fuel, st).st;
    if Tested(Eval(p, s.cond, fuel, st)).NonZero? {
      RoundKeeps(p, s, fuel, t);
      var r := ExecRound(p, s, fuel, t);
      KeptTrans(st, t, r.st);
      if r.out == Out.Null {
        LoopKeeps(p, s, fuel - 1, r.st);
        KeptTrans(st, r.st, ExecLoop(p, s, fuel, st).st);
      }
    }
  }

  lemma {:induction false} RoundKeeps(p: Program, s: Stmt, fuel: nat, st: State)
    requires s.For? && ExecRound(p, s, fuel, st).Ok?
    ensures Kept(st, ExecRound(p, s, fuel, st).st)
    decreases fuel, s, 0
  {
    hide Quiet, Kept;
    ExecKeeps(p, s.loop, fuel, st);
    var r := Exec(p, s.loop, fuel, st);
    if r.out == Out.Null {
      ExprKept(p, s.inc, fuel, r.st);
      KeptTrans(st, r.st, ExecRound(p, s, fuel, st).st);
    }
  }

  lemma {:induction false} DeclsKeep(p: Program, ds: Decls, fuel: nat, st: State)
    requires ExecDecls(p, ds, fuel, st).Ok?
    ensures Kept(st, ExecDecls(p, ds, fuel, st).st)
    decreases fuel, ds, 0
  {
    hide Quiet, Kept, Declared;
    match ds
    case NoDecls =>
      QuietRefl(st);
      QuietIsKept(st, st);
    case Uninitialised(x, rest) =>
      var t := Declared(st, x, Value(UninitInt(p.junk))).st;
      DeclaredKeeps(st, x, Value(UninitInt(p.junk)));
      DeclsKeep(p, rest, fuel, t);
      KeptTrans(st, t, ExecDecls(p, ds, fuel, st).st);
    case Initialised(x, e, rest) =>
      var first := Eval(p, e, fuel, st);
      EvalKeeps(p, e, fuel, st);
      EvalKeeps(p, e, fuel, first.st);
      var r := Eval(p, e, fuel, first.st);
      QuietTrans(st, first.st, r.st);
      var t := Initial(x, first.out, r).st;
      DeclaredAfter(st, r.st, x, Value(CastInt(r.out.n)));
      DeclsKeep(p, rest, fuel, t);
      KeptTrans(st, t, ExecDecls(p, ds, fuel, st).st);
  }

  lemma {:induction false} FindKeeps(p: Program, v: IntNum, ss: Stmts, fuel: nat, st: State)
    requires FindCase(p, v, ss, fuel, st).Found?
    ensures Kept(st, FindCase(p, v, ss, fuel, st).st)
    decreases fuel, ss, 0
  {
    hide Quiet, Kept;
    QuietRefl(st);
    QuietIsKept(st, st);
    if ss.Then? {
      if ss.s.Case? {
        ExprKept(p, ss.s.value, fuel, st);
        var r := Eval(p, ss.s.value, fuel, st);
        if v.val != r.out.n.val {
          FindKeeps(p, v, ss.rest, fuel, r.st);
          KeptTrans(st, r.st, FindCase(p, v, ss, fuel, st).st);
        }
      } else {
        FindKeeps(p, v, ss.rest, fuel, st);
      }
    }
  }

  lemma {:induction false} SwitchKeeps(p: Program, c: Expr, sub: Stmt, fuel: nat, st: State)
    requires ExecSwitch(p, sub, Eval(p, c, fuel, Push(st)), fuel).Ok?
    ensures var t := ExecSwitch(p, sub, Eval(p, c, fuel, Push(st)), fuel).st; Quiet(st, t) && Kept(st, t)
    decreases fuel, Switch(c, sub), 0
  {
    hide Quiet, Kept, Pop;
    var pushed := Push(st);
    ExprKept(p, c, fuel, pushed);
    var r := Eval(p, c, fuel, pushed);
    FindKeeps(p, r.out.n, sub.body, fuel, r.st);
    var found := FindCase(p, r.out.n, sub.body, fuel, r.st);
    KeptTrans(pushed, r.st, found.st);
    var run := if found.at.End? then DefaultIn(sub.body) else found.at;
    SeqKeeps(p, run, fuel, found.st);
    var last := ExecSeq(p, run, fuel, found.st);
    KeptTrans(pushed, found.st, last.st);
    LeaveKeeps(st, if last.out == BreakMark then Ok(Out.Null, last.st) else last);
  }

  // ----- What follows -----

  /** Compound statements, loops and switches restore the stack exactly, however they are left. */
  lemma {:induction false} BlocksRestoreStack(p: Program, s: Stmt, fuel: nat, st: State)
    requires (s.Compound? || s.For? || s.Switch?) && Exec(p, s, fuel, st).Ok?
    ensures Quiet(st, Exec(p, s, fuel, st).st)
  {
    hide Quiet, Kept, Pop;
    match s
    case Compound(body) =>
      SeqKeeps(p, body, fuel, Push(st));
      LeaveKeeps(st, ExecSeq(p, body, fuel, Push(st)));
    case For(_, _, _, _) =>
      ForKeeps(p, s, fuel, Push(st));
      LeaveKeeps(st, ExecFor(p, s, fuel, Push(st)));
    case Switch(c, sub) => SwitchKeeps(p, c, sub, fuel, st);
  }

  /** Where the stack is as before, the live variables are those of before and every new block is freed. */
  lemma {:induction false} NothingLeaks(st: State, t: State)
    requires Conserved(st) && Quiet(st, t)
    ensures forall id :: IsVar(t.mem, id) <==> IsVar(st.mem, id)
    ensures forall id :: id in t.mem.blocks && id !in st.mem.blocks ==> t.mem.blocks[id].memtype == FREED
  {
    var ids := AllIds(st.frames, |st.frames|);
    forall id
      ensures IsVar(t.mem, id) <==> id in ids
      ensures IsVar(st.mem, id) <==> id in ids
    {
    }
    forall id | id in t.mem.blocks && id !in st.mem.blocks
      ensures t.mem.blocks[id].memtype == FREED
    {
      assert FromStack(t.mem, id) && !IsVar(st.mem, id);
      assert id !in ids;
    }
  }

  /** From any state, a recorded position still resolves to the same variable after any statement. */
  lemma {:induction false} PositionsSurvive(p: Program, s: Stmt, fuel: nat, st: State, pos: Pos)
    requires InRange(st.frames, pos) && Exec(p, s, fuel, st).Ok?
    ensures var t := Exec(p, s, fuel, st).st;
            InRange(t.frames, pos) && t.frames[pos.level][pos.slot] == st.frames[pos.level][pos.slot] &&
            (Conserved(st) ==> IsVar(t.mem, t.frames[pos.level][pos.slot].block))
  {
    ExecKeeps(p, s, fuel, st);
    var t := Exec(p, s, fuel, st).st;
    ExtendsAt(st.frames, t.frames, pos);
    if Conserved(st) {
      BoundIsVar(t, pos);
    }
  }

  lemma {:induction false} ExtendsAt(fs: seq<Frame>, gs: seq<Frame>, pos: Pos)
    requires Extends(fs, gs) && InRange(fs, pos)
    ensures InRange(gs, pos) && gs[pos.level][pos.slot] == fs[pos.level][pos.slot]
  {
    if pos.level < |fs| - 1 {
      assert gs[..|fs| - 1][pos.level] == fs[..|fs| - 1][pos.level];
    }
  }

  lemma {:induction false} InAllIds(fs: seq<Frame>, n: nat, pos: Pos)
    requires n <= |fs| && pos.level < n && InRange(fs, pos)
    ensures fs[pos.level][pos.slot].block in AllIds(fs, n)
  {
    if pos.level < n - 1 {
      InAllIds(fs, n - 1, pos);
    } else {
      assert FrameIds(fs[n - 1])[pos.slot] == fs[pos.level][pos.slot].block;
    }
  }

  lemma {:induction false} BoundIsVar(st: State, pos: Pos)
    requires Conserved(st) && InRange(st.frames, pos)
    ensures IsVar(st.mem, st.frames[pos.level][pos.slot].block)
  {
    InAllIds(st.frames, |st.frames|, pos);
  }

  // ----- Safety of variable accesses -----

  /** Every file-level variable is in a block of its own kind and of the size of an `int`. */
  predicate GlobalsOk(p: Program, m: Mem) {
    forall source, name :: source in p.locals && name in p.locals[source] && p.locals[source][name].IntVar? ==>
      GlobalVar(m, p.locals[source][name].block)
  }

  predicate GlobalVar(m: Mem, id: nat) {
    id in m.blocks && m.blocks[id].memtype == GLOBAL && |m.blocks[id].data| == SIZE_INT
  }

  lemma {:induction false} GlobalsStay(p: Program, m: Mem, n: Mem)
    requires MemOk(m) && GlobalsOk(p, m) && Grows(m, n)
    ensures GlobalsOk(p, n)
  {
    forall source, name | source in p.locals && name in p.locals[source] && p.locals[source][name].IntVar?
      ensures GlobalVar(n, p.locals[source][name].block)
    {
      var id := p.locals[source][name].block;
      assert GlobalVar(m, id) && Issued(m, id) && Stays(m, n, id) && Survives(m, n, id);
    }
  }

  /** Every live stack block has room for an `int`. */
  predicate Wide(m: Mem) {
    forall id :: id in m.blocks && m.blocks[id].memtype == STACK ==> |m.blocks[id].data| >= SIZE_INT
  }

  lemma {:induction false} WideStays(m: Mem, n: Mem)
    requires MemOk(m) && Wide(m) && Grows(m, n)
    ensures Wide(n)
  {
    forall id | id in n.blocks && n.blocks[id].memtype == STACK
      ensures |n.blocks[id].data| >= SIZE_INT
    {
      if id in m.blocks {
        assert Issued(m, id) && Survives(m, n, id) && Stays(m, n, id);
      } else {
        assert FromStack(n, id);
      }
    }
  }

  /** Reading a variable fails exactly when the name stands for none: never on a freed or a short block. */
  lemma {:induction false} ReadsAreSafe(p: Program, st: State, name: string)
    requires Conserved(st) && GlobalsOk(p, st.mem) && Wide(st.mem)
    ensures ReadVar(st, Lookup(p, st, name)).Ok? <==>
            Lookup(p, st, name).Some? && Lookup(p, st, name).value.IntVar?
  {
    match Scan(st.frames, |st.frames|, name)
    case Some(pos) => BoundIsVar(st, pos);
    case None =>
  }

  /** The same in every state that a statement leads to. */
  lemma {:induction false} ReadsStaySafe(p: Program, s: Stmt, fuel: nat, st: State, name: string)
    requires Conserved(st) && GlobalsOk(p, st.mem) && Wide(st.mem) && Exec(p, s, fuel, st).Ok?
    ensures var t := Exec(p, s, fuel, st).st;
            ReadVar(t, Lookup(p, t, name)).Ok? <==>
            Lookup(p, t, name).Some? && Lookup(p, t, name).value.IntVar?
  {
    ExecKeeps(p, s, fuel, st);
    var t := Exec(p, s, fuel, st).st;
    GlobalsStay(p, st.mem, t.mem);
    WideStays(st.mem, t.mem);
    ReadsAreSafe(p, t, name);
  }

  /**
   A whole run, started without stack blocks: when `main` has returned, every block that any call or
   statement made for a variable has been freed, and no other block has been freed or deleted.
   */
  lemma {:induction false} WholeRun(p: Program, mainSource: Option<nat>, fuel: nat, m: Mem, source: nat)
    requires MemOk(m) && forall id :: id in m.blocks ==> m.blocks[id].memtype != STACK
    requires RunMain(p, mainSource, fuel, State([], m, source)).Ok? && MainOf(p, mainSource).value.body.Compound?
    ensures var t := RunMain(p, mainSource, fuel, State([], m, source)).st;
            t.frames == [[]] && t.source == mainSource.value && Grows(m, t.mem) &&
            (forall id :: id in m.blocks ==> t.mem.blocks[id].memtype == m.blocks[id].memtype) &&
            (forall id :: id in t.mem.blocks && id !in m.blocks ==> t.mem.blocks[id].memtype == FREED)
  {
    hide Conserved, Owned;
    var st := State([], m, source);
    InitiallyConserved(m, source);
    var pushed := Push(st).(source := mainSource.value);
    PushKeeps(st);
    SourceAside(Push(st), mainSource.value);
    BlocksRestoreStack(p, MainOf(p, mainSource).value.body, fuel, pushed);
    var t := RunMain(p, mainSource, fuel, st).st;
    NothingLeaks(pushed, t);
    forall id | id in m.blocks
      ensures id in t.mem.blocks && t.mem.blocks[id].memtype == m.blocks[id].memtype
    {
      assert Stays(m, t.mem, id);
    }
  }

  lemma {:induction false} SourceAside(st: State, source: nat)
    requires Conserved(st)
    ensures Conserved(st.(source := source))
  {
  }
}
