/**
 The variables of a state of the executor as the cells of `CSemantics`: one cell for each stack variable,
 and how writing, declaring, pushing and popping change them.
 */
module CVariables {
  import opened Options
  import opened Numbers
  import opened Values
  import opened Memory
  import opened Frames
  import opened RefExec
  import opened Discipline
  import opened EvalOrder
  import C = CSemantics

  /** In some file the name stands for a function. */
  predicate FunctionName(p: Program, x: string) {
    exists source :: source in p.locals && x in p.locals[source] && p.locals[source][x].Function?
  }

  // ----- The variables of a state -----

  /** All stack variables, outermost first. */
  function Flat(fs: seq<Frame>, n: nat): seq<Binding>
    requires n <= |fs|
  {
    if n == 0 then [] else Flat(fs, n - 1) + fs[n - 1]
  }

  function All(st: State): seq<Binding> {
    Flat(st.frames, |st.frames|)
  }

  lemma {:induction false} FlatLocal(fs: seq<Frame>, gs: seq<Frame>, n: nat)
    requires n <= |fs| && n <= |gs| && forall i :: 0 <= i < n ==> fs[i] == gs[i]
    ensures Flat(fs, n) == Flat(gs, n)
  {
    if n > 0 {
      FlatLocal(fs, gs, n - 1);
    }
  }

  lemma {:induction false} FlatPush(fs: seq<Frame>)
    ensures Flat(PushFrame(fs), |fs| + 1) == Flat(fs, |fs|)
  {
    FlatLocal(PushFrame(fs), fs, |fs|);
  }

  lemma {:induction false} FlatAdd(fs: seq<Frame>, b: Binding)
    requires fs != []
    ensures Flat(AddBinding(fs, b), |fs|) == Flat(fs, |fs|) + [b]
  {
    FlatLocal(AddBinding(fs, b), fs, |fs| - 1);
  }

  lemma {:induction false} FlatDrop(fs: seq<Frame>)
    requires fs != []
    ensures Flat(fs, |fs|) == Flat(DropFrame(fs), |fs| - 1) + fs[|fs| - 1]
  {
    FlatLocal(DropFrame(fs), fs, |fs| - 1);
  }

  /** `bs[j]` is the last one with the name. */
  predicate LastAt(bs: seq<Binding>, j: nat, x: string) {
    j < |bs| && bs[j].name == x && forall k :: j < k < |bs| ==> bs[k].name != x
  }

  lemma {:induction false} ScanFrameLast(f: Frame, k: nat, x: string)
    requires k <= |f|
    ensures match ScanFrame(f, k, x)
            case None => forall j :: 0 <= j < k ==> f[j].name != x
            case Some(slot) => LastAt(f[..k], slot, x)
  {
    if k > 0 {
      ScanFrameLast(f, k - 1, x);
    }
  }

  lemma {:induction false} ScanIsLast(fs: seq<Frame>, n: nat, x: string) returns (j: nat)
    requires n <= |fs|
    ensures match Scan(fs, n, x)
            case None => forall k :: 0 <= k < |Flat(fs, n)| ==> Flat(fs, n)[k].name != x
            case Some(pos) => LastAt(Flat(fs, n), j, x) && Flat(fs, n)[j] == fs[pos.level][pos.slot]
  {
    j := 0;
    if n > 0 {
      var f := fs[n - 1];
      j := ScanIsLast(fs, n - 1, x);
      ScanFrameLast(f, |f|, x);
      assert f[..|f|] == f;
      match ScanFrame(f, |f|, x)
      case None =>
      case Some(slot) => j := |Flat(fs, n - 1)| + slot;
    }
  }

  // ----- States and environments -----

  /** The block of the variable is live and holds the value, if there is one. */
  ghost predicate Represents(p: Program, m: Mem, b: Binding, c: C.Cell) {
    && b.name == c.name && !FunctionName(p, c.name)
    && b.block in m.blocks && m.blocks[b.block].memtype != FREED && |m.blocks[b.block].data| >= SIZE_INT
    && (c.val.Some? ==> InRangeInt(c.val.value) && ReadInt(m, b.block) == Some(IntOf(c.val.value)))
  }

  predicate Distinct(bs: seq<Binding>) {
    forall i, j :: 0 <= i < j < |bs| ==> bs[i].block != bs[j].block
  }

  /** The stack variables are those of `cells`, in that order, and `room` more can be made. */
  ghost predicate Mirrors(p: Program, st: State, cells: seq<C.Cell>, room: nat) {
    && MemOk(st.mem) && 0 < st.mem.next && st.mem.next + room < ID_LIMIT
    && |All(st)| == |cells| && Distinct(All(st))
    && forall i :: 0 <= i < |cells| ==> Represents(p, st.mem, All(st)[i], cells[i])
  }

  lemma {:induction false} NameOfVariable(p: Program, st: State, cells: seq<C.Cell>, room: nat, x: string)
    requires Mirrors(p, st, cells, room)
    ensures match C.Find(cells, x)
            case None => Scan(st.frames, |st.frames|, x) == None
            case Some(i) => Lookup(p, st, x) == Some(IntVar(All(st)[i].block)) && Names(p, st, x, All(st)[i].block)
  {
    hide MemOk, FunctionName, IntOf, IntAt;
    var bs := All(st);
    var j := ScanIsLast(st.frames, |st.frames|, x);
    assert forall k :: 0 <= k < |cells| ==> bs[k].name == cells[k].name by {
      assert forall k :: 0 <= k < |cells| ==> Represents(p, st.mem, bs[k], cells[k]);
    }
    match C.Find(cells, x)
    case None =>
    case Some(i) =>
      assert Represents(p, st.mem, bs[i], cells[i]);
      assert bs[i].name == x;
      assert LastAt(bs, j, x);
      assert i == j;
  }

  lemma {:induction false} NameOfFunction(p: Program, st: State, cells: seq<C.Cell>, room: nat, f: string)
    requires Mirrors(p, st, cells, room) && Callee(p, NonStack(p, st.source, f)).Some?
    ensures Lookup(p, st, f) == NonStack(p, st.source, f)
  {
    hide MemOk, IntOf, IntAt;
    assert FunctionName(p, f);
    var j := ScanIsLast(st.frames, |st.frames|, f);
    forall k | 0 <= k < |cells|
      ensures All(st)[k].name != f
    {
      assert Represents(p, st.mem, All(st)[k], cells[k]);
    }
  }

  // ----- Steps -----

  lemma {:induction false} MirrorWrite(p: Program, st: State, cells: seq<C.Cell>, room: nat, i: nat, v: int)
    requires Mirrors(p, st, cells, room) && i < |cells| && InRangeInt(v)
    ensures var r := WriteRes(st, All(st)[i].block, IntOf(v));
            r.Ok? && r.out == Value(IntOf(v)) && r.st == st.(mem := r.st.mem) &&
            Mirrors(p, r.st, cells[i := cells[i].(val := Some(v))], room)
  {
    hide FunctionName, IntOf, IntAt, EncodeNum, Flat;
    var bs := All(st);
    assert Represents(p, st.mem, bs[i], cells[i]);
    var r := WriteRes(st, bs[i].block, IntOf(v));
    DefinedInt(v);
    StoredEvolves(st.mem, bs[i].block, 0, EncodeNum(IntOf(v)));
    assert All(r.st) == bs;
    forall k | 0 <= k < |cells|
      ensures Represents(p, r.st.mem, bs[k], cells[i := cells[i].(val := Some(v))][k])
    {
      assert Represents(p, st.mem, bs[k], cells[k]);
      ReadAfterWrite(st.mem, bs[i].block, IntOf(v), bs[k].block);
      assert k != i ==> bs[k].block != bs[i].block;
    }
  }

  /** A new variable that holds `n`, which is the number for `val` if there is one. */
  lemma {:induction false} MirrorDeclare(
      p: Program, st: State, cells: seq<C.Cell>, room: nat, x: string, n: IntNum, val: Option<int>)
    requires Mirrors(p, st, cells, room) && room > 0 && st.frames != [] && !FunctionName(p, x)
    requires val.Some? ==> InRangeInt(val.value) && n == IntOf(val.value)
    ensures var r := Declared(st, x, Value(n));
            r.Ok? && r.out == Out.Null && r.st.frames != [] && r.st.source == st.source &&
            Mirrors(p, r.st, cells + [C.Cell(x, val)], room - 1)
  {
    hide FunctionName, IntOf, IntAt, EncodeNum, Flat;
    var bs, b := All(st), Binding(x, st.mem.next);
    var r := Declared(st, x, Value(n));
    FlatAdd(st.frames, b);
    assert All(r.st) == bs + [b];
    CreatedEvolves(st.mem, Block(STACK, EncodeNum(n)));
    SizeOfInt(n);
    forall k | 0 <= k < |cells|
      ensures Represents(p, r.st.mem, bs[k], cells[k]) && bs[k].block != b.block
    {
      assert Represents(p, st.mem, bs[k], cells[k]);
    }
    if val.Some? {
      DefinedInt(val.value);
      IntAtNew(n);
    }
    assert Represents(p, r.st.mem, b, C.Cell(x, val));
  }

  lemma {:induction false} SizeOfInt(n: IntNum)
    ensures |EncodeNum(n)| == SIZE_INT
  {
  }

  lemma {:induction false} MirrorPush(p: Program, st: State, cells: seq<C.Cell>, room: nat)
    requires Mirrors(p, st, cells, room)
    ensures Mirrors(p, Push(st), cells, room)
  {
    FlatPush(st.frames);
  }

  lemma {:induction false} MirrorPop(p: Program, t: State, cells: seq<C.Cell>, room: nat)
    requires Mirrors(p, t, cells, room) && t.frames != []
    ensures |All(Pop(t))| <= |cells| && Mirrors(p, Pop(t), cells[..|All(Pop(t))|], room)
  {
    hide FunctionName, IntOf, IntAt, Flat;
    var f, bs := t.frames[|t.frames| - 1], All(t);
    FlatDrop(t.frames);
    var low := All(Pop(t));
    assert bs == low + f;
    RetireFrameEffect(t.mem, f, |f|);
    forall k | 0 <= k < |low|
      ensures Represents(p, Pop(t).mem, low[k], cells[k])
    {
      assert Represents(p, t.mem, bs[k], cells[k]);
      assert bs[k] == low[k];
      forall j | 0 <= j < |f|
        ensures f[j].block != low[k].block
      {
        assert bs[|low| + j] == f[j];
      }
      assert !InFrame(f, |f|, low[k].block);
    }
    forall i, j | 0 <= i < j < |low|
      ensures low[i].block != low[j].block
    {
      assert bs[i] == low[i] && bs[j] == low[j];
    }
    assert MemOk(Pop(t).mem);
  }
}
