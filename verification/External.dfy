/**
 The built-in functions (external.cpp): `malloc` and `free`, which make and delete heap blocks, and the
 `va_start` macro, which stores the stack position of one variable in the storage of another.

 The arguments of a call are the variables of the top frame; `ty` is the type of the first one. They are
 read as Values.dfy reads them: the size passed to `malloc` is a number that is recognised by the tag of its
 own kind (types.h:252-263). As written the tag of `int` is the only one known, and `MallocAsWritten` says
 what `malloc` then does.
 */
module External {
  import opened Options
  import opened Words
  import opened Numbers
  import opened Values
  import opened ValueProofs
  import opened Memory
  import opened Frames
  import opened RefExec
  import opened Discipline
  import opened Machines

  /** The value of the first argument; None is an aborted run. */
  function FirstArgument(st: State, ty: Ty, funcs: set<nat>): Option<Val> {
    if st.frames == [] || st.frames[|st.frames| - 1] == [] then None
    else ReadBlock(st.mem, ty, st.frames[|st.frames| - 1][0].block, 0, funcs)
  }

  method ReadFirst(m: Machine, ty: Ty, funcs: set<nat>) returns (r: Option<Val>)
    ensures r == FirstArgument(m.St(), ty, funcs)
  {
    hide ReadBlock;
    if m.stackVars == [] || m.stackVars[|m.stackVars| - 1] == [] {
      return None;
    }
    var vars := m.stackVars[|m.stackVars| - 1];
    return ReadBlock(Mem(m.activeMem, m.idCounter), ty, vars[0].block, 0, funcs);
  }

  // ----- malloc and free -----

  /** The number of bytes asked for, when the argument is a defined unsigned long. */
  function MallocSize(ty: Ty, arg: Option<Val>): Option<nat> {
    if ty == TNum(ULong) && arg.Some? && arg.value.VNum? && arg.value.n.status == DEFINED
    then Some(arg.value.n.val) else None
  }

  /** What `malloc` does to memory: None is an aborted run; `fill` is what fresh bytes happen to hold. */
  function Malloc(mem: Mem, size: Option<nat>, fill: byte): Option<Mem> {
    if size.None? then None else Memory.Step(mem, Create(HEAP, seq(size.value, _ => fill)))
  }

  method EmuMalloc(m: Machine, ty: Ty, funcs: set<nat>, fill: byte) returns (r: Option<nat>)
    requires m.Valid()
    modifies m
    ensures m.Valid()
    ensures var mem := Malloc(old(m.St()).mem, MallocSize(ty, FirstArgument(old(m.St()), ty, funcs)), fill);
            if mem.None? then r == None && m.St() == old(m.St())
            else r == Some(old(m.idCounter)) && m.St() == old(m.St()).(mem := mem.value)
  {
    hide IndexOk, FirstArgument;
    var arg := ReadFirst(m, ty, funcs);
    var size := MallocSize(ty, arg);
    if size.None? {
      return None;
    }
    r := m.NewBlock(HEAP, seq(size.value, _ => fill));
  }

  /** The block to free, when the argument is a defined pointer. */
  function FreeTarget(ty: Ty, arg: Option<Val>): Option<nat> {
    if ty.TPtr? && arg.Some? && arg.value.VPtr? && arg.value.status == DEFINED && arg.value.ref.BlockRef?
    then Some(arg.value.ref.id) else None
  }

  function Free(mem: Mem, target: Option<nat>): Option<Mem> {
    if target.None? then None else Memory.Step(mem, Delete(target.value))
  }

  method EmuFree(m: Machine, ty: Ty, funcs: set<nat>) returns (ok: bool)
    requires m.Valid()
    modifies m
    ensures m.Valid()
    ensures var mem := Free(old(m.St()).mem, FreeTarget(ty, FirstArgument(old(m.St()), ty, funcs)));
            if mem.None? then !ok && m.St() == old(m.St())
            else ok && m.St() == old(m.St()).(mem := mem.value)
  {
    hide IndexOk, FirstArgument;
    var arg := ReadFirst(m, ty, funcs);
    var target := FreeTarget(ty, arg);
    if target.None? || target.value !in m.activeMem || m.activeMem[target.value].memtype == FREED {
      return false;
    }
    m.activeMem := m.activeMem - {target.value};
    return true;
  }

  /** The first variable of the top frame is in a live block, which holds `data`. */
  predicate Argument(st: State, data: seq<byte>) {
    st.frames != [] && st.frames[|st.frames| - 1] != [] &&
    var id := st.frames[|st.frames| - 1][0].block;
    id in st.mem.blocks && st.mem.blocks[id].memtype != FREED && st.mem.blocks[id].data == data
  }

  /**
   The argument of `malloc` as a call stored it: an uninitialised one aborts, and so does one whose tag is
   not recognised. An undefined one does not: under its normal tag it loads as defined, and is used.
   */
  lemma {:induction false} MallocArgument(st: State, ty: Ty, n: Num, funcs: set<nat>)
    requires n.kind == ULong && NumOk(n) && Argument(st, EncodeNum(n))
    ensures MallocSize(TNum(ULong), FirstArgument(st, TNum(ULong), funcs)) ==
            if n.status != UNINITIALIZED && Recognised(n) then Some(n.val) else None
    ensures ty != TNum(ULong) ==> MallocSize(ty, FirstArgument(st, ty, funcs)) == None
  {
    hide ValueOf, FromLe, Le;
    var b := EncodeNum(n);
    SliceIsRange(b, 0, NumSize(ULong));
    assert b[0..NumSize(ULong)] == b;
    StoredTag(n);
    if n.status != UNINITIALIZED {
      LoadStored(n);
    }
  }

  /**
   As written, with the tag of `int` the only one known, the size is used exactly when it is stored under
   that tag, or is a zero under the zero tag: for every size under its own tag, `malloc` aborts.
   */
  lemma {:induction false} MallocAsWritten(n: Num)
    requires n.kind == ULong && NumOk(n)
    ensures MallocSize(TNum(ULong), Some(VNum(LoadNumAs(ULong, INT_ID, EncodeNum(n))))) ==
            if n.status != UNINITIALIZED && (n.tag == INT_ID || (n.tag == ZERO_ID && n.val == 0)) then Some(n.val)
            else None
    ensures n.tag == Id(ULong) ==> MallocSize(TNum(ULong), Some(VNum(LoadNumAs(ULong, INT_ID, EncodeNum(n))))) == None
  {
    hide ValueOf, FromLe, Le;
    StoredTag(n);
    if n.status != UNINITIALIZED {
      LoadStored(n);
    }
  }

  /** The argument of `free` as a call stored it: a pointer to an active block is freed, any other aborts. */
  lemma {:induction false} FreeArgument(st: State, ty: Ty, id: nat, o: nat, funcs: set<nat>)
    requires id < ID_LIMIT && o <= SIZE_MAX && Argument(st, EncodePtr(DEFINED, BlockRef(id), o))
    ensures ty.TPtr? ==>
              FreeTarget(ty, FirstArgument(st, ty, funcs)) == if id in st.mem.blocks then Some(id) else None
    ensures !ty.TPtr? ==> FreeTarget(ty, FirstArgument(st, ty, funcs)) == None
  {
    hide LoadPtr, EncodePtr;
    var tb := Active(st.mem, funcs);
    var b := EncodePtr(DEFINED, BlockRef(id), o);
    SliceIsRange(b, 0, SIZE_PTR);
    assert b[0..SIZE_PTR] == b;
    if id in tb.blocks {
      PtrLoadAfterStore(ty, BlockRef(id), o, tb);
    } else {
      DanglingLoadsUndefined(ty, id, o, tb);
    }
  }

  /** Every other block is the same in `n` as in `m`. */
  ghost predicate SameBut(m: Mem, n: Mem, id: nat) {
    forall o :: o != id ==> (o in n.blocks <==> o in m.blocks) && (o in m.blocks ==> n.blocks[o] == m.blocks[o])
  }

  /** `malloc` aborts exactly when no id is left; otherwise there is one more block, on the heap and of that size. */
  lemma {:induction false} MallocMakes(mem: Mem, size: nat, fill: byte)
    requires MemOk(mem)
    ensures Malloc(mem, None, fill) == None && (Malloc(mem, Some(size), fill).Some? <==> mem.next != 0)
    ensures mem.next != 0 ==>
              var m := Malloc(mem, Some(size), fill).value;
              mem.next !in mem.blocks && mem.next in m.blocks && m.blocks[mem.next].memtype == HEAP &&
              |m.blocks[mem.next].data| == size && SameBut(mem, m, mem.next) &&
              m.next == if mem.next == 0xFFFF_FFFF then 0 else mem.next + 1
  {
  }

  /** `free` aborts exactly when the block is gone or was retired; otherwise that block and no other is gone. */
  lemma {:induction false} FreeRemoves(mem: Mem, id: nat)
    ensures Free(mem, None) == None
    ensures Free(mem, Some(id)).Some? <==> id in mem.blocks && mem.blocks[id].memtype != FREED
    ensures Free(mem, Some(id)).Some? ==>
              var m := Free(mem, Some(id)).value; id !in m.blocks && m.next == mem.next && SameBut(mem, m, id)
  {
  }

  /**
   A pointer that `malloc` returned loads as itself wherever it is stored, until the block is freed; from
   then on it loads as undefined, whatever else the program allocates, stores, retires or frees.
   */
  lemma {:induction false} MallocThenFree(
      mem: Mem, size: nat, fill: byte, ops: seq<MemOp>, later: seq<MemOp>, ty: Ty, o: nat, funcs: set<nat>)
    requires MemOk(mem) && mem.next != 0 && o <= SIZE_MAX
    requires var made := Malloc(mem, Some(size), fill).value;
             Memory.Run(made, ops).Some? && Free(Memory.Run(made, ops).value, Some(mem.next)).Some? &&
             Memory.Run(Free(Memory.Run(made, ops).value, Some(mem.next)).value, later).Some?
    ensures var used := Memory.Run(Malloc(mem, Some(size), fill).value, ops).value;
            var end := Memory.Run(Free(used, Some(mem.next)).value, later).value;
            LoadPtr(ty, EncodePtr(DEFINED, BlockRef(mem.next), o), Active(used, funcs)) ==
              VPtr(ty, DEFINED, BlockRef(mem.next), o) &&
            LoadPtr(ty, EncodePtr(DEFINED, BlockRef(mem.next), o), Active(end, funcs)).status == UNDEFINED
  {
    hide LoadPtr, EncodePtr, Free, Malloc;
    MallocMakes(mem, size, fill);
    var made := Malloc(mem, Some(size), fill).value;
    MadeEvolves(mem, size, fill);
    RunEvolves(made, ops);
    var used := Memory.Run(made, ops).value;
    FreeRemoves(used, mem.next);
    PtrLoadAfterStore(ty, BlockRef(mem.next), o, Active(used, funcs));
    var freed := Free(used, Some(mem.next)).value;
    FreedEvolves(used, mem.next);
    RunEvolves(freed, later);
    DeletedForever(freed, Memory.Run(freed, later).value, ty, mem.next, o, funcs);
  }

  lemma {:induction false} MadeEvolves(mem: Mem, size: nat, fill: byte)
    requires MemOk(mem) && mem.next != 0
    ensures Evolves(mem, Malloc(mem, Some(size), fill).value)
  {
    StepEvolves(mem, Create(HEAP, seq(size, _ => fill)));
  }

  lemma {:induction false} FreedEvolves(mem: Mem, id: nat)
    requires MemOk(mem) && Free(mem, Some(id)).Some?
    ensures Evolves(mem, Free(mem, Some(id)).value)
  {
    StepEvolves(mem, Delete(id));
  }

  // ----- va_start -----

  function PosVal(pos: Pos): Val {
    VStackPos(DEFINED, STACKPOS_ID, pos.level, pos.slot)
  }

  /** The argument of a macro is not evaluated: its stack position is passed, in a block of its own. */
  function PassPosition(st: State, name: string): Option<State> {
    var pos := Scan(st.frames, |st.frames|, name);
    if pos.None? || st.mem.next == 0 || st.frames == [] then None
    else Some(st.(frames := AddBinding(st.frames, Binding("", st.mem.next)),
                  mem := Created(st.mem, Block(STACK, Encode(PosVal(pos.value))))))
  }

  /** The stack position that a block holds. */
  function StoredPos(m: Mem, id: nat): Option<Pos> {
    if id in m.blocks && |m.blocks[id].data| >= SIZE_STACKPOS then
      var v := LoadStackPos(m.blocks[id].data[..SIZE_STACKPOS]);
      Some(Pos(v.level, v.num))
    else None
  }

  /** The body of `va_start` in the frame that holds its two positions. */
  function CallVaStart(st: State): Option<State> {
    if st.frames == [] || |st.frames[|st.frames| - 1]| < 2 then None
    else
      var vars := st.frames[|st.frames| - 1];
      var to, from := StoredPos(st.mem, vars[0].block), StoredPos(st.mem, vars[1].block);
      if to.None? || from.None? || !InRange(st.frames, to.value) then None
      else
        var storage := st.frames[to.value.level][to.value.slot].block;
        if storage !in st.mem.blocks || |st.mem.blocks[storage].data| < SIZE_STACKPOS then None
        else
          var loaded := LoadStackPos(st.mem.blocks[vars[1].block].data[..SIZE_STACKPOS]);
          Some(st.(mem := Stored(st.mem, storage, 0, Encode(loaded))))
  }

  /** `va_start(to, from)`; None is an aborted run. */
  function VaStart(st: State, to: string, from: string): Option<State> {
    match PassPosition(RefExec.Push(st), to)
    case None => None
    case Some(s) =>
      match PassPosition(s, from)
      case None => None
      case Some(t) =>
        match CallVaStart(t)
        case None => None
        case Some(u) => if u.frames == [] then None else Some(RefExec.Pop(u))
  }

  method EmuVaStart(m: Machine, to: string, from: string) returns (ok: bool)
    requires m.Valid()
    modifies m
    ensures ok <==> VaStart(old(m.St()), to, from).Some?
    ensures ok ==> m.Valid() && Some(m.St()) == VaStart(old(m.St()), to, from)
  {
    hide IndexOk, PassPosition, CallVaStart, RefExec.Pop, PushFrame;
    m.AddStackFrame();
    ok := PassMacroArgument(m, to);
    if ok {
      ok := PassMacroArgument(m, from);
    }
    if ok {
      ok := StorePosition(m);
    }
    if ok && m.stackVars != [] {
      m.PopStackFrame();
    } else {
      ok := false;
    }
  }

  method PassMacroArgument(m: Machine, name: string) returns (ok: bool)
    requires m.Valid()
    modifies m
    ensures ok <==> PassPosition(old(m.St()), name).Some?
    ensures ok ==> m.Valid() && Some(m.St()) == PassPosition(old(m.St()), name)
  {
    hide IndexOk, Created, Scan, Positions, Encode;
    IndexFindsScan(m.stackVarMap, m.stackVars, name);
    if name !in m.stackVarMap || m.stackVars == [] {
      return false;
    }
    var test := m.stackVarMap[name];
    var item := test[|test| - 1];
    var storage := m.NewBlock(STACK, Encode(PosVal(item)));
    if storage.None? {
      return false;
    }
    m.AddStackVar("", storage.value);
    return true;
  }

  method StorePosition(m: Machine) returns (ok: bool)
    requires m.Valid()
    modifies m
    ensures ok <==> CallVaStart(old(m.St())).Some?
    ensures ok ==> m.Valid() && Some(m.St()) == CallVaStart(old(m.St()))
  {
    hide IndexOk, StoredPos, Patch;
    if m.stackVars == [] || |m.stackVars[|m.stackVars| - 1]| < 2 {
      return false;
    }
    var vars := m.stackVars[|m.stackVars| - 1];
    var mem := Mem(m.activeMem, m.idCounter);
    var to, from := StoredPos(mem, vars[0].block), StoredPos(mem, vars[1].block);
    if to.None? || from.None? || !InRange(m.stackVars, to.value) {
      return false;
    }
    var storage := m.stackVars[to.value.level][to.value.slot].block;
    if storage !in m.activeMem || |m.activeMem[storage].data| < SIZE_STACKPOS {
      return false;
    }
    HasData(mem, vars[1].block);
    var loaded := LoadStackPos(m.activeMem[vars[1].block].data[..SIZE_STACKPOS]);
    m.activeMem := Stored(mem, storage, 0, Encode(loaded)).blocks;
    return true;
  }

  lemma {:induction false} HasData(m: Mem, id: nat)
    requires StoredPos(m, id).Some?
    ensures id in m.blocks && |m.blocks[id].data| >= SIZE_STACKPOS
  {
  }

  // ----- What va_start stores -----

  lemma {:induction false} ScanAdd(fs: seq<Frame>, b: Binding, name: string)
    requires fs != [] && b.name != name
    ensures var gs := AddBinding(fs, b); Scan(gs, |gs|, name) == Scan(fs, |fs|, name)
  {
    PositionsAdd(fs, b, name);
    LastPosition(fs, |fs|, name);
    LastPosition(AddBinding(fs, b), |fs|, name);
  }

  lemma {:induction false} ScanPush(fs: seq<Frame>, name: string)
    ensures var gs := PushFrame(fs); Scan(gs, |gs|, name) == Scan(fs, |fs|, name)
  {
    PositionsPush(fs, name);
    LastPosition(fs, |fs|, name);
    LastPosition(PushFrame(fs), |fs| + 1, name);
  }

  /** The position is in the new block, and that block is not one of the old ones. */
  lemma {:induction false} Passed(st: State, name: string, pos: Pos)
    requires MemOk(st.mem) && PassPosition(st, name).Some? && Scan(st.frames, |st.frames|, name) == Some(pos)
    requires pos.level < 0x1_0000_0000 && pos.slot < 0x1_0000_0000
    ensures var t := PassPosition(st, name).value;
            MemOk(t.mem) && StoredPos(t.mem, st.mem.next) == Some(pos) && st.mem.next !in st.mem.blocks &&
            LoadStackPos(t.mem.blocks[st.mem.next].data[..SIZE_STACKPOS]) == PosVal(pos) &&
            t.frames == AddBinding(st.frames, Binding("", st.mem.next)) && t.source == st.source &&
            forall id :: id in st.mem.blocks ==> id in t.mem.blocks && t.mem.blocks[id] == st.mem.blocks[id]
  {
    hide LoadStackPos, Scan;
    var t := PassPosition(st, name).value;
    CreatedEvolves(st.mem, Block(STACK, Encode(PosVal(pos))));
    StackPosLoadAfterStore(pos.level, pos.slot);
    assert t.mem.blocks[st.mem.next].data[..SIZE_STACKPOS] == Encode(PosVal(pos));
  }

  /** The state in which the body of `va_start` runs: the two positions are in the top frame. */
  ghost predicate Ready(st: State, t: State, n1: nat, n2: nat, a: Pos, b: Pos) {
    && MemOk(t.mem) && n1 !in st.mem.blocks && n2 !in st.mem.blocks && n1 != n2
    && t.frames == st.frames + [[Binding("", n1), Binding("", n2)]] && t.source == st.source
    && StoredPos(t.mem, n1) == Some(a) && StoredPos(t.mem, n2) == Some(b)
    && LoadStackPos(t.mem.blocks[n2].data[..SIZE_STACKPOS]) == PosVal(b)
    && forall id :: id in st.mem.blocks ==> id in t.mem.blocks && t.mem.blocks[id] == st.mem.blocks[id]
  }

  /** A scan finds the name at `pos`, whose level and slot fit in the 32-bit words that store them. */
  predicate Resolves(st: State, name: string, pos: Pos) {
    Scan(st.frames, |st.frames|, name) == Some(pos) && name != "" &&
    pos.level < 0x1_0000_0000 && pos.slot < 0x1_0000_0000
  }

  lemma {:induction false} TopFrame(fs: seq<Frame>, b: Binding, c: Binding)
    ensures AddBinding(AddBinding(PushFrame(fs), b), c) == fs + [[b, c]]
  {
    assert [] + [b] == [b] && [b] + [c] == [b, c];
  }

  lemma {:induction false} BothPassed(st: State, to: string, from: string, a: Pos, b: Pos)
    requires MemOk(st.mem) && Resolves(st, to, a) && Resolves(st, from, b)
    requires PassPosition(RefExec.Push(st), to).Some?
    requires PassPosition(PassPosition(RefExec.Push(st), to).value, from).Some?
    ensures var s := PassPosition(RefExec.Push(st), to).value;
            Ready(st, PassPosition(s, from).value, st.mem.next, s.mem.next, a, b)
  {
    hide Scan, PassPosition, LoadStackPos;
    var pushed := RefExec.Push(st);
    ScanPush(st.frames, to);
    ScanPush(st.frames, from);
    Passed(pushed, to, a);
    var s := PassPosition(pushed, to).value;
    ScanAdd(pushed.frames, Binding("", st.mem.next), from);
    Passed(s, from, b);
    TopFrame(st.frames, Binding("", st.mem.next), Binding("", s.mem.next));
  }

  /** The position of the second variable is in the storage of the first, and no other block has changed. */
  predicate HoldsPosition(st: State, t: State, storage: nat, pos: Pos) {
    && t.frames == st.frames && t.source == st.source && StoredPos(t.mem, storage) == Some(pos)
    && forall id :: id in st.mem.blocks && id != storage ==> id in t.mem.blocks && t.mem.blocks[id] == st.mem.blocks[id]
  }

  lemma {:induction false} CallStores(st: State, t: State, n1: nat, n2: nat, a: Pos, b: Pos)
    requires Ready(st, t, n1, n2, a, b) && InRange(st.frames, a) && CallVaStart(t).Some?
    requires st.frames[a.level][a.slot].block in st.mem.blocks
    requires b.level < 0x1_0000_0000 && b.slot < 0x1_0000_0000
    ensures var u, storage := CallVaStart(t).value, st.frames[a.level][a.slot].block;
            MemOk(u.mem) && u.frames == t.frames && u.source == st.source && StoredPos(u.mem, storage) == Some(b) &&
            forall id :: id in st.mem.blocks && id != storage ==>
              id in u.mem.blocks && u.mem.blocks[id] == st.mem.blocks[id]
  {
    hide LoadStackPos;
    var u, storage := CallVaStart(t).value, st.frames[a.level][a.slot].block;
    StoredEvolves(t.mem, storage, 0, Encode(PosVal(b)));
    assert u.mem.blocks[storage].data[..SIZE_STACKPOS] == Encode(PosVal(b));
    StackPosLoadAfterStore(b.level, b.slot);
  }

  lemma {:induction false} PopStores(st: State, u: State, n1: nat, n2: nat, storage: nat, pos: Pos)
    requires MemOk(u.mem) && u.frames == st.frames + [[Binding("", n1), Binding("", n2)]] && u.source == st.source
    requires n1 !in st.mem.blocks && n2 !in st.mem.blocks && storage in st.mem.blocks
    requires StoredPos(u.mem, storage) == Some(pos)
    requires forall id :: id in st.mem.blocks && id != storage ==>
               id in u.mem.blocks && u.mem.blocks[id] == st.mem.blocks[id]
    ensures HoldsPosition(st, RefExec.Pop(u), storage, pos)
  {
    hide LoadStackPos;
    var f := u.frames[|u.frames| - 1];
    RetireFrameEffect(u.mem, f, 2);
    forall id | id in st.mem.blocks
      ensures !InFrame(f, 2, id)
    {
    }
    assert DropFrame(u.frames) == st.frames;
  }

  /** `va_start` leaves the stack as it was and stores the position of `from` in the storage of `to`. */
  lemma {:induction false} VaStartStores(st: State, to: string, from: string, a: Pos, b: Pos)
    requires MemOk(st.mem) && Resolves(st, to, a) && Resolves(st, from, b) && VaStart(st, to, from).Some?
    requires st.frames[a.level][a.slot].block in st.mem.blocks
    ensures HoldsPosition(st, VaStart(st, to, from).value, st.frames[a.level][a.slot].block, b)
  {
    hide PassPosition, CallVaStart, Ready, HoldsPosition, StoredPos, Scan;
    BothPassed(st, to, from, a, b);
    var s := PassPosition(RefExec.Push(st), to).value;
    var t := PassPosition(s, from).value;
    CallStores(st, t, st.mem.next, s.mem.next, a, b);
    ReadyParts(st, t, st.mem.next, s.mem.next, a, b);
    PopStores(st, CallVaStart(t).value, st.mem.next, s.mem.next, st.frames[a.level][a.slot].block, b);
  }

  lemma {:induction false} ReadyParts(st: State, t: State, n1: nat, n2: nat, a: Pos, b: Pos)
    requires Ready(st, t, n1, n2, a, b)
    ensures n1 !in st.mem.blocks && n2 !in st.mem.blocks
    ensures t.frames == st.frames + [[Binding("", n1), Binding("", n2)]]
  {
  }

  /**
   The stored position resolves to the variable it was made for in every later state until that
   variable's frame is popped, across any pushes, declarations and nested calls.
   */
  lemma {:induction false} StoredPositionResolves(
      st: State, to: string, from: string, a: Pos, b: Pos, ops: seq<FrameOp>)
    requires MemOk(st.mem) && Resolves(st, to, a) && Resolves(st, from, b) && VaStart(st, to, from).Some?
    requires st.frames[a.level][a.slot].block in st.mem.blocks
    requires Above(VaStart(st, to, from).value.frames, ops, b.level)
    ensures var t := VaStart(st, to, from).value;
            var gs := FrameRun(t.frames, ops, b.level);
            StoredPos(t.mem, st.frames[a.level][a.slot].block) == Some(b) &&
            Bound(gs, b, from) && gs[b.level][b.slot] == st.frames[b.level][b.slot]
  {
    hide VaStart, Above, FrameRun, StoredPos;
    VaStartStores(st, to, from, a, b);
    PositionsAreStable(VaStart(st, to, from).value.frames, ops, b);
  }

  // ----- Stored positions and the executor -----

  lemma {:induction false} PassKeeps(st: State, name: string)
    requires PassPosition(st, name).Some?
    ensures Kept(st, PassPosition(st, name).value)
  {
    hide Encode, Kept;
    var pos := Scan(st.frames, |st.frames|, name).value;
    BindKeeps(st, "", Encode(PosVal(pos)));
  }

  lemma {:induction false} CallKeepsStack(st: State)
    requires CallVaStart(st).Some?
    ensures Quiet(st, CallVaStart(st).value)
  {
    hide Encode, Quiet, StoredPos, Stored;
    var vars := st.frames[|st.frames| - 1];
    var to := StoredPos(st.mem, vars[0].block).value;
    HasData(st.mem, vars[1].block);
    var loaded := LoadStackPos(st.mem.blocks[vars[1].block].data[..SIZE_STACKPOS]);
    StoreKeeps(st, st.frames[to.level][to.slot].block, Encode(loaded));
  }

  /** `va_start` keeps what an expression keeps. */
  lemma {:induction false} VaStartKeeps(st: State, to: string, from: string)
    requires VaStart(st, to, from).Some?
    ensures Quiet(st, VaStart(st, to, from).value)
  {
    hide PassPosition, CallVaStart, Kept, Quiet, RefExec.Pop;
    var pushed := RefExec.Push(st);
    var s := PassPosition(pushed, to).value;
    var t := PassPosition(s, from).value;
    var u := CallVaStart(t).value;
    PassKeeps(pushed, to);
    PassKeeps(s, from);
    CallKeepsStack(t);
    QuietIsKept(t, u);
    KeptTrans(pushed, s, t);
    KeptTrans(pushed, t, u);
    PopKeeps(st, u);
  }

  /**
   A position that `va_start` stored still names the variable it was made for after any statement that
   the executor runs; where the stack blocks were those of the variables, that variable is live.
   */
  lemma {:induction false} StoredPositionSurvives(
      st: State, to: string, from: string, a: Pos, b: Pos, p: Program, s: Stmt, fuel: nat)
    requires MemOk(st.mem) && Resolves(st, to, a) && Resolves(st, from, b) && VaStart(st, to, from).Some?
    requires st.frames[a.level][a.slot].block in st.mem.blocks
    requires Exec(p, s, fuel, VaStart(st, to, from).value).Ok?
    ensures var t := VaStart(st, to, from).value;
            var u := Exec(p, s, fuel, t).st;
            StoredPos(t.mem, st.frames[a.level][a.slot].block) == Some(b) &&
            Bound(u.frames, b, from) && u.frames[b.level][b.slot] == st.frames[b.level][b.slot] &&
            (Conserved(st) ==> IsVar(u.mem, u.frames[b.level][b.slot].block))
  {
    hide VaStart, StoredPos, Conserved, IsVar, Exec;
    VaStartStores(st, to, from, a, b);
    VaStartKeeps(st, to, from);
    PositionsSurvive(p, s, fuel, VaStart(st, to, from).value, b);
  }

  /** Such states exist: a conserved one in which `va_start` goes through. */
  lemma {:induction false} VaStartGoesThrough()
    ensures var st := State([[Binding("ap", 3), Binding("x", 4)]],
                            Mem(map[3 := Block(STACK, seq(16, _ => 0)), 4 := Block(STACK, seq(8, _ => 0))], 5), 0);
            Conserved(st) && Resolves(st, "ap", Pos(0, 0)) && Resolves(st, "x", Pos(0, 1)) &&
            VaStart(st, "ap", "x").Some?
  {
    hide VaStart;
    var f := [Binding("ap", 3), Binding("x", 4)];
    var m := Mem(map[3 := Block(STACK, seq(16, _ => 0)), 4 := Block(STACK, seq(8, _ => 0))], 5);
    var st := State([f], m, 0);
    assert FrameIds(f) == [3, 4];
    assert AllIds(st.frames, 1) == [3, 4];
    assert ScanFrame(f, 2, "x") == Some(1) && ScanFrame(f, 2, "ap") == Some(0);
    assert Resolves(st, "ap", Pos(0, 0)) && Resolves(st, "x", Pos(0, 1));
    GoesThrough(st, "ap", "x", Pos(0, 0), Pos(0, 1));
  }

  /** With room for a position in the storage, and two ids left, the macro succeeds. */
  lemma {:induction false} GoesThrough(st: State, to: string, from: string, a: Pos, b: Pos)
    requires MemOk(st.mem) && Resolves(st, to, a) && Resolves(st, from, b)
    requires 0 < st.mem.next < ID_LIMIT - 1
    requires var id := st.frames[a.level][a.slot].block;
             id in st.mem.blocks && |st.mem.blocks[id].data| >= SIZE_STACKPOS
    ensures VaStart(st, to, from).Some?
  {
    hide Scan, LoadStackPos, Encode, Patch, RetireFrame;
    var pushed := RefExec.Push(st);
    ScanPush(st.frames, to);
    ScanPush(st.frames, from);
    var s := PassPosition(pushed, to).value;
    ScanAdd(pushed.frames, Binding("", st.mem.next), from);
    assert PassPosition(s, from).Some?;
    BothPassed(st, to, from, a, b);
  }
}
