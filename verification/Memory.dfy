/**
 All memory blocks together (mem.cpp): the counter that numbers them, the table of active blocks, and
 what may become of a block over a whole run.

 `Retire` is `mem_block::free`, which a frame pop calls: the block stays in the table, marked as freed.
 `Delete` is the destructor, which the program's `free` calls on whatever block it is given: the block
 leaves the table. Deleting the storage of a retired block a second time has no defined behaviour in the
 source, and aborts here.
 */
module Memory {
  import opened Options
  import opened Words
  import opened Numbers
  import opened Values
  import opened ValueProofs

  datatype Block = Block(memtype: MemType, data: seq<byte>)

  /** `next` is the 32-bit counter, which is 0 once it has wrapped around. */
  datatype Mem = Mem(blocks: map<nat, Block>, next: nat)

  const BLOCK_ID_START: nat := 3
  const ID_LIMIT: nat := 0x1_0000_0000

  /** The id has been handed out at some time. */
  predicate Issued(m: Mem, id: nat) {
    BLOCK_ID_START <= id < ID_LIMIT && (m.next == 0 || id < m.next)
  }

  predicate MemOk(m: Mem) {
    (m.next == 0 || BLOCK_ID_START <= m.next < ID_LIMIT) && forall id :: id in m.blocks ==> Issued(m, id)
  }

  const EMPTY_MEM := Mem(map[], BLOCK_ID_START)

  function Active(m: Mem, funcs: set<nat>): Tables {
    Tables(m.blocks.Keys, funcs)
  }

  // ----- Steps -----

  datatype MemOp =
    | Create(memtype: MemType, data: seq<byte>)
    | Retire(id: nat)
    | Delete(id: nat)
    | Store(id: nat, off: nat, bytes: seq<byte>)

  /** A new block is numbered `m.next`. */
  function Created(m: Mem, b: Block): Mem
    requires m.next != 0
  {
    Mem(m.blocks[m.next := b], (m.next + 1) % ID_LIMIT)
  }

  function Retired(m: Mem, id: nat): Mem {
    if id in m.blocks then m.(blocks := m.blocks[id := m.blocks[id].(memtype := FREED)]) else m
  }

  function Stored(m: Mem, id: nat, off: nat, bytes: seq<byte>): Mem
    requires id in m.blocks && off + |bytes| <= |m.blocks[id].data|
  {
    m.(blocks := m.blocks[id := m.blocks[id].(data := Patch(m.blocks[id].data, off, bytes))])
  }

  /** None is an aborted run. */
  function Step(m: Mem, op: MemOp): Option<Mem> {
    match op
    case Create(t, data) => if m.next == 0 then None else Some(Created(m, Block(t, data)))
    case Retire(id) => if id in m.blocks then Some(Retired(m, id)) else None
    case Delete(id) =>
      if id in m.blocks && m.blocks[id].memtype != FREED then Some(m.(blocks := m.blocks - {id})) else None
    case Store(id, off, bytes) =>
      if id in m.blocks && off + |bytes| <= |m.blocks[id].data| then Some(Stored(m, id, off, bytes)) else None
  }

  function Run(m: Mem, ops: seq<MemOp>): Option<Mem>
    decreases |ops|
  {
    if ops == [] then Some(m)
    else match Step(m, ops[0])
      case None => None
      case Some(n) => Run(n, ops[1..])
  }

  /** The ids that a run hands out, in order. */
  function Ids(m: Mem, ops: seq<MemOp>): seq<nat>
    decreases |ops|
  {
    if ops == [] then []
    else match Step(m, ops[0])
      case None => []
      case Some(n) => (if ops[0].Create? then [m.next] else []) + Ids(n, ops[1..])
  }

  /** A store aborts exactly when it does not fit; otherwise the bytes are where they were written, and only they. */
  lemma {:induction false} StoreExactly(m: Mem, id: nat, off: nat, bytes: seq<byte>)
    ensures Step(m, Store(id, off, bytes)).Some? <==> id in m.blocks && off + |bytes| <= |m.blocks[id].data|
    ensures Step(m, Store(id, off, bytes)).Some? ==>
              var n := Step(m, Store(id, off, bytes)).value;
              n.next == m.next && n.blocks.Keys == m.blocks.Keys && n.blocks[id].memtype == m.blocks[id].memtype &&
              StoredAt(n.blocks[id].data, off, bytes) && |n.blocks[id].data| == |m.blocks[id].data| &&
              (forall i :: 0 <= i < |m.blocks[id].data| && !(off <= i < off + |bytes|) ==>
                 n.blocks[id].data[i] == m.blocks[id].data[i]) &&
              (forall o :: o in m.blocks && o != id ==> n.blocks[o] == m.blocks[o])
  {
    if Step(m, Store(id, off, bytes)).Some? {
      var d := m.blocks[id].data;
      ThreeParts(d[..off], bytes, d[off + |bytes|..]);
    }
  }

  // ----- What every step keeps -----

  /** What may happen to memory: ids are never reused, freed blocks stay freed, sizes stay. */
  ghost predicate Evolves(m: Mem, n: Mem) {
    && MemOk(n)
    && (m.next == 0 ==> n.next == 0)
    && (forall id :: Issued(m, id) ==> Issued(n, id))
    && (forall id :: Issued(m, id) && id in n.blocks ==> Survives(m, n, id))
  }

  ghost predicate Survives(m: Mem, n: Mem, id: nat)
    requires id in n.blocks
  {
    && id in m.blocks
    && |n.blocks[id].data| == |m.blocks[id].data|
    && (n.blocks[id].memtype == m.blocks[id].memtype || n.blocks[id].memtype == FREED)
  }

  lemma {:induction false} EvolvesRefl(m: Mem)
    requires MemOk(m)
    ensures Evolves(m, m)
  {
  }

  lemma {:induction false} EvolvesTrans(a: Mem, b: Mem, c: Mem)
    requires Evolves(a, b) && Evolves(b, c)
    ensures Evolves(a, c)
  {
    forall id | Issued(a, id) && id in c.blocks
      ensures Survives(a, c, id)
    {
      assert Survives(b, c, id) && Survives(a, b, id);
    }
  }

  lemma {:induction false} CreatedEvolves(m: Mem, b: Block)
    requires MemOk(m) && m.next != 0
    ensures Evolves(m, Created(m, b)) && !Issued(m, m.next)
  {
  }

  lemma {:induction false} RetiredEvolves(m: Mem, id: nat)
    requires MemOk(m)
    ensures Evolves(m, Retired(m, id))
  {
  }

  lemma {:induction false} StoredEvolves(m: Mem, id: nat, off: nat, bytes: seq<byte>)
    requires MemOk(m) && id in m.blocks && off + |bytes| <= |m.blocks[id].data|
    ensures Evolves(m, Stored(m, id, off, bytes))
  {
  }

  lemma {:induction false} StepEvolves(m: Mem, op: MemOp)
    requires MemOk(m) && Step(m, op).Some?
    ensures Evolves(m, Step(m, op).value)
  {
    match op
    case Create(t, data) => CreatedEvolves(m, Block(t, data));
    case Retire(id) => RetiredEvolves(m, id);
    case Delete(id) =>
    case Store(id, off, bytes) => StoredEvolves(m, id, off, bytes);
  }

  lemma {:induction false} RunEvolves(m: Mem, ops: seq<MemOp>)
    requires MemOk(m) && Run(m, ops).Some?
    ensures Evolves(m, Run(m, ops).value)
    decreases |ops|
  {
    if ops == [] {
      EvolvesRefl(m);
    } else {
      StepEvolves(m, ops[0]);
      var n := Step(m, ops[0]).value;
      RunEvolves(n, ops[1..]);
      EvolvesTrans(m, n, Run(n, ops[1..]).value);
    }
  }

  // ----- Ids over whole runs -----

  predicate NewIds(m: Mem, ids: seq<nat>) {
    (forall i :: 0 <= i < |ids| ==> BLOCK_ID_START <= ids[i] < ID_LIMIT && !Issued(m, ids[i])) &&
    (forall i, j :: 0 <= i < j < |ids| ==> ids[i] < ids[j])
  }

  /** The ids of all blocks ever made are new, strictly increasing, and never 0, 1 or 2. */
  lemma {:induction false} IdsIncrease(m: Mem, ops: seq<MemOp>)
    requires MemOk(m)
    ensures NewIds(m, Ids(m, ops))
    decreases |ops|
  {
    if ops != [] && Step(m, ops[0]).Some? {
      var n := Step(m, ops[0]).value;
      StepEvolves(m, ops[0]);
      IdsIncrease(n, ops[1..]);
      LaterIds(m, n, ops[0].Create?, Ids(n, ops[1..]));
    }
  }

  lemma {:induction false} LaterIds(m: Mem, n: Mem, made: bool, rest: seq<nat>)
    requires MemOk(m) && Evolves(m, n) && NewIds(n, rest)
    requires made ==> m.next != 0 && n.next == (m.next + 1) % ID_LIMIT
    ensures NewIds(m, (if made then [m.next] else []) + rest)
  {
    var ids := (if made then [m.next] else []) + rest;
    forall i | 0 <= i < |rest|
      ensures !Issued(m, rest[i]) && (made ==> m.next < rest[i])
    {
      assert !Issued(n, rest[i]);
    }
    if !made {
      assert ids == rest;
    }
  }

  /** Once the counter has wrapped around, every later attempt to make a block aborts. */
  lemma {:induction false} ExhaustionIsPermanent(m: Mem, ops: seq<MemOp>)
    requires MemOk(m) && m.next == 0
    ensures Ids(m, ops) == [] && ((exists op :: op in ops && op.Create?) ==> Run(m, ops).None?)
    decreases |ops|
  {
    if ops != [] && Step(m, ops[0]).Some? {
      ExhaustionIsPermanent(Step(m, ops[0]).value, ops[1..]);
    }
  }

  /** The counter wraps around exactly when every id from the current one up to 2^32 - 1 has been handed out. */
  lemma {:induction false} CounterCounts(m: Mem, ops: seq<MemOp>)
    requires MemOk(m) && Run(m, ops).Some?
    ensures var n, made := Run(m, ops).value, |Ids(m, ops)|;
            if m.next == 0 then n.next == 0
            else m.next + made <= ID_LIMIT && n.next == (if m.next + made == ID_LIMIT then 0 else m.next + made)
    decreases |ops|
  {
    if ops != [] {
      var n := Step(m, ops[0]).value;
      StepEvolves(m, ops[0]);
      CounterCounts(n, ops[1..]);
      if ops[0].Create? {
        assert Ids(m, ops) == [m.next] + Ids(n, ops[1..]);
        if n.next == 0 {
          ExhaustionIsPermanent(n, ops[1..]);
        }
      } else {
        assert Ids(m, ops) == Ids(n, ops[1..]);
      }
    }
  }

  // ----- Reading through stored pointers -----

  /** `from_lvalue` on a block: None is an aborted run. */
  function ReadBlock(m: Mem, ty: Ty, id: nat, o: nat, funcs: set<nat>): Option<Val> {
    if id !in m.blocks || m.blocks[id].memtype == FREED then None
    else Load(ty, m.blocks[id].data, o, Active(m, funcs))
  }

  /** A pointer to a deleted block loads as undefined in every later state. */
  lemma {:induction false} DeletedForever(m: Mem, n: Mem, ty: Ty, id: nat, o: nat, funcs: set<nat>)
    requires MemOk(m) && Issued(m, id) && id !in m.blocks && Evolves(m, n)
    ensures id !in n.blocks
    ensures LoadPtr(ty, EncodePtr(DEFINED, BlockRef(id), o), Active(n, funcs)).status == UNDEFINED
  {
    assert id !in n.blocks by {
      if id in n.blocks && Survives(m, n, id) {
        assert false;
      }
    }
    DanglingLoadsUndefined(ty, id, o, Active(n, funcs));
  }

  /** A block retired by a frame pop stays freed: every later read of it aborts, whatever its type. */
  lemma {:induction false} RetiredForever(m: Mem, n: Mem, ty: Ty, id: nat, o: nat, funcs: set<nat>)
    requires MemOk(m) && id in m.blocks && m.blocks[id].memtype == FREED && Evolves(m, n)
    ensures ReadBlock(n, ty, id, o, funcs) == None
  {
    if id in n.blocks {
      assert Issued(m, id) && Survives(m, n, id);
    }
  }

  /** Over any run that deletes a block and goes on in any way. */
  lemma {:induction false} NoPointerOutlivesItsBlock(m: Mem, id: nat, ops: seq<MemOp>, ty: Ty, o: nat, funcs: set<nat>)
    requires MemOk(m) && Run(m, [Delete(id)] + ops).Some?
    ensures var n := Run(m, [Delete(id)] + ops).value;
            LoadPtr(ty, EncodePtr(DEFINED, BlockRef(id), o), Active(n, funcs)).status == UNDEFINED
  {
    assert ([Delete(id)] + ops)[1..] == ops;
    var d := Step(m, Delete(id)).value;
    StepEvolves(m, Delete(id));
    RunEvolves(d, ops);
    assert Issued(m, id);
    DeletedForever(d, Run(d, ops).value, ty, id, o, funcs);
  }

  // ----- Variables of type int -----

  /** A stored `int`: `val` is its 32-bit pattern. */
  type IntNum = n: Num | n.kind == Int && NumOk(n) witness Num(Int, DEFINED, 0, 0)

  const SIZE_INT: nat := 8

  /** Reading an `int` at the start of a block. */
  function ReadInt(m: Mem, id: nat): Option<IntNum> {
    if id !in m.blocks || |m.blocks[id].data| < SIZE_INT then None
    else Some(IntAt(m.blocks[id].data))
  }

  function IntAt(data: seq<byte>): IntNum
    requires |data| >= SIZE_INT
  {
    var b := data[..SIZE_INT];
    ValueBound(Int, b[4..]);
    LeBytes(b[..4]);
    LoadNum(Int, b)
  }

  /** Writing an `int` at the start of a block. */
  function WriteInt(m: Mem, id: nat, n: IntNum): Option<Mem> {
    if id !in m.blocks || |m.blocks[id].data| < SIZE_INT then None
    else Some(Stored(m, id, 0, EncodeNum(n)))
  }

  /** A defined `int` reads back as written, and every other block is as before. */
  lemma {:induction false} ReadAfterWrite(m: Mem, id: nat, n: IntNum, other: nat)
    requires WriteInt(m, id, n).Some? && n.status == DEFINED && Recognised(n)
    ensures var w := WriteInt(m, id, n).value;
            ReadInt(w, id) == Some(n) && (other != id ==> ReadInt(w, other) == ReadInt(m, other))
  {
    var w := WriteInt(m, id, n).value;
    LoadAfterStore(n);
    assert w.blocks[id].data[..SIZE_INT] == EncodeNum(n);
  }
}
