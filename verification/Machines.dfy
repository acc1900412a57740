/**
 The interpreter's global state (mem.cpp): the stack of frames, the index that speeds it up, the active
 blocks and the counter that numbers them, and the current source file (eval.cpp).

 The contents of a block are a value here; `MemBlocks.dfy` has the block that is changed in place.
 */
module Machines {
  import opened Options
  import opened Words
  import opened Numbers
  import opened Values
  import opened Memory
  import opened Frames
  import opened RefExec

  class Machine {
    var stackVars: seq<Frame>
    var stackVarMap: map<string, seq<Pos>>
    var activeMem: map<nat, Block>
    var idCounter: nat
    var currSource: nat

    /** The state that the reference executor sees; it does not mention the index. */
    ghost function St(): State
      reads this
    {
      State(stackVars, Mem(activeMem, idCounter), currSource)
    }

    ghost predicate Valid()
      reads this
    {
      IndexOk(stackVarMap, stackVars)
    }

    constructor (source: nat)
      ensures Valid() && St() == State([], EMPTY_MEM, source)
    {
      stackVars, stackVarMap, activeMem, idCounter, currSource := [], map[], map[], BLOCK_ID_START, source;
    }

    // ----- Blocks -----

    /** None is an aborted run: the counter has wrapped around. */
    method NewBlockId() returns (r: Option<nat>)
      modifies this`idCounter
      ensures r == if old(idCounter) == 0 then None else Some(old(idCounter))
      ensures idCounter == if old(idCounter) == 0 then 0 else (old(idCounter) + 1) % ID_LIMIT
    {
      var ans := idCounter;
      if ans == 0 {
        return None;
      }
      idCounter := (ans + 1) % ID_LIMIT;
      return Some(ans);
    }

    method NewBlock(memtype: MemType, data: seq<byte>) returns (r: Option<nat>)
      modifies this`activeMem, this`idCounter
      ensures old(idCounter) == 0 ==> r == None && St() == old(St())
      ensures old(idCounter) != 0 ==>
                r == Some(old(idCounter)) && St() == old(St()).(mem := Created(old(St()).mem, Block(memtype, data)))
    {
      r := NewBlockId();
      if r.Some? {
        activeMem := activeMem[r.value := Block(memtype, data)];
      }
    }

    // ----- Frames -----

    method AddStackVar(name: string, block: nat)
      requires Valid() && stackVars != []
      modifies this`stackVars, this`stackVarMap
      ensures Valid() && stackVars == AddBinding(old(stackVars), Binding(name, block))
    {
      ghost var fs, b := stackVars, Binding(name, block);
      var n := |stackVars| - 1;
      var i := |stackVars[n]|;
      stackVars := stackVars[n := stackVars[n] + [Binding(name, block)]];
      IndexAdd(stackVarMap, fs, b);
      assert [] + [Pos(n, i)] == [Pos(n, i)];
      if name !in stackVarMap {
        stackVarMap := stackVarMap[name := [Pos(n, i)]];
      } else {
        stackVarMap := stackVarMap[name := stackVarMap[name] + [Pos(n, i)]];
      }
    }

    method AddStackFrame()
      requires Valid()
      modifies this`stackVars, this`stackVarMap
      ensures Valid() && stackVars == PushFrame(old(stackVars))
    {
      IndexPush(stackVarMap, stackVars);
      stackVars := stackVars + [[]];
    }

    /** The last position of the name leaves the index. */
    method ForgetLast(name: string, ghost ps: seq<Pos>)
      requires name in stackVarMap && stackVarMap[name] == ps && ps != []
      modifies this`stackVarMap
      ensures Entry(stackVarMap, name) == ps[..|ps| - 1]
      ensures name in stackVarMap ==> stackVarMap[name] != []
      ensures forall other :: other != name ==>
                (other in stackVarMap <==> other in old(stackVarMap)) &&
                (other in stackVarMap ==> stackVarMap[other] == old(stackVarMap)[other])
    {
      var list := stackVarMap[name];
      var erase := |list| == 1;
      stackVarMap := stackVarMap[name := list[..|list| - 1]];
      if erase {
        stackVarMap := stackVarMap - {name};
      }
    }

    method FreeBlock(id: nat)
      modifies this`activeMem
      ensures St() == old(St()).(mem := Retired(old(St()).mem, id))
    {
      if id in activeMem {
        activeMem := activeMem[id := activeMem[id].(memtype := FREED)];
      }
    }

    /** One round of the loop in `pop_stack_frame`, for the `k`-th variable of the frame. */
    method DropVar(b: Binding, ghost fs: seq<Frame>, ghost k: nat)
      requires fs != [] && k < |fs[|fs| - 1]| && b == fs[|fs| - 1][k] && Shrunk(stackVarMap, fs, k)
      modifies this`stackVarMap, this`activeMem
      ensures Shrunk(stackVarMap, fs, k + 1)
      ensures St() == old(St()).(mem := Retired(old(St()).mem, b.block))
    {
      hide Shrunk;
      ShrunkStep(stackVarMap, fs, k);
      ghost var before := stackVarMap;
      ForgetLast(b.name, stackVarMap[b.name]);
      ShrunkNext(before, stackVarMap, fs, k);
      FreeBlock(b.block);
    }

    /**
     The frame is walked from its first variable on, while each list in the index loses its last position;
     still exactly the positions in this frame are removed, even when names are repeated or empty.
     */
    method PopStackFrame()
      requires Valid() && stackVars != []
      modifies this`stackVars, this`stackVarMap, this`activeMem
      ensures Valid() && St() == Pop(old(St()))
    {
      hide IndexOk, Shrunk, Retired;
      ghost var fs, st := stackVars, St();
      var frame := stackVars[|stackVars| - 1];
      stackVars := stackVars[..|stackVars| - 1];
      var k := 0;
      Unpopped(stackVarMap, fs);
      while k < |frame|
        invariant k <= |frame| && stackVars == DropFrame(fs) && currSource == st.source
        invariant Shrunk(stackVarMap, fs, k)
        invariant Mem(activeMem, idCounter) == RetireFrame(st.mem, frame, k)
      {
        DropVar(frame[k], fs, k);
        k := k + 1;
      }
      AllPopped(stackVarMap, fs);
    }

    // ----- Variables -----

    /** The variable that a name stands for, by the index and then by the file-level tables. */
    method EvalLexpr(p: Program, name: string) returns (r: Option<Global>)
      requires Valid()
      ensures r == Lookup(p, St(), name)
    {
      IndexFindsScan(stackVarMap, stackVars, name);
      if name !in stackVarMap {
        return NonStack(p, currSource, name);
      }
      var list := stackVarMap[name];
      var item := list[|list| - 1];
      return Some(IntVar(stackVars[item.level][item.slot].block));
    }

    method WriteVar(id: nat, n: IntNum) returns (ok: bool)
      modifies this`activeMem
      ensures ok <==> WriteInt(old(St()).mem, id, n).Some?
      ensures ok ==> St() == old(St()).(mem := WriteInt(old(St()).mem, id, n).value)
      ensures !ok ==> St() == old(St())
    {
      if id !in activeMem || |activeMem[id].data| < SIZE_INT {
        return false;
      }
      activeMem := Stored(Mem(activeMem, idCounter), id, 0, EncodeNum(n)).blocks;
      return true;
    }
  }

  // ----- The index while frames come and go -----

  lemma {:induction false} IndexPush(index: map<string, seq<Pos>>, fs: seq<Frame>)
    requires IndexOk(index, fs)
    ensures IndexOk(index, PushFrame(fs))
  {
    forall name
      ensures EntryOk(index, PushFrame(fs), name)
    {
      PositionsPush(fs, name);
      assert EntryOk(index, fs, name);
    }
  }

  lemma {:induction false} IndexAdd(index: map<string, seq<Pos>>, fs: seq<Frame>, b: Binding)
    requires IndexOk(index, fs) && fs != []
    ensures IndexOk(index[b.name := Entry(index, b.name) + [Pos(|fs| - 1, |fs[|fs| - 1]|)]], AddBinding(fs, b))
  {
    var index' := index[b.name := Entry(index, b.name) + [Pos(|fs| - 1, |fs[|fs| - 1]|)]];
    forall name
      ensures EntryOk(index', AddBinding(fs, b), name)
    {
      PositionsAdd(fs, b, name);
      assert EntryOk(index, fs, name);
    }
  }

  /** The positions of a name that are left when the last `gone` have been removed. */
  ghost predicate ShrunkEntry(index: map<string, seq<Pos>>, ps: seq<Pos>, gone: nat, name: string) {
    gone <= |ps| && Entry(index, name) == ps[..|ps| - gone] && (name in index ==> index[name] != [])
  }

  /** The index after `k` variables of the top frame have been removed from it. */
  ghost predicate Shrunk(index: map<string, seq<Pos>>, fs: seq<Frame>, k: nat)
    requires fs != [] && k <= |fs[|fs| - 1]|
  {
    forall name :: ShrunkEntry(index, Positions(fs, |fs|, name), Gone(fs, k, name), name)
  }

  /** How many of the first `k` variables of the top frame have the name. */
  function Gone(fs: seq<Frame>, k: nat, name: string): nat
    requires fs != [] && k <= |fs[|fs| - 1]|
  {
    |SlotsIn(fs[|fs| - 1], |fs| - 1, k, name)|
  }

  lemma {:induction false} GoneBound(fs: seq<Frame>, k: nat, name: string)
    requires fs != [] && k <= |fs[|fs| - 1]|
    ensures Gone(fs, k, name) <= |Positions(fs, |fs|, name)|
  {
    SlotsGrow(fs[|fs| - 1], |fs| - 1, k, |fs[|fs| - 1]|, name);
  }

  lemma {:induction false} Unpopped(index: map<string, seq<Pos>>, fs: seq<Frame>)
    requires IndexOk(index, fs) && fs != []
    ensures Shrunk(index, fs, 0)
  {
    forall name
      ensures ShrunkEntry(index, Positions(fs, |fs|, name), Gone(fs, 0, name), name)
    {
      assert EntryOk(index, fs, name);
    }
  }

  lemma {:induction false} ShrunkStep(index: map<string, seq<Pos>>, fs: seq<Frame>, k: nat)
    requires fs != [] && k < |fs[|fs| - 1]| && Shrunk(index, fs, k)
    ensures var name := fs[|fs| - 1][k].name; name in index && index[name] != []
  {
    var name := fs[|fs| - 1][k].name;
    GoneBound(fs, k + 1, name);
    assert ShrunkEntry(index, Positions(fs, |fs|, name), Gone(fs, k, name), name);
  }

  lemma {:induction false} ShrunkNext(
      index: map<string, seq<Pos>>, index': map<string, seq<Pos>>, fs: seq<Frame>, k: nat)
    requires fs != [] && k < |fs[|fs| - 1]| && Shrunk(index, fs, k)
    requires var name := fs[|fs| - 1][k].name;
             name in index && index[name] != [] &&
             Entry(index', name) == index[name][..|index[name]| - 1] && (name in index' ==> index'[name] != []) &&
             forall other :: other != name ==>
               (other in index' <==> other in index) && (other in index' ==> index'[other] == index[other])
    ensures Shrunk(index', fs, k + 1)
  {
    var name := fs[|fs| - 1][k].name;
    forall x
      ensures ShrunkEntry(index', Positions(fs, |fs|, x), Gone(fs, k + 1, x), x)
    {
      GoneBound(fs, k + 1, x);
      assert ShrunkEntry(index, Positions(fs, |fs|, x), Gone(fs, k, x), x);
    }
  }

  lemma {:induction false} AllPopped(index: map<string, seq<Pos>>, fs: seq<Frame>)
    requires fs != [] && Shrunk(index, fs, |fs[|fs| - 1]|)
    ensures IndexOk(index, DropFrame(fs))
  {
    forall name
      ensures EntryOk(index, DropFrame(fs), name)
    {
      PositionsDrop(fs, name);
      assert ShrunkEntry(index, Positions(fs, |fs|, name), Gone(fs, |fs[|fs| - 1]|, name), name);
    }
  }
}
