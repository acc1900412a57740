/**
 The stack of variable frames (mem.cpp:35-72), looked up by scanning it from the innermost binding
 outward, and the list of positions of a name that the index `stack_var_map` is meant to hold.
 */
module Frames {
  import opened Options

  /** A stack variable: its name and the id of the block that stores it. */
  datatype Binding = Binding(name: string, block: nat)

  type Frame = seq<Binding>

  datatype Pos = Pos(level: nat, slot: nat)

  // ----- Linear scan -----

  /** The last of the first `k` bindings of a frame that has the name. */
  function ScanFrame(f: Frame, k: nat, name: string): (slot: Option<nat>)
    requires k <= |f|
    ensures slot.Some? ==> slot.value < k && f[slot.value].name == name
  {
    if k == 0 then None
    else if f[k - 1].name == name then Some(k - 1)
    else ScanFrame(f, k - 1, name)
  }

  /** The innermost binding of a name in the first `n` frames. */
  function Scan(fs: seq<Frame>, n: nat, name: string): (pos: Option<Pos>)
    requires n <= |fs|
    ensures pos.Some? ==> pos.value.level < n && Bound(fs, pos.value, name)
  {
    if n == 0 then None
    else match ScanFrame(fs[n - 1], |fs[n - 1]|, name)
      case Some(slot) => Some(Pos(n - 1, slot))
      case None => Scan(fs, n - 1, name)
  }

  predicate InRange(fs: seq<Frame>, p: Pos) {
    p.level < |fs| && p.slot < |fs[p.level]|
  }

  predicate Bound(fs: seq<Frame>, p: Pos, name: string) {
    InRange(fs, p) && fs[p.level][p.slot].name == name
  }

  // ----- All positions of a name -----

  function SlotsIn(f: Frame, level: nat, k: nat, name: string): seq<Pos>
    requires k <= |f|
  {
    if k == 0 then []
    else SlotsIn(f, level, k - 1, name) + if f[k - 1].name == name then [Pos(level, k - 1)] else []
  }

  function Positions(fs: seq<Frame>, n: nat, name: string): seq<Pos>
    requires n <= |fs|
  {
    if n == 0 then []
    else Positions(fs, n - 1, name) + SlotsIn(fs[n - 1], n - 1, |fs[n - 1]|, name)
  }

  predicate Before(p: Pos, q: Pos) {
    p.level < q.level || (p.level == q.level && p.slot < q.slot)
  }

  predicate Ascending(ps: seq<Pos>) {
    forall i, j :: 0 <= i < j < |ps| ==> Before(ps[i], ps[j])
  }

  lemma {:induction false} SlotsExact(f: Frame, level: nat, k: nat, name: string)
    requires k <= |f|
    ensures var ps := SlotsIn(f, level, k, name);
            Ascending(ps) && forall p :: p in ps <==> p.level == level && p.slot < k && f[p.slot].name == name
  {
    if k > 0 {
      SlotsExact(f, level, k - 1, name);
    }
  }

  /** The positions are in lexicographic order, and they are all the positions of the name. */
  lemma {:induction false} PositionsExact(fs: seq<Frame>, n: nat, name: string)
    requires n <= |fs|
    ensures var ps := Positions(fs, n, name);
            Ascending(ps) && forall p :: p in ps <==> p.level < n && Bound(fs, p, name)
  {
    if n > 0 {
      PositionsExact(fs, n - 1, name);
      SlotsExact(fs[n - 1], n - 1, |fs[n - 1]|, name);
    }
  }

  /** Only one list is in order and has exactly these elements. */
  lemma {:induction false} AscendingIsUnique(ps: seq<Pos>, qs: seq<Pos>)
    requires Ascending(ps) && Ascending(qs) && forall p :: p in ps <==> p in qs
    ensures ps == qs
    decreases |ps|
  {
    assert ps != [] ==> ps[0] in qs;
    assert qs != [] ==> qs[0] in ps;
    if ps != [] {
      var p, q := ps[|ps| - 1], qs[|qs| - 1];
      assert p in qs && q in ps;
      assert p == q;
      var ps', qs' := ps[..|ps| - 1], qs[..|qs| - 1];
      forall r
        ensures r in ps' <==> r in qs'
      {
        WithoutLast(ps, r);
        WithoutLast(qs, r);
      }
      AscendingIsUnique(ps', qs');
      assert ps == ps' + [p] && qs == qs' + [q];
    }
  }

  lemma {:induction false} WithoutLast(ps: seq<Pos>, r: Pos)
    requires Ascending(ps) && ps != []
    ensures r in ps[..|ps| - 1] <==> r in ps && r != ps[|ps| - 1]
  {
  }

  // ----- The last position is the one that a scan finds -----

  lemma {:induction false} LastSlot(f: Frame, level: nat, k: nat, name: string)
    requires k <= |f|
    ensures var ps, slot := SlotsIn(f, level, k, name), ScanFrame(f, k, name);
            if slot.None? then ps == [] else ps != [] && ps[|ps| - 1] == Pos(level, slot.value)
  {
    if k > 0 {
      LastSlot(f, level, k - 1, name);
    }
  }

  lemma {:induction false} LastPosition(fs: seq<Frame>, n: nat, name: string)
    requires n <= |fs|
    ensures var ps, pos := Positions(fs, n, name), Scan(fs, n, name);
            if pos.None? then ps == [] else ps != [] && ps[|ps| - 1] == pos.value
  {
    hide SlotsIn, ScanFrame, Bound, InRange;
    if n > 0 {
      var f := fs[n - 1];
      LastPosition(fs, n - 1, name);
      LastSlot(f, n - 1, |f|, name);
      LastOfBoth(Positions(fs, n - 1, name), SlotsIn(f, n - 1, |f|, name));
    }
  }

  lemma {:induction false} LastOfBoth(ps: seq<Pos>, qs: seq<Pos>)
    ensures qs == [] ==> ps + qs == ps
    ensures qs != [] ==> ps + qs != [] && (ps + qs)[|ps + qs| - 1] == qs[|qs| - 1]
  {
  }

  // ----- Pushing, declaring and popping -----

  function PushFrame(fs: seq<Frame>): seq<Frame> {
    fs + [[]]
  }

  function AddBinding(fs: seq<Frame>, b: Binding): seq<Frame>
    requires fs != []
  {
    fs[|fs| - 1 := fs[|fs| - 1] + [b]]
  }

  function DropFrame(fs: seq<Frame>): seq<Frame>
    requires fs != []
  {
    fs[..|fs| - 1]
  }

  lemma {:induction false} SlotsLocal(f: Frame, g: Frame, level: nat, k: nat, name: string)
    requires k <= |f| && k <= |g| && f[..k] == g[..k]
    ensures SlotsIn(f, level, k, name) == SlotsIn(g, level, k, name)
  {
    if k > 0 {
      assert f[..k][..k - 1] == f[..k - 1] && g[..k][..k - 1] == g[..k - 1];
      assert f[..k][k - 1] == f[k - 1] && g[..k][k - 1] == g[k - 1];
      SlotsLocal(f, g, level, k - 1, name);
    }
  }

  lemma {:induction false} PositionsLocal(fs: seq<Frame>, gs: seq<Frame>, n: nat, name: string)
    requires n <= |fs| && n <= |gs| && forall i :: 0 <= i < n ==> fs[i] == gs[i]
    ensures Positions(fs, n, name) == Positions(gs, n, name)
  {
    if n > 0 {
      PositionsLocal(fs, gs, n - 1, name);
    }
  }

  lemma {:induction false} PositionsPush(fs: seq<Frame>, name: string)
    ensures Positions(PushFrame(fs), |fs| + 1, name) == Positions(fs, |fs|, name)
  {
    PositionsLocal(PushFrame(fs), fs, |fs|, name);
  }

  lemma {:induction false} PositionsAdd(fs: seq<Frame>, b: Binding, name: string)
    requires fs != []
    ensures Positions(AddBinding(fs, b), |fs|, name) ==
            Positions(fs, |fs|, name) + if b.name == name then [Pos(|fs| - 1, |fs[|fs| - 1]|)] else []
  {
    var gs, n := AddBinding(fs, b), |fs| - 1;
    var f := fs[n];
    PositionsLocal(gs, fs, n, name);
    assert (f + [b])[..|f|] == f[..|f|];
    SlotsLocal(f + [b], f, n, |f|, name);
  }

  lemma {:induction false} PositionsDrop(fs: seq<Frame>, name: string)
    requires fs != []
    ensures var n := |fs| - 1;
            Positions(fs, |fs|, name) == Positions(DropFrame(fs), n, name) + SlotsIn(fs[n], n, |fs[n]|, name)
  {
    PositionsLocal(DropFrame(fs), fs, |fs| - 1, name);
  }

  lemma {:induction false} SlotsGrow(f: Frame, level: nat, k: nat, m: nat, name: string)
    requires k <= m <= |f|
    ensures |SlotsIn(f, level, k, name)| <= |SlotsIn(f, level, m, name)|
    decreases m
  {
    if k < m {
      SlotsGrow(f, level, k, m - 1, name);
    }
  }

  // ----- The index -----

  function Entry(index: map<string, seq<Pos>>, name: string): seq<Pos> {
    if name in index then index[name] else []
  }

  ghost predicate EntryOk(index: map<string, seq<Pos>>, fs: seq<Frame>, name: string) {
    Entry(index, name) == Positions(fs, |fs|, name) && (name in index ==> index[name] != [])
  }

  /** Each entry is the list of all positions of its name; there are no empty entries. */
  ghost predicate IndexOk(index: map<string, seq<Pos>>, fs: seq<Frame>) {
    forall name :: EntryOk(index, fs, name)
  }

  /** The name is in the index exactly when it is bound, with one ordered list of all its positions. */
  ghost predicate EntryIsComplete(index: map<string, seq<Pos>>, fs: seq<Frame>, name: string) {
    (name in index <==> exists p :: Bound(fs, p, name)) &&
    (name in index ==> Ascending(index[name]) && forall p :: p in index[name] <==> Bound(fs, p, name))
  }

  /** What the index invariant means, without mention of how the lists are built. */
  lemma {:induction false} IndexMeaning(index: map<string, seq<Pos>>, fs: seq<Frame>)
    ensures IndexOk(index, fs) <==> forall name :: EntryIsComplete(index, fs, name)
  {
    forall name
      ensures EntryOk(index, fs, name) <==> EntryIsComplete(index, fs, name)
    {
      EntryMeaning(index, fs, name);
    }
  }

  lemma {:induction false} EntryMeaning(index: map<string, seq<Pos>>, fs: seq<Frame>, name: string)
    ensures EntryOk(index, fs, name) <==> EntryIsComplete(index, fs, name)
  {
    var ps := Positions(fs, |fs|, name);
    PositionsExact(fs, |fs|, name);
    assert ps != [] ==> Bound(fs, ps[0], name);
    if name in index && Ascending(index[name]) && forall p :: p in index[name] <==> Bound(fs, p, name) {
      AscendingIsUnique(index[name], ps);
    }
  }

  /** The fast lookup is the scan: the last position of the index entry, or none without an entry. */
  lemma {:induction false} IndexFindsScan(index: map<string, seq<Pos>>, fs: seq<Frame>, name: string)
    requires IndexOk(index, fs)
    ensures EntryOk(index, fs, name)
    ensures Scan(fs, |fs|, name) == if name in index then Some(index[name][|index[name]| - 1]) else None
  {
    LastPosition(fs, |fs|, name);
    assert EntryOk(index, fs, name);
  }

  // ----- Positions over whole runs -----

  datatype FrameOp = Enter | Declare(b: Binding) | Leave

  /** None when a frame is missing. */
  function FrameStep(fs: seq<Frame>, op: FrameOp): Option<seq<Frame>> {
    if op.Enter? then Some(PushFrame(fs))
    else if fs == [] then None
    else if op.Leave? then Some(DropFrame(fs))
    else Some(AddBinding(fs, op.b))
  }

  /** The run goes through and never pops the frame at `level`. */
  predicate Above(fs: seq<Frame>, ops: seq<FrameOp>, level: nat)
    decreases |ops|
  {
    level < |fs| &&
    (ops == [] || (FrameStep(fs, ops[0]).Some? && Above(FrameStep(fs, ops[0]).value, ops[1..], level)))
  }

  function FrameRun(fs: seq<Frame>, ops: seq<FrameOp>, level: nat): seq<Frame>
    requires Above(fs, ops, level)
    decreases |ops|
  {
    if ops == [] then fs else FrameRun(FrameStep(fs, ops[0]).value, ops[1..], level)
  }

  /**
   Any pair recorded in the index or stored by `va_start` resolves to the same binding in every later
   state until its frame is popped.
   */
  lemma {:induction false} PositionsAreStable(fs: seq<Frame>, ops: seq<FrameOp>, p: Pos)
    requires Above(fs, ops, p.level) && InRange(fs, p)
    ensures var gs := FrameRun(fs, ops, p.level);
            InRange(gs, p) && gs[p.level][p.slot] == fs[p.level][p.slot] &&
            p in Positions(gs, |gs|, fs[p.level][p.slot].name)
    decreases |ops|
  {
    if ops == [] {
      PositionsExact(fs, |fs|, fs[p.level][p.slot].name);
    } else {
      PositionsAreStable(FrameStep(fs, ops[0]).value, ops[1..], p);
    }
  }
}
