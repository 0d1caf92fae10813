/**
 * The rewrite of one loop: for each hoistable load, in order, create the pointer's
 * temporary in the preheader on first sight (retargeting the cold-block stores to it),
 * replace the load by a fresh load from the temporary, move the original load into the
 * preheader and store its value into the temporary there.
 */
module Rewrite {
  import opened Seqs
  import opened Ir
  import opened Temps

  /** The rewrite's working state: the function, the pointer-to-temporary map, fresh-name counters. */
  datatype RewriteState = RewriteState(f: Function, temps: map<Loc, Loc>, nextLoc: Loc, nextReg: Reg)

  /** The temporary the load of `p` will use: the mapped one, or the next fresh slot. */
  function TempFor(st: RewriteState, p: Loc): Loc {
    if p in st.temps then st.temps[p] else st.nextLoc
  }

  /** What `Step` needs: the preheader is not cold, and `h` names a position outside the preheader. */
  predicate StepReady(st: RewriteState, cold: seq<BlockId>, pre: BlockId, h: LoadRef) {
    && pre in st.f.body && pre !in cold
    && h.block in st.f.body && h.block != pre && h.index < |st.f.body[h.block].insts|
  }

  /** Process one hoistable load `h`. */
  function Step(st: RewriteState, cold: seq<BlockId>, pre: BlockId, h: LoadRef): (g: RewriteState)
    requires StepReady(st, cold, pre, h)
    ensures SameCfg(st.f, g.f)
    ensures forall b :: b in st.f.body && b != pre ==> |g.f.body[b].insts| == |st.f.body[b].insts|
    ensures h.ptr in st.temps ==> g.temps == st.temps
    ensures h.ptr !in st.temps ==> g.temps == st.temps[h.ptr := st.nextLoc]
    ensures g.nextLoc == if h.ptr in st.temps then st.nextLoc else st.nextLoc + 1
    ensures g.nextReg == st.nextReg + 1
  {
    var r := st.nextReg;
    if h.ptr in st.temps then
      // Later load of a known pointer: reuse its temporary.
      var t := st.temps[h.ptr];
      var f1 := SetInst(st.f, h.block, h.index, Load(r, t));
      var f2 := ReplaceUses(f1, h.dst, r);
      var f3 := InsertAfterAlloca(f2, pre, t, Load(h.dst, h.ptr));
      var f4 := Append(f3, pre, Store(h.dst, t));
      assert st.temps[h.ptr := t] == st.temps;
      RewriteState(f4, st.temps, st.nextLoc, r + 1)
    else
      // First load of this pointer: create its temporary and retarget the cold stores.
      var t := st.nextLoc;
      var f1 := Append(st.f, pre, Alloca(t));
      var f2 := Retarget(f1, cold, h.ptr, t);
      var f3 := SetInst(f2, h.block, h.index, Load(r, t));
      var f4 := ReplaceUses(f3, h.dst, r);
      var f5 := Append(f4, pre, Load(h.dst, h.ptr));
      var f6 := Append(f5, pre, Store(h.dst, t));
      RewriteState(f6, st.temps[h.ptr := t], t + 1, r + 1)
  }

  /** The access a step leaves at position (b, i) outside the preheader. */
  function StepAccess(st: RewriteState, cold: seq<BlockId>, h: LoadRef, b: BlockId, i: nat, before: Access): Access {
    if b == h.block && i == h.index then LoadOf(TempFor(st, h.ptr))
    else if h.ptr !in st.temps && b in cold && before == StoreTo(h.ptr) then StoreTo(st.nextLoc)
    else before
  }

  /**
   * Outside the preheader one step changes only the memory access at the load's position
   * (now a load of the temporary) and, on a pointer's first load, the cold stores to it
   * (now stores to the new temporary). Stated per position.
   */
  lemma StepAccessAt(st: RewriteState, cold: seq<BlockId>, pre: BlockId, h: LoadRef, b: BlockId, i: nat)
    requires StepReady(st, cold, pre, h)
    requires b in st.f.body && b != pre && i < |st.f.body[b].insts|
    ensures AccessOf(Step(st, cold, pre, h).f.body[b].insts[i]) == StepAccess(st, cold, h, b, i, AccessOf(st.f.body[b].insts[i]))
  {
    var r := st.nextReg;
    var before := st.f.body[b].insts[i];
    if h.ptr in st.temps {
      var t := st.temps[h.ptr];
      var f1 := SetInst(st.f, h.block, h.index, Load(r, t));
      var f2 := ReplaceUses(f1, h.dst, r);
      var f3 := InsertAfterAlloca(f2, pre, t, Load(h.dst, h.ptr));
      var f4 := Append(f3, pre, Store(h.dst, t));
      assert Step(st, cold, pre, h).f == f4;
      assert AccessOf(f1.body[b].insts[i]) == if b == h.block && i == h.index then LoadOf(t) else AccessOf(before);
      assert f4.body[b] == f2.body[b];
    } else {
      var t := st.nextLoc;
      var f1 := Append(st.f, pre, Alloca(t));
      var f2 := Retarget(f1, cold, h.ptr, t);
      var f3 := SetInst(f2, h.block, h.index, Load(r, t));
      var f4 := ReplaceUses(f3, h.dst, r);
      var f5 := Append(f4, pre, Load(h.dst, h.ptr));
      var f6 := Append(f5, pre, Store(h.dst, t));
      assert Step(st, cold, pre, h).f == f6;
      assert f1.body[b] == st.f.body[b];
      assert AccessOf(f2.body[b].insts[i]) == if b in cold && AccessOf(before) == StoreTo(h.ptr) then StoreTo(t) else AccessOf(before);
      assert AccessOf(f3.body[b].insts[i]) == if b == h.block && i == h.index then LoadOf(t) else AccessOf(f2.body[b].insts[i]);
      assert f6.body[b] == f4.body[b];
    }
  }

  /**
   * One step adds to the preheader the moved load, still defining the hoisted load's
   * register, and a store of that register into the temporary, plus the temporary's
   * allocation on first sight; the preheader's other instructions only see the hoisted
   * register handed to the fresh one, like every other block.
   */
  lemma StepPreheader(st: RewriteState, cold: seq<BlockId>, pre: BlockId, h: LoadRef)
    requires StepReady(st, cold, pre, h)
    ensures multiset(Step(st, cold, pre, h).f.body[pre].insts) ==
      multiset(RenameBlock(st.f.body[pre], h.dst, st.nextReg).insts)
      + multiset{Load(h.dst, h.ptr), Store(h.dst, TempFor(st, h.ptr))}
      + (if h.ptr in st.temps then multiset{} else multiset{Alloca(st.nextLoc)})
    ensures multiset(Accesses(Step(st, cold, pre, h).f.body[pre].insts)) ==
      multiset(Accesses(st.f.body[pre].insts))
      + multiset{LoadOf(h.ptr), StoreTo(TempFor(st, h.ptr))}
      + (if h.ptr in st.temps then multiset{} else multiset{AllocaOf(st.nextLoc)})
  {
    if h.ptr in st.temps {
      StepPreheaderReuse(st, cold, pre, h);
      StepPreheaderReuseInsts(st, cold, pre, h);
    } else {
      StepPreheaderFresh(st, cold, pre, h);
      StepPreheaderFreshInsts(st, cold, pre, h);
    }
  }

  lemma StepPreheaderReuseInsts(st: RewriteState, cold: seq<BlockId>, pre: BlockId, h: LoadRef)
    requires StepReady(st, cold, pre, h) && h.ptr in st.temps
    ensures multiset(Step(st, cold, pre, h).f.body[pre].insts) ==
      multiset(RenameBlock(st.f.body[pre], h.dst, st.nextReg).insts) + multiset{Load(h.dst, h.ptr), Store(h.dst, st.temps[h.ptr])}
  {
    var r := st.nextReg;
    var t := st.temps[h.ptr];
    var f1 := SetInst(st.f, h.block, h.index, Load(r, t));
    var f2 := ReplaceUses(f1, h.dst, r);
    var f3 := InsertAfterAlloca(f2, pre, t, Load(h.dst, h.ptr));
    var f4 := Append(f3, pre, Store(h.dst, t));
    assert Step(st, cold, pre, h).f == f4;
    assert f1.body[pre] == st.f.body[pre];
    assert f2.body[pre] == RenameBlock(st.f.body[pre], h.dst, r);
    assert multiset(f4.body[pre].insts) == multiset(f3.body[pre].insts) + multiset{Store(h.dst, t)};
  }

  lemma StepPreheaderFreshInsts(st: RewriteState, cold: seq<BlockId>, pre: BlockId, h: LoadRef)
    requires StepReady(st, cold, pre, h) && h.ptr !in st.temps
    ensures multiset(Step(st, cold, pre, h).f.body[pre].insts) ==
      multiset(RenameBlock(st.f.body[pre], h.dst, st.nextReg).insts) + multiset{Load(h.dst, h.ptr), Store(h.dst, st.nextLoc)}
      + multiset{Alloca(st.nextLoc)}
  {
    var r := st.nextReg;
    var t := st.nextLoc;
    var f1 := Append(st.f, pre, Alloca(t));
    var f2 := Retarget(f1, cold, h.ptr, t);
    var f3 := SetInst(f2, h.block, h.index, Load(r, t));
    var f4 := ReplaceUses(f3, h.dst, r);
    var f5 := Append(f4, pre, Load(h.dst, h.ptr));
    var f6 := Append(f5, pre, Store(h.dst, t));
    assert Step(st, cold, pre, h).f == f6;
    assert f3.body[pre] == f2.body[pre] == f1.body[pre];
    assert f4.body[pre] == RenameBlock(f3.body[pre], h.dst, r);
    assert f4.body[pre].insts == RenameBlock(st.f.body[pre], h.dst, r).insts + [Alloca(t)];
    assert f6.body[pre].insts == f4.body[pre].insts + [Load(h.dst, h.ptr)] + [Store(h.dst, t)];
  }

  lemma StepPreheaderReuse(st: RewriteState, cold: seq<BlockId>, pre: BlockId, h: LoadRef)
    requires StepReady(st, cold, pre, h) && h.ptr in st.temps
    ensures multiset(Accesses(Step(st, cold, pre, h).f.body[pre].insts)) ==
      multiset(Accesses(st.f.body[pre].insts)) + multiset{LoadOf(h.ptr), StoreTo(st.temps[h.ptr])}
  {
    var r := st.nextReg;
    var t := st.temps[h.ptr];
    var f1 := SetInst(st.f, h.block, h.index, Load(r, t));
    var f2 := ReplaceUses(f1, h.dst, r);
    var f3 := InsertAfterAlloca(f2, pre, t, Load(h.dst, h.ptr));
    var f4 := Append(f3, pre, Store(h.dst, t));
    assert Step(st, cold, pre, h).f == f4;
    assert f1.body[pre] == st.f.body[pre];
    SameAccesses(f1.body[pre].insts, f2.body[pre].insts);
    assert Accesses(f4.body[pre].insts) == Accesses(f3.body[pre].insts) + [StoreTo(t)];
  }

  lemma StepPreheaderFresh(st: RewriteState, cold: seq<BlockId>, pre: BlockId, h: LoadRef)
    requires StepReady(st, cold, pre, h) && h.ptr !in st.temps
    ensures multiset(Accesses(Step(st, cold, pre, h).f.body[pre].insts)) ==
      multiset(Accesses(st.f.body[pre].insts)) + multiset{LoadOf(h.ptr), StoreTo(st.nextLoc)} + multiset{AllocaOf(st.nextLoc)}
  {
    var r := st.nextReg;
    var t := st.nextLoc;
    var f1 := Append(st.f, pre, Alloca(t));
    var f2 := Retarget(f1, cold, h.ptr, t);
    var f3 := SetInst(f2, h.block, h.index, Load(r, t));
    var f4 := ReplaceUses(f3, h.dst, r);
    var f5 := Append(f4, pre, Load(h.dst, h.ptr));
    var f6 := Append(f5, pre, Store(h.dst, t));
    assert Step(st, cold, pre, h).f == f6;
    assert Accesses(f1.body[pre].insts) == Accesses(st.f.body[pre].insts) + [AllocaOf(t)];
    assert f3.body[pre] == f2.body[pre] == f1.body[pre];
    SameAccesses(f3.body[pre].insts, f4.body[pre].insts);
    assert f6.body[pre].insts == f4.body[pre].insts + [Load(h.dst, h.ptr)] + [Store(h.dst, t)];
    assert Accesses(f6.body[pre].insts) == Accesses(f4.body[pre].insts) + [LoadOf(h.ptr)] + [StoreTo(t)];
  }

  /** Two instruction lists that agree position by position on accesses have the same access list. */
  lemma SameAccesses(a: seq<Inst>, b: seq<Inst>)
    requires |a| == |b|
    requires forall i :: 0 <= i < |a| ==> AccessOf(a[i]) == AccessOf(b[i])
    ensures Accesses(a) == Accesses(b)
  {
  }

  /**
   * Outside the preheader one step puts a load of the temporary into the fresh register at
   * the hoisted load's position, and hands every use of the hoisted load's register to that
   * fresh register; everywhere else definitions stay and loads are untouched. Stated per
   * position.
   */
  lemma StepRegistersAt(st: RewriteState, cold: seq<BlockId>, pre: BlockId, h: LoadRef, b: BlockId, i: nat)
    requires StepReady(st, cold, pre, h)
    requires b in st.f.body && b != pre && i < |st.f.body[b].insts|
    ensures var x, y := st.f.body[b].insts[i], Step(st, cold, pre, h).f.body[b].insts[i];
      if b == h.block && i == h.index then y == Load(st.nextReg, TempFor(st, h.ptr))
      else
        && Defs(y) == Defs(x)
        && Uses(y) == (if h.dst in Uses(x) then Uses(x) - {h.dst} + {st.nextReg} else Uses(x))
        && (x.Load? ==> y == x)
  {
    var x := st.f.body[b].insts[i];
    var x1 := if b == h.block && i == h.index then Load(st.nextReg, TempFor(st, h.ptr)) else StepStoreAt(st, cold, h, b, x);
    if h.ptr in st.temps {
      StepRegistersReuse(st, cold, pre, h, b, i);
    } else {
      StepRegistersFresh(st, cold, pre, h, b, i);
    }
    RenamedRegisters(x, x1, Step(st, cold, pre, h).f.body[b].insts[i], h.dst, st.nextReg);
  }

  /** Renaming after at most a change of a store's pointer: definitions kept, one use swapped, loads untouched. */
  lemma RenamedRegisters(x: Inst, x1: Inst, y: Inst, from: Reg, into: Reg)
    requires y == RenameUse(x1, from, into)
    requires x1.Load? || x1 == x || (x.Store? && x1.Store? && x1.src == x.src)
    ensures x1.Load? ==> y == x1
    ensures !x1.Load? ==> Defs(y) == Defs(x) && Uses(y) == (if from in Uses(x) then Uses(x) - {from} + {into} else Uses(x))
    ensures !x1.Load? && x.Load? ==> y == x
  {
  }

  /** The instruction at (b, i) after a step's retargeting, before its renaming. */
  function StepStoreAt(st: RewriteState, cold: seq<BlockId>, h: LoadRef, b: BlockId, x: Inst): (y: Inst)
    ensures y == x || (x.Store? && y.Store? && y.src == x.src)
  {
    if h.ptr !in st.temps && b in cold then RetargetInst(x, h.ptr, st.nextLoc) else x
  }

  lemma StepRegistersReuse(st: RewriteState, cold: seq<BlockId>, pre: BlockId, h: LoadRef, b: BlockId, i: nat)
    requires StepReady(st, cold, pre, h) && h.ptr in st.temps
    requires b in st.f.body && b != pre && i < |st.f.body[b].insts|
    ensures var x := st.f.body[b].insts[i];
      var x1 := if b == h.block && i == h.index then Load(st.nextReg, st.temps[h.ptr]) else x;
      Step(st, cold, pre, h).f.body[b].insts[i] == RenameUse(x1, h.dst, st.nextReg)
  {
    var r := st.nextReg;
    var t := st.temps[h.ptr];
    var f1 := SetInst(st.f, h.block, h.index, Load(r, t));
    var f2 := ReplaceUses(f1, h.dst, r);
    var f3 := InsertAfterAlloca(f2, pre, t, Load(h.dst, h.ptr));
    var f4 := Append(f3, pre, Store(h.dst, t));
    assert Step(st, cold, pre, h).f == f4;
    assert f2.body[b] == RenameBlock(f1.body[b], h.dst, r);
    assert f4.body[b] == f2.body[b];
  }

  lemma StepRegistersFresh(st: RewriteState, cold: seq<BlockId>, pre: BlockId, h: LoadRef, b: BlockId, i: nat)
    requires StepReady(st, cold, pre, h) && h.ptr !in st.temps
    requires b in st.f.body && b != pre && i < |st.f.body[b].insts|
    ensures var x := st.f.body[b].insts[i];
      var x1 := if b == h.block && i == h.index then Load(st.nextReg, st.nextLoc) else StepStoreAt(st, cold, h, b, x);
      Step(st, cold, pre, h).f.body[b].insts[i] == RenameUse(x1, h.dst, st.nextReg)
  {
    var r := st.nextReg;
    var t := st.nextLoc;
    var f1 := Append(st.f, pre, Alloca(t));
    var f2 := Retarget(f1, cold, h.ptr, t);
    var f3 := SetInst(f2, h.block, h.index, Load(r, t));
    var f4 := ReplaceUses(f3, h.dst, r);
    var f5 := Append(f4, pre, Load(h.dst, h.ptr));
    var f6 := Append(f5, pre, Store(h.dst, t));
    assert Step(st, cold, pre, h).f == f6;
    assert f1.body[b] == st.f.body[b];
    assert f2.body[b].insts[i] == StepStoreAt(st, cold, h, b, st.f.body[b].insts[i]);
    assert f4.body[b] == RenameBlock(f3.body[b], h.dst, r);
    assert f6.body[b] == f4.body[b];
  }

  /** The positions (block, index) of the loads `hs`. */
  function Positions(hs: seq<LoadRef>): set<(BlockId, nat)> {
    set k | 0 <= k < |hs| :: (hs[k].block, hs[k].index)
  }

  /**
   * The access expected at a position after the rewrite: a hoisted load reads its pointer's
   * temporary, a cold store to a promoted pointer writes its temporary, all else is as before.
   */
  function Promoted(a: Access, hoisted: bool, inCold: bool, temps: map<Loc, Loc>): Access {
    match a
    case LoadOf(p) => if hoisted && p in temps then LoadOf(temps[p]) else a
    case StoreTo(p) => if inCold && p in temps then StoreTo(temps[p]) else a
    case _ => a
  }

  /**
   * The accesses the rewrite adds to the preheader for the loads `hs` under `temps`: per
   * load, the moved load of its pointer and a store into the pointer's temporary, plus the
   * temporary's allocation when the pointer was not seen before.
   */
  function Added(hs: seq<LoadRef>, temps: map<Loc, Loc>): multiset<Access>
    requires forall k :: 0 <= k < |hs| ==> hs[k].ptr in temps
    decreases |hs|
  {
    if hs == [] then multiset{}
    else
      var init, p := hs[..|hs| - 1], hs[|hs| - 1].ptr;
      Added(init, temps) + multiset{LoadOf(p), StoreTo(temps[p])}
      + (if p in Ptrs(init) then multiset{} else multiset{AllocaOf(temps[p])})
  }

  lemma AddedSnoc(init: seq<LoadRef>, h: LoadRef, temps: map<Loc, Loc>)
    requires forall k :: 0 <= k < |init| ==> init[k].ptr in temps
    requires h.ptr in temps
    ensures forall k :: 0 <= k < |init + [h]| ==> (init + [h])[k].ptr in temps
    ensures Added(init + [h], temps) == Added(init, temps) + multiset{LoadOf(h.ptr), StoreTo(temps[h.ptr])}
      + (if h.ptr in Ptrs(init) then multiset{} else multiset{AllocaOf(temps[h.ptr])})
  {
    assert (init + [h])[..|init|] == init;
  }

  /** `Added` only looks at the temporaries of the pointers of `hs`. */
  lemma {:induction false} AddedAgree(hs: seq<LoadRef>, t0: map<Loc, Loc>, t1: map<Loc, Loc>)
    requires forall k :: 0 <= k < |hs| ==> hs[k].ptr in t0 && hs[k].ptr in t1 && t0[hs[k].ptr] == t1[hs[k].ptr]
    ensures Added(hs, t0) == Added(hs, t1)
    decreases |hs|
  {
    if hs != [] {
      AddedAgree(hs[..|hs| - 1], t0, t1);
    }
  }

  /** The preheader gains one moved load of `q` per hoisted load of `q`. */
  lemma {:induction false} AddedLoads(hs: seq<LoadRef>, temps: map<Loc, Loc>, q: Loc)
    requires forall k :: 0 <= k < |hs| ==> hs[k].ptr in temps
    ensures Added(hs, temps)[LoadOf(q)] == multiset(Ptrs(hs))[q]
    decreases |hs|
  {
    if hs != [] {
      var init, h := hs[..|hs| - 1], hs[|hs| - 1];
      SplitLast(hs);
      PtrsSnoc(init, h);
      AddedLoads(init, temps, q);
      AddedSnoc(init, h, temps);
    }
  }

  /** With one temporary per pointer, the preheader gains one store into `temps[p]` per hoisted load of `p`. */
  lemma {:induction false} AddedStores(hs: seq<LoadRef>, temps: map<Loc, Loc>, p: Loc)
    requires forall k :: 0 <= k < |hs| ==> hs[k].ptr in temps
    requires Injective(temps) && p in temps
    ensures Added(hs, temps)[StoreTo(temps[p])] == multiset(Ptrs(hs))[p]
    decreases |hs|
  {
    if hs != [] {
      var init, h := hs[..|hs| - 1], hs[|hs| - 1];
      SplitLast(hs);
      PtrsSnoc(init, h);
      AddedStores(init, temps, p);
      AddedSnoc(init, h, temps);
      assert StoreTo(temps[h.ptr]) == StoreTo(temps[p]) <==> h.ptr == p;
    }
  }

  /**
   * With one temporary per pointer, the preheader gains exactly one allocation of `temps[p]`
   * when `p` is the pointer of some hoisted load, and none otherwise.
   */
  lemma {:induction false} AddedAllocas(hs: seq<LoadRef>, temps: map<Loc, Loc>, p: Loc)
    requires forall k :: 0 <= k < |hs| ==> hs[k].ptr in temps
    requires Injective(temps) && p in temps
    ensures Added(hs, temps)[AllocaOf(temps[p])] == if p in Ptrs(hs) then 1 else 0
    decreases |hs|
  {
    if hs != [] {
      var init, h := hs[..|hs| - 1], hs[|hs| - 1];
      SplitLast(hs);
      PtrsSnoc(init, h);
      AddedAllocas(init, temps, p);
      AddedSnoc(init, h, temps);
      assert AllocaOf(temps[h.ptr]) == AllocaOf(temps[p]) <==> h.ptr == p;
    }
  }

  /** Everything the preheader gains is a load of a hoisted pointer, or a store into or allocation of its temporary. */
  lemma {:induction false} AddedOnly(hs: seq<LoadRef>, temps: map<Loc, Loc>, x: Access)
    requires forall k :: 0 <= k < |hs| ==> hs[k].ptr in temps
    requires x in Added(hs, temps)
    ensures exists q :: q in Ptrs(hs) && q in temps && (x == LoadOf(q) || x == StoreTo(temps[q]) || x == AllocaOf(temps[q]))
    decreases |hs|
  {
    var init, h := hs[..|hs| - 1], hs[|hs| - 1];
    SplitLast(hs);
    PtrsSnoc(init, h);
    AddedSnoc(init, h, temps);
    if x in Added(init, temps) {
      AddedOnly(init, temps, x);
      var q :| q in Ptrs(init) && q in temps && (x == LoadOf(q) || x == StoreTo(temps[q]) || x == AllocaOf(temps[q]));
      assert q in Ptrs(hs);
    } else {
      assert h.ptr in Ptrs(hs);
    }
  }

  /**
   * What the rewrite of a loop needs: the preheader exists and is not cold, and every load
   * of `hs` is present and lies outside the preheader.
   */
  predicate Ready(f: Function, cold: seq<BlockId>, pre: BlockId, hs: seq<LoadRef>) {
    && pre in f.body && pre !in cold
    && forall k :: 0 <= k < |hs| ==> LoadAt(f, hs[k]) && hs[k].block != pre
  }

  /** `base` and `regBase` are above every location and register of `f`: names from there on are fresh. */
  ghost predicate FreshFrom(f: Function, base: Loc, regBase: Reg) {
    LocsBelow(f, base) && RegsBelow(f, regBase)
  }

  /** The loads `hs` minus the last one are ready too. */
  lemma ReadyInit(f: Function, cold: seq<BlockId>, pre: BlockId, hs: seq<LoadRef>)
    requires hs != [] && Ready(f, cold, pre, hs)
    ensures Ready(f, cold, pre, hs[..|hs| - 1])
    ensures LoadAt(f, hs[|hs| - 1]) && hs[|hs| - 1].block != pre
  {
  }

  /**
   * The rewrite loop over the hoistable loads `hs`, in order, from an empty map; the
   * temporaries are numbered from `base`, the fresh loads' registers from `regBase`.
   */
  function RewriteAll(f: Function, cold: seq<BlockId>, pre: BlockId, hs: seq<LoadRef>, base: Loc, regBase: Reg): (st: RewriteState)
    requires Ready(f, cold, pre, hs)
    ensures SameCfg(f, st.f)
    ensures forall b :: b in f.body && b != pre ==> |st.f.body[b].insts| == |f.body[b].insts|
    decreases |hs|
  {
    if hs == [] then RewriteState(f, map[], base, regBase)
    else
      ReadyInit(f, cold, pre, hs);
      var st0 := RewriteAll(f, cold, pre, hs[..|hs| - 1], base, regBase);
      Step(st0, cold, pre, hs[|hs| - 1])
  }

  /** One step of the fold, unrolled: the state before the last load and the step on it. */
  lemma RewriteAllLast(f: Function, cold: seq<BlockId>, pre: BlockId, hs: seq<LoadRef>, base: Loc, regBase: Reg)
    requires hs != [] && Ready(f, cold, pre, hs)
    ensures Ready(f, cold, pre, hs[..|hs| - 1])
    ensures var st0 := RewriteAll(f, cold, pre, hs[..|hs| - 1], base, regBase);
      && StepReady(st0, cold, pre, hs[|hs| - 1])
      && RewriteAll(f, cold, pre, hs, base, regBase) == Step(st0, cold, pre, hs[|hs| - 1])
  {
    ReadyInit(f, cold, pre, hs);
  }

  /**
   * After the loop the map gives every pointer of `hs` its temporary, numbered from `base`
   * in first-occurrence order; one location per distinct pointer and one register per load
   * have been used.
   */
  lemma {:induction false} RewriteAllCounters(f: Function, cold: seq<BlockId>, pre: BlockId, hs: seq<LoadRef>, base: Loc, regBase: Reg)
    requires Ready(f, cold, pre, hs)
    ensures var st := RewriteAll(f, cold, pre, hs, base, regBase);
      && st.temps == TempMap(Ptrs(hs), base)
      && st.nextLoc == base + |Dedup(Ptrs(hs))|
      && st.nextReg == regBase + |hs|
    decreases |hs|
  {
    if hs != [] {
      var init, h := hs[..|hs| - 1], hs[|hs| - 1];
      SplitLast(hs);
      PtrsSnoc(init, h);
      RewriteAllLast(f, cold, pre, hs, base, regBase);
      RewriteAllCounters(f, cold, pre, init, base, regBase);
      CountersStep(RewriteAll(f, cold, pre, init, base, regBase), RewriteAll(f, cold, pre, hs, base, regBase), init, h, base, regBase);
    }
  }

  /** A step's effect on the counters (as `Step` promises it) keeps them in line with the loads processed. */
  lemma CountersStep(st0: RewriteState, g: RewriteState, init: seq<LoadRef>, h: LoadRef, base: Loc, regBase: Reg)
    requires st0.temps == TempMap(Ptrs(init), base)
    requires st0.nextLoc == base + |Dedup(Ptrs(init))|
    requires st0.nextReg == regBase + |init|
    requires h.ptr in st0.temps ==> g.temps == st0.temps && g.nextLoc == st0.nextLoc
    requires h.ptr !in st0.temps ==> g.temps == st0.temps[h.ptr := st0.nextLoc] && g.nextLoc == st0.nextLoc + 1
    requires g.nextReg == st0.nextReg + 1
    ensures g.temps == TempMap(Ptrs(init) + [h.ptr], base)
    ensures g.nextLoc == base + |Dedup(Ptrs(init) + [h.ptr])|
    ensures g.nextReg == regBase + |init| + 1
  {
    TempMapSnoc(Ptrs(init), h.ptr, base);
    DedupSnoc(Ptrs(init), h.ptr);
    if h.ptr in Ptrs(init) {
      assert h.ptr in st0.temps;
    } else {
      assert h.ptr !in st0.temps;
    }
  }

  /** The locations the loads `hs` read lie below `base`, the registers they define below `regBase`. */
  lemma ReadyBounds(f: Function, cold: seq<BlockId>, pre: BlockId, hs: seq<LoadRef>, base: Loc, regBase: Reg)
    requires Ready(f, cold, pre, hs) && FreshFrom(f, base, regBase)
    ensures forall k :: 0 <= k < |hs| ==> hs[k].ptr < base && hs[k].dst < regBase
  {
    forall k | 0 <= k < |hs|
      ensures hs[k].ptr < base && hs[k].dst < regBase
    {
      assert LoadAt(f, hs[k]);
      assert AccessOf(f.body[hs[k].block].insts[hs[k].index]) == LoadOf(hs[k].ptr);
      assert hs[k].dst in Defs(f.body[hs[k].block].insts[hs[k].index]);
    }
  }

  /** A position of `hs` holds a load of one of the pointers of `hs`. */
  lemma PositionsLoad(f: Function, cold: seq<BlockId>, pre: BlockId, hs: seq<LoadRef>, b: BlockId, i: nat)
    requires Ready(f, cold, pre, hs)
    requires b in f.body && i < |f.body[b].insts| && (b, i) in Positions(hs)
    ensures AccessOf(f.body[b].insts[i]).LoadOf? && AccessOf(f.body[b].insts[i]).loc in Ptrs(hs)
  {
    var k :| 0 <= k < |hs| && (hs[k].block, hs[k].index) == (b, i);
    assert LoadAt(f, hs[k]);
    assert Ptrs(hs)[k] == hs[k].ptr;
  }

  /** The positions of `hs` are those of its prefix plus the last load's. */
  lemma PositionsLast(hs: seq<LoadRef>, b: BlockId, i: nat)
    requires hs != []
    ensures (b, i) in Positions(hs) <==>
      (b, i) in Positions(hs[..|hs| - 1]) || (b == hs[|hs| - 1].block && i == hs[|hs| - 1].index)
  {
    var init := hs[..|hs| - 1];
    if (b, i) in Positions(hs) {
      var k :| 0 <= k < |hs| && (hs[k].block, hs[k].index) == (b, i);
      if k < |init| {
        assert (init[k].block, init[k].index) == (b, i);
      }
    }
    if (b, i) in Positions(init) {
      var k :| 0 <= k < |init| && (init[k].block, init[k].index) == (b, i);
      assert (hs[k].block, hs[k].index) == (b, i);
    }
    if b == hs[|hs| - 1].block && i == hs[|hs| - 1].index {
      assert (hs[|hs| - 1].block, hs[|hs| - 1].index) == (b, i);
    }
  }

  /**
   * How one step moves the expected access of a position along: from `Promoted` under the
   * old map to `Promoted` under the map extended with the pointer `p` of the processed load.
   * Original locations lie below `base`, temporaries at or above it.
   */
  lemma PromotedStep(a: Access, before: bool, here: bool, inCold: bool, t0: map<Loc, Loc>, p: Loc, next: Loc, base: Loc)
    requires a.LoadOf? || a.StoreTo? || a.AllocaOf? ==> a.loc < base
    requires p < base && base <= next
    requires forall q :: q in t0 ==> base <= t0[q]
    requires before ==> a.LoadOf? && a.loc in t0
    requires here ==> a == LoadOf(p)
    ensures var t1 := t0[p := if p in t0 then t0[p] else next];
      var a0 := Promoted(a, before, inCold, t0);
      (if here then LoadOf(t1[p])
       else if p !in t0 && inCold && a0 == StoreTo(p) then StoreTo(next)
       else a0)
      == Promoted(a, before || here, inCold, t1)
  {
  }

  /** `RewriteAllAccesses` at one position. */
  lemma {:induction false} RewriteAllAccessAt(f: Function, cold: seq<BlockId>, pre: BlockId, hs: seq<LoadRef>, base: Loc, regBase: Reg, b: BlockId, i: nat)
    requires Ready(f, cold, pre, hs) && FreshFrom(f, base, regBase)
    requires b in f.body && b != pre && i < |f.body[b].insts|
    ensures var st := RewriteAll(f, cold, pre, hs, base, regBase);
      AccessOf(st.f.body[b].insts[i]) == Promoted(AccessOf(f.body[b].insts[i]), (b, i) in Positions(hs), b in cold, st.temps)
    decreases |hs|
  {
    if hs != [] {
      var init, h := hs[..|hs| - 1], hs[|hs| - 1];
      RewriteAllLast(f, cold, pre, hs, base, regBase);
      RewriteAllAccessAt(f, cold, pre, init, base, regBase, b, i);
      var st0 := RewriteAll(f, cold, pre, init, base, regBase);
      StepAccessAt(st0, cold, pre, h, b, i);
      RewriteAllCounters(f, cold, pre, init, base, regBase);
      TempMapNumbering(Ptrs(init), base);
      PositionsLast(hs, b, i);
      var a := AccessOf(f.body[b].insts[i]);
      var before := (b, i) in Positions(init);
      var here := b == h.block && i == h.index;
      if before {
        PositionsLoad(f, cold, pre, init, b, i);
      }
      ReadyBounds(f, cold, pre, hs, base, regBase);
      assert h.ptr < base;
      assert a.LoadOf? || a.StoreTo? || a.AllocaOf? ==> a.loc < base by {
        assert LocsBelow(f, base);
      }
      PromotedStep(a, before, here, b in cold, st0.temps, h.ptr, st0.nextLoc, base);
    }
  }

  /**
   * Outside the preheader, the rewrite leaves exactly the `Promoted` access at every
   * position: hoisted loads read their pointer's temporary, cold stores to a promoted pointer
   * write its temporary, and every other access is unchanged.
   */
  lemma RewriteAllAccesses(f: Function, cold: seq<BlockId>, pre: BlockId, hs: seq<LoadRef>, base: Loc, regBase: Reg)
    requires Ready(f, cold, pre, hs) && FreshFrom(f, base, regBase)
    ensures var st := RewriteAll(f, cold, pre, hs, base, regBase);
      forall b, i :: b in f.body && b != pre && 0 <= i < |f.body[b].insts| ==>
        AccessOf(st.f.body[b].insts[i]) == Promoted(AccessOf(f.body[b].insts[i]), (b, i) in Positions(hs), b in cold, st.temps)
  {
    forall b, i | b in f.body && b != pre && 0 <= i < |f.body[b].insts|
      ensures var st := RewriteAll(f, cold, pre, hs, base, regBase);
        AccessOf(st.f.body[b].insts[i]) == Promoted(AccessOf(f.body[b].insts[i]), (b, i) in Positions(hs), b in cold, st.temps)
    {
      RewriteAllAccessAt(f, cold, pre, hs, base, regBase, b, i);
    }
  }

  /**
   * The preheader keeps its accesses and gains exactly: one moved load of the pointer and
   * one store into its temporary per hoisted load, and one allocation per distinct pointer.
   */
  lemma {:induction false} RewriteAllPreheader(f: Function, cold: seq<BlockId>, pre: BlockId, hs: seq<LoadRef>, base: Loc, regBase: Reg)
    requires Ready(f, cold, pre, hs)
    ensures var st := RewriteAll(f, cold, pre, hs, base, regBase);
      && (forall k :: 0 <= k < |hs| ==> hs[k].ptr in st.temps)
      && multiset(Accesses(st.f.body[pre].insts)) == multiset(Accesses(f.body[pre].insts)) + Added(hs, st.temps)
    decreases |hs|
  {
    RewriteAllCounters(f, cold, pre, hs, base, regBase);
    assert forall k :: 0 <= k < |hs| ==> hs[k].ptr == Ptrs(hs)[k];
    if hs != [] {
      var init, h := hs[..|hs| - 1], hs[|hs| - 1];
      SplitLast(hs);
      RewriteAllLast(f, cold, pre, hs, base, regBase);
      RewriteAllPreheader(f, cold, pre, init, base, regBase);
      RewriteAllCounters(f, cold, pre, init, base, regBase);
      var st0, st := RewriteAll(f, cold, pre, init, base, regBase), RewriteAll(f, cold, pre, hs, base, regBase);
      StepPreheader(st0, cold, pre, h);
      PreheaderStep(st0, init, h, base, multiset(Accesses(f.body[pre].insts)),
        multiset(Accesses(st0.f.body[pre].insts)), multiset(Accesses(st.f.body[pre].insts)));
    }
  }

  /** A step's preheader growth (as `StepPreheader` states it) keeps the preheader equal to its original accesses plus `Added`. */
  lemma PreheaderStep(st0: RewriteState, init: seq<LoadRef>, h: LoadRef, base: Loc, orig: multiset<Access>, m0: multiset<Access>, m1: multiset<Access>)
    requires st0.temps == TempMap(Ptrs(init), base)
    requires st0.nextLoc == base + |Dedup(Ptrs(init))|
    requires forall k :: 0 <= k < |init| ==> init[k].ptr in st0.temps
    requires m0 == orig + Added(init, st0.temps)
    requires m1 == m0 + multiset{LoadOf(h.ptr), StoreTo(TempFor(st0, h.ptr))}
      + (if h.ptr in st0.temps then multiset{} else multiset{AllocaOf(st0.nextLoc)})
    ensures forall k :: 0 <= k < |init + [h]| ==> (init + [h])[k].ptr in TempMap(Ptrs(init + [h]), base)
    ensures m1 == orig + Added(init + [h], TempMap(Ptrs(init + [h]), base))
  {
    var t1 := TempMap(Ptrs(init + [h]), base);
    var p := h.ptr;
    assert (forall k :: 0 <= k < |init| ==> init[k].ptr in t1 && init[k].ptr in st0.temps && st0.temps[init[k].ptr] == t1[init[k].ptr])
      && p in t1 && (p in st0.temps <==> p in Ptrs(init)) && TempFor(st0, p) == t1[p]
      && (p !in st0.temps ==> st0.nextLoc == t1[p]) by {
      PtrsSnoc(init, h);
      TempMapSnoc(Ptrs(init), p, base);
      TempMapGrows(Ptrs(init), [p], base);
      assert forall k :: 0 <= k < |init| ==> init[k].ptr == Ptrs(init)[k];
    }
    var a := Added(init, t1);
    var x := multiset{LoadOf(p), StoreTo(t1[p])};
    var z := if p in Ptrs(init) then multiset{} else multiset{AllocaOf(t1[p])};
    assert Added(init, st0.temps) == a by {
      AddedAgree(init, st0.temps, t1);
    }
    assert Added(init + [h], t1) == a + x + z by {
      AddedSnoc(init, h, t1);
    }
    assert m1 == (orig + a) + x + z;
    Regroup(orig, a, x, z);
  }

  lemma Regroup<T>(o: multiset<T>, a: multiset<T>, x: multiset<T>, z: multiset<T>)
    ensures (o + a) + x + z == o + (a + x + z)
  {
  }

  /** The registers the loads `hs` define, in order. */
  function Dsts(hs: seq<LoadRef>): (rs: seq<Reg>)
    ensures |rs| == |hs|
    ensures forall k :: 0 <= k < |hs| ==> rs[k] == hs[k].dst
  {
    seq(|hs|, k requires 0 <= k < |hs| => hs[k].dst)
  }

  /**
   * The register that holds, after the rewrite of `hs`, the value `r` held before: the fresh
   * register `regBase + k` of the first hoisted load `hs[k]` that defined `r`, or `r` itself.
   */
  function HandedTo(hs: seq<LoadRef>, regBase: Reg, r: Reg): Reg {
    if r in Dsts(hs) then regBase + IndexOf(Dsts(hs), r) else r
  }

  /** The registers `uses`, each handed over as `HandedTo` says. */
  function HandedOver(uses: set<Reg>, hs: seq<LoadRef>, regBase: Reg): set<Reg> {
    set r | r in uses :: HandedTo(hs, regBase, r)
  }

  /** When the hoisted loads define distinct registers, the k-th one's register goes to `regBase + k`. */
  lemma HandedToDistinct(hs: seq<LoadRef>, regBase: Reg, k: nat)
    requires Distinct(Dsts(hs)) && k < |hs|
    ensures HandedTo(hs, regBase, hs[k].dst) == regBase + k
  {
    assert Dsts(hs)[k] == hs[k].dst;
  }

  /** Handing over by one more load renames that load's register, unless an earlier load already took it. */
  lemma HandedOverSnoc(uses: set<Reg>, init: seq<LoadRef>, h: LoadRef, regBase: Reg)
    requires forall r :: r in uses ==> r < regBase
    requires forall k :: 0 <= k < |init| ==> init[k].dst < regBase
    requires h.dst < regBase
    ensures var s0 := HandedOver(uses, init, regBase);
      HandedOver(uses, init + [h], regBase) == if h.dst in s0 then s0 - {h.dst} + {regBase + |init|} else s0
  {
    var hs := init + [h];
    var s0 := HandedOver(uses, init, regBase);
    var s1 := HandedOver(uses, hs, regBase);
    assert Dsts(hs) == Dsts(init) + [h.dst];
    forall r | r in uses
      ensures HandedTo(hs, regBase, r) ==
        if r in Dsts(init) then HandedTo(init, regBase, r) else if r == h.dst then regBase + |init| else r
    {
      if r in Dsts(init) || r == h.dst {
        IndexOfSnoc(Dsts(init), h.dst, r);
      }
    }
    assert h.dst in s0 <==> h.dst in uses && h.dst !in Dsts(init) by {
      if h.dst in s0 {
        var r :| r in uses && HandedTo(init, regBase, r) == h.dst;
      }
    }
    var s2 := if h.dst in s0 then s0 - {h.dst} + {regBase + |init|} else s0;
    forall y | y in s1
      ensures y in s2
    {
      var r :| r in uses && HandedTo(hs, regBase, r) == y;
      assert HandedTo(init, regBase, r) in s0;
    }
    forall y | y in s2
      ensures y in s1
    {
      if y in s0 && y != h.dst {
        var r :| r in uses && HandedTo(init, regBase, r) == y;
        assert HandedTo(hs, regBase, r) == y;
      } else {
        assert HandedTo(hs, regBase, h.dst) == y;
      }
    }
  }

  /** How one step moves the register facts of a position outside the preheader along. */
  lemma RegistersStep(x: Inst, y0: Inst, y: Inst, init: seq<LoadRef>, h: LoadRef, regBase: Reg, here: bool, y1: Inst)
    requires forall r :: r in Uses(x) ==> r < regBase
    requires forall k :: 0 <= k < |init| ==> init[k].dst < regBase
    requires h.dst < regBase
    requires Uses(y0) == HandedOver(Uses(x), init, regBase)
    requires here ==> x == Load(h.dst, h.ptr) && y == y1
    requires !here ==> Uses(y) == (if h.dst in Uses(y0) then Uses(y0) - {h.dst} + {regBase + |init|} else Uses(y0))
    requires y1.Load?
    ensures Uses(y) == HandedOver(Uses(x), init + [h], regBase)
  {
    HandedOverSnoc(Uses(x), init, h, regBase);
    if here {
      assert Uses(x) == {};
      assert HandedOver(Uses(x), init + [h], regBase) == {};
    }
  }

  /**
   * `RewriteAllUses` at one position: each register read there afterwards is the one the
   * original reading is handed over to.
   */
  lemma {:induction false} RewriteAllUsesAt(f: Function, cold: seq<BlockId>, pre: BlockId, hs: seq<LoadRef>, base: Loc, regBase: Reg, b: BlockId, i: nat)
    requires Ready(f, cold, pre, hs) && FreshFrom(f, base, regBase)
    requires b in f.body && b != pre && i < |f.body[b].insts|
    ensures Uses(RewriteAll(f, cold, pre, hs, base, regBase).f.body[b].insts[i]) == HandedOver(Uses(f.body[b].insts[i]), hs, regBase)
    decreases |hs|
  {
    var x := f.body[b].insts[i];
    if hs == [] {
      assert HandedOver(Uses(x), hs, regBase) == Uses(x);
    } else {
      var init, h := hs[..|hs| - 1], hs[|hs| - 1];
      SplitLast(hs);
      RewriteAllLast(f, cold, pre, hs, base, regBase);
      RewriteAllUsesAt(f, cold, pre, init, base, regBase, b, i);
      RewriteAllCounters(f, cold, pre, init, base, regBase);
      ReadyBounds(f, cold, pre, hs, base, regBase);
      var st0 := RewriteAll(f, cold, pre, init, base, regBase);
      StepRegistersAt(st0, cold, pre, h, b, i);
      assert forall r :: r in Uses(x) ==> r < regBase by {
        assert RegsBelow(f, regBase);
      }
      var here := b == h.block && i == h.index;
      RegistersStep(x, st0.f.body[b].insts[i], RewriteAll(f, cold, pre, hs, base, regBase).f.body[b].insts[i],
        init, h, regBase, here, Load(st0.nextReg, TempFor(st0, h.ptr)));
    }
  }

  /**
   * Outside the preheader every instruction reads, for each register a hoisted load defined,
   * the fresh register of the load from the temporary that replaced it, and otherwise what
   * it read before; in particular no hoisted load's register is read there any more.
   */
  lemma RewriteAllUses(f: Function, cold: seq<BlockId>, pre: BlockId, hs: seq<LoadRef>, base: Loc, regBase: Reg)
    requires Ready(f, cold, pre, hs) && FreshFrom(f, base, regBase)
    ensures var st := RewriteAll(f, cold, pre, hs, base, regBase);
      forall b, i :: b in f.body && b != pre && 0 <= i < |f.body[b].insts| ==>
        Uses(st.f.body[b].insts[i]) == HandedOver(Uses(f.body[b].insts[i]), hs, regBase)
    ensures var st := RewriteAll(f, cold, pre, hs, base, regBase);
      forall b, i, h :: b in f.body && b != pre && 0 <= i < |f.body[b].insts| && h in hs ==>
        h.dst !in Uses(st.f.body[b].insts[i])
  {
    ReadyBounds(f, cold, pre, hs, base, regBase);
    forall b, i | b in f.body && b != pre && 0 <= i < |f.body[b].insts|
      ensures var st := RewriteAll(f, cold, pre, hs, base, regBase);
        Uses(st.f.body[b].insts[i]) == HandedOver(Uses(f.body[b].insts[i]), hs, regBase)
    {
      RewriteAllUsesAt(f, cold, pre, hs, base, regBase, b, i);
    }
    forall b, i, h | b in f.body && b != pre && 0 <= i < |f.body[b].insts| && h in hs
      ensures var st := RewriteAll(f, cold, pre, hs, base, regBase);
        h.dst !in Uses(st.f.body[b].insts[i])
    {
      var k :| 0 <= k < |hs| && hs[k] == h;
      assert Dsts(hs)[k] == h.dst;
      assert forall r :: r in Uses(f.body[b].insts[i]) ==> r < regBase by {
        assert RegsBelow(f, regBase);
      }
      HandedOverAvoids(Uses(f.body[b].insts[i]), hs, regBase, h.dst);
    }
  }

  /** Two hoisted loads at the same position are the same load. */
  lemma SamePosition(f: Function, cold: seq<BlockId>, pre: BlockId, hs: seq<LoadRef>, j: nat, k: nat)
    requires Ready(f, cold, pre, hs) && Distinct(hs)
    requires j < |hs| && k < |hs| && hs[j].block == hs[k].block && hs[j].index == hs[k].index
    ensures j == k
  {
    assert LoadAt(f, hs[j]) && LoadAt(f, hs[k]);
  }

  /** The last step of the fold at one position outside the preheader, as `StepRegistersAt` states it. */
  lemma RewriteAllStepAt(f: Function, cold: seq<BlockId>, pre: BlockId, hs: seq<LoadRef>, base: Loc, regBase: Reg, b: BlockId, i: nat)
    requires hs != [] && Ready(f, cold, pre, hs)
    requires b in f.body && b != pre && i < |f.body[b].insts|
    ensures Ready(f, cold, pre, hs[..|hs| - 1])
    ensures var init, h := hs[..|hs| - 1], hs[|hs| - 1];
      var st0, st := RewriteAll(f, cold, pre, init, base, regBase), RewriteAll(f, cold, pre, hs, base, regBase);
      var y0, y := st0.f.body[b].insts[i], st.f.body[b].insts[i];
      && (h.block == b && h.index == i ==> y.Load? && y.dst == regBase + |init| && y.ptr == TempFor(st0, h.ptr))
      && (!(h.block == b && h.index == i) ==> Defs(y) == Defs(y0) && (y0.Load? ==> y == y0))
  {
    var init, h := hs[..|hs| - 1], hs[|hs| - 1];
    RewriteAllLast(f, cold, pre, hs, base, regBase);
    RewriteAllNextReg(f, cold, pre, init, base, regBase);
    var st0 := RewriteAll(f, cold, pre, init, base, regBase);
    StepRegistersAt(st0, cold, pre, h, b, i);
  }

  /** The last step of the fold only adds the last pointer's temporary to the map. */
  lemma RewriteAllTempsStep(f: Function, cold: seq<BlockId>, pre: BlockId, hs: seq<LoadRef>, base: Loc, regBase: Reg)
    requires hs != [] && Ready(f, cold, pre, hs)
    ensures Ready(f, cold, pre, hs[..|hs| - 1])
    ensures var init, h := hs[..|hs| - 1], hs[|hs| - 1];
      var st0, st := RewriteAll(f, cold, pre, init, base, regBase), RewriteAll(f, cold, pre, hs, base, regBase);
      && h.ptr in st.temps && st.temps[h.ptr] == TempFor(st0, h.ptr)
      && (forall p :: p in st0.temps ==> p in st.temps && st.temps[p] == st0.temps[p])
  {
    RewriteAllLast(f, cold, pre, hs, base, regBase);
  }

  /** The fold has used one fresh register per load. */
  lemma {:induction false} RewriteAllNextReg(f: Function, cold: seq<BlockId>, pre: BlockId, hs: seq<LoadRef>, base: Loc, regBase: Reg)
    requires Ready(f, cold, pre, hs)
    ensures RewriteAll(f, cold, pre, hs, base, regBase).nextReg == regBase + |hs|
    decreases |hs|
  {
    if hs != [] {
      RewriteAllLast(f, cold, pre, hs, base, regBase);
      RewriteAllNextReg(f, cold, pre, hs[..|hs| - 1], base, regBase);
    }
  }

  /** How one step moves the definition facts of a position outside the preheader along. */
  lemma DefsStep(x: Inst, y0: Inst, y: Inst, hs: seq<LoadRef>, init: seq<LoadRef>, h: LoadRef, regBase: Reg, t0: map<Loc, Loc>, t1: map<Loc, Loc>, tnew: Loc,
                 b: BlockId, i: nat, before: bool, after: bool)
    requires hs == init + [h]
    requires before ==> !(h.block == b && h.index == i)
    requires after <==> before || (h.block == b && h.index == i)
    requires !before ==> Defs(y0) == Defs(x) && (x.Load? ==> y0 == x)
    requires forall k :: 0 <= k < |init| && init[k].block == b && init[k].index == i ==>
      before && init[k].ptr in t0 && y0 == Load(regBase + k, t0[init[k].ptr])
    requires h.block == b && h.index == i ==> y == Load(regBase + |init|, tnew) && h.ptr in t1 && t1[h.ptr] == tnew
    requires !(h.block == b && h.index == i) ==> Defs(y) == Defs(y0) && (y0.Load? ==> y == y0)
    requires forall p :: p in t0 ==> p in t1 && t1[p] == t0[p]
    ensures !after ==> Defs(y) == Defs(x) && (x.Load? ==> y == x)
    ensures forall k :: 0 <= k < |hs| && hs[k].block == b && hs[k].index == i ==>
      hs[k].ptr in t1 && y == Load(regBase + k, t1[hs[k].ptr])
  {
    forall k | 0 <= k < |hs| && hs[k].block == b && hs[k].index == i
      ensures hs[k].ptr in t1 && y == Load(regBase + k, t1[hs[k].ptr])
    {
      if k < |init| {
        assert hs[k] == init[k];
      }
    }
  }

  /** The position facts one step of `RewriteAllDefsAt` needs, over `hs` alone. */
  lemma PositionsStep(f: Function, cold: seq<BlockId>, pre: BlockId, hs: seq<LoadRef>, b: BlockId, i: nat)
    requires hs != [] && Ready(f, cold, pre, hs) && Distinct(hs)
    ensures var init, h := hs[..|hs| - 1], hs[|hs| - 1];
      && Distinct(init)
      && ((b, i) in Positions(hs) <==> (b, i) in Positions(init) || (h.block == b && h.index == i))
      && ((b, i) in Positions(init) ==> !(h.block == b && h.index == i))
      && (forall k :: 0 <= k < |init| && init[k].block == b && init[k].index == i ==> (b, i) in Positions(init))
      && (forall k :: 0 <= k < |init| ==> init[k].ptr in Ptrs(init))
  {
    var init, h := hs[..|hs| - 1], hs[|hs| - 1];
    var n := |init|;
    assert forall k :: 0 <= k < n ==> init[k] == hs[k];
    PositionsLast(hs, b, i);
    forall k | 0 <= k < n && init[k].block == b && init[k].index == i
      ensures (b, i) in Positions(init)
    {
      assert (init[k].block, init[k].index) in Positions(init);
    }
    assert forall k :: 0 <= k < n ==> Ptrs(init)[k] == init[k].ptr;
  }

  /**
   * `RewriteAllDefs` at one position: a hoisted position now holds the load of the
   * temporary into that load's fresh register, and every other position defines what it
   * defined before and keeps its loads.
   */
  lemma {:induction false} RewriteAllDefsAt(f: Function, cold: seq<BlockId>, pre: BlockId, hs: seq<LoadRef>, base: Loc, regBase: Reg, b: BlockId, i: nat)
    requires Ready(f, cold, pre, hs) && Distinct(hs)
    requires b in f.body && b != pre && i < |f.body[b].insts|
    ensures var st := RewriteAll(f, cold, pre, hs, base, regBase);
      var x, y := f.body[b].insts[i], st.f.body[b].insts[i];
      && ((b, i) !in Positions(hs) ==> Defs(y) == Defs(x) && (x.Load? ==> y == x))
      && (forall k :: 0 <= k < |hs| && hs[k].block == b && hs[k].index == i ==>
            hs[k].ptr in st.temps && y == Load(regBase + k, st.temps[hs[k].ptr]))
    decreases |hs|
  {
    if hs != [] {
      var init, h := hs[..|hs| - 1], hs[|hs| - 1];
      SplitLast(hs);
      PositionsStep(f, cold, pre, hs, b, i);
      RewriteAllDefsAt(f, cold, pre, init, base, regBase, b, i);
      RewriteAllStepAt(f, cold, pre, hs, base, regBase, b, i);
      RewriteAllTempsStep(f, cold, pre, hs, base, regBase);
      var st0 := RewriteAll(f, cold, pre, init, base, regBase);
      var st := RewriteAll(f, cold, pre, hs, base, regBase);
      DefsStep(f.body[b].insts[i], st0.f.body[b].insts[i], st.f.body[b].insts[i], hs, init, h, regBase, st0.temps, st.temps, TempFor(st0, h.ptr),
        b, i, (b, i) in Positions(init), (b, i) in Positions(hs));
    }
  }

  /**
   * The hoisted loads are replaced by loads of their temporaries into fresh registers, the
   * k-th into `regBase + k`; outside the preheader every other position defines what it
   * defined before, and every other load is untouched.
   */
  lemma RewriteAllDefs(f: Function, cold: seq<BlockId>, pre: BlockId, hs: seq<LoadRef>, base: Loc, regBase: Reg)
    requires Ready(f, cold, pre, hs) && Distinct(hs)
    ensures var st := RewriteAll(f, cold, pre, hs, base, regBase);
      forall k :: 0 <= k < |hs| ==>
        hs[k].ptr in st.temps && st.f.body[hs[k].block].insts[hs[k].index] == Load(regBase + k, st.temps[hs[k].ptr])
    ensures var st := RewriteAll(f, cold, pre, hs, base, regBase);
      forall b, i :: b in f.body && b != pre && 0 <= i < |f.body[b].insts| && (b, i) !in Positions(hs) ==>
        Defs(st.f.body[b].insts[i]) == Defs(f.body[b].insts[i])
        && (f.body[b].insts[i].Load? ==> st.f.body[b].insts[i] == f.body[b].insts[i])
  {
    forall k | 0 <= k < |hs|
      ensures var st := RewriteAll(f, cold, pre, hs, base, regBase);
        hs[k].ptr in st.temps && st.f.body[hs[k].block].insts[hs[k].index] == Load(regBase + k, st.temps[hs[k].ptr])
    {
      assert LoadAt(f, hs[k]);
      RewriteAllDefsAt(f, cold, pre, hs, base, regBase, hs[k].block, hs[k].index);
    }
    forall b, i | b in f.body && b != pre && 0 <= i < |f.body[b].insts| && (b, i) !in Positions(hs)
      ensures var st := RewriteAll(f, cold, pre, hs, base, regBase);
        Defs(st.f.body[b].insts[i]) == Defs(f.body[b].insts[i])
        && (f.body[b].insts[i].Load? ==> st.f.body[b].insts[i] == f.body[b].insts[i])
    {
      RewriteAllDefsAt(f, cold, pre, hs, base, regBase, b, i);
    }
  }

  /** Renaming a register keeps a load in front of a store of another register. */
  lemma PrecedesRenamed(blk: Block, from: Reg, into: Reg, x: Inst, y: Inst)
    requires Precedes(blk.insts, x, y)
    requires x.Load? && y.Store? && y.src != from
    ensures Precedes(RenameBlock(blk, from, into).insts, x, y)
  {
    var i, j :| 0 <= i < j < |blk.insts| && blk.insts[i] == x && blk.insts[j] == y;
    assert RenameBlock(blk, from, into).insts[i] == x && RenameBlock(blk, from, into).insts[j] == y;
  }

  /**
   * One step keeps every load of the preheader in front of every later store of another
   * register, and puts the moved load in front of the store of its value.
   */
  lemma StepPreheaderOrder(st: RewriteState, cold: seq<BlockId>, pre: BlockId, h: LoadRef, x: Inst, y: Inst)
    requires StepReady(st, cold, pre, h)
    ensures Precedes(Step(st, cold, pre, h).f.body[pre].insts, Load(h.dst, h.ptr), Store(h.dst, TempFor(st, h.ptr)))
    ensures Precedes(st.f.body[pre].insts, x, y) && x.Load? && y.Store? && y.src != h.dst ==>
      Precedes(Step(st, cold, pre, h).f.body[pre].insts, x, y)
  {
    if h.ptr in st.temps {
      StepPreheaderShapeReuse(st, cold, pre, h);
      ReusePieces(st.f.body[pre], h.dst, st.nextReg, st.temps[h.ptr], Load(h.dst, h.ptr), Store(h.dst, st.temps[h.ptr]), x, y,
        Step(st, cold, pre, h).f.body[pre].insts);
    } else {
      StepPreheaderShapeFresh(st, cold, pre, h);
      FreshPieces(st.f.body[pre], h.dst, st.nextReg, st.nextLoc, Load(h.dst, h.ptr), Store(h.dst, st.nextLoc), x, y,
        Step(st, cold, pre, h).f.body[pre].insts);
    }
  }

  /** `StepPreheaderOrder` on a known pointer, over plain values. */
  lemma ReusePieces(blk: Block, from: Reg, into: Reg, slot: Loc, l: Inst, s: Inst, x: Inst, y: Inst, after: seq<Inst>)
    requires var a := RenameBlock(blk, from, into).insts;
      var k := FindAlloca(a, slot);
      var at := if k == -1 then |a| else k + 1;
      after == a[..at] + [l] + a[at..] + [s]
    ensures Precedes(after, l, s)
    ensures Precedes(blk.insts, x, y) && x.Load? && y.Store? && y.src != from ==> Precedes(after, x, y)
  {
    var a := RenameBlock(blk, from, into).insts;
    if Precedes(blk.insts, x, y) && x.Load? && y.Store? && y.src != from {
      PrecedesRenamed(blk, from, into, x, y);
    }
    var k := FindAlloca(a, slot);
    OrderPieces(a, if k == -1 then |a| else k + 1, l, s, x, y);
  }

  /** `StepPreheaderOrder` on a new pointer, over plain values. */
  lemma FreshPieces(blk: Block, from: Reg, into: Reg, slot: Loc, l: Inst, s: Inst, x: Inst, y: Inst, after: seq<Inst>)
    requires var a := RenameBlock(blk, from, into).insts;
      after == (a + [Alloca(slot)])[..|a| + 1] + [l] + (a + [Alloca(slot)])[|a| + 1..] + [s]
    ensures Precedes(after, l, s)
    ensures Precedes(blk.insts, x, y) && x.Load? && y.Store? && y.src != from ==> Precedes(after, x, y)
  {
    var a := RenameBlock(blk, from, into).insts;
    if Precedes(blk.insts, x, y) && x.Load? && y.Store? && y.src != from {
      PrecedesRenamed(blk, from, into, x, y);
      PrecedesInsert(a, |a|, Alloca(slot), x, y);
      assert a[..|a|] + [Alloca(slot)] + a[|a|..] == a + [Alloca(slot)];
    }
    OrderPieces(a + [Alloca(slot)], |a| + 1, l, s, x, y);
  }

  /** Inserting `l` anywhere and appending `s` puts `l` before `s` and keeps every ordered pair. */
  lemma OrderPieces(a: seq<Inst>, at: nat, l: Inst, s: Inst, x: Inst, y: Inst)
    requires at <= |a|
    ensures Precedes(a[..at] + [l] + a[at..] + [s], l, s)
    ensures Precedes(a, x, y) ==> Precedes(a[..at] + [l] + a[at..] + [s], x, y)
  {
    var b := a[..at] + [l] + a[at..];
    assert b[at] == l;
    PrecedesLast(b, l, s);
    if Precedes(a, x, y) {
      PrecedesInsert(a, at, l, x, y);
      PrecedesInsert(b, |b|, s, x, y);
      assert b[..|b|] + [s] + b[|b|..] == b + [s];
    }
  }

  /** The preheader after a step on a known pointer: renamed, the moved load after the temporary's allocation, the store last. */
  lemma StepPreheaderShapeReuse(st: RewriteState, cold: seq<BlockId>, pre: BlockId, h: LoadRef)
    requires StepReady(st, cold, pre, h) && h.ptr in st.temps
    ensures var a := RenameBlock(st.f.body[pre], h.dst, st.nextReg).insts;
      var k := FindAlloca(a, st.temps[h.ptr]);
      var at := if k == -1 then |a| else k + 1;
      Step(st, cold, pre, h).f.body[pre].insts == a[..at] + [Load(h.dst, h.ptr)] + a[at..] + [Store(h.dst, st.temps[h.ptr])]
  {
    var r := st.nextReg;
    var t := st.temps[h.ptr];
    var f1 := SetInst(st.f, h.block, h.index, Load(r, t));
    var f2 := ReplaceUses(f1, h.dst, r);
    var f3 := InsertAfterAlloca(f2, pre, t, Load(h.dst, h.ptr));
    var f4 := Append(f3, pre, Store(h.dst, t));
    assert Step(st, cold, pre, h).f == f4;
    assert f1.body[pre] == st.f.body[pre];
    assert f2.body[pre] == RenameBlock(st.f.body[pre], h.dst, r);
  }

  /** The preheader after a step on a new pointer: renamed, then the allocation, the moved load and the store. */
  lemma StepPreheaderShapeFresh(st: RewriteState, cold: seq<BlockId>, pre: BlockId, h: LoadRef)
    requires StepReady(st, cold, pre, h) && h.ptr !in st.temps
    ensures var a := RenameBlock(st.f.body[pre], h.dst, st.nextReg).insts;
      Step(st, cold, pre, h).f.body[pre].insts == (a + [Alloca(st.nextLoc)])[..|a| + 1] + [Load(h.dst, h.ptr)]
        + (a + [Alloca(st.nextLoc)])[|a| + 1..] + [Store(h.dst, st.nextLoc)]
  {
    var r := st.nextReg;
    var t := st.nextLoc;
    var f1 := Append(st.f, pre, Alloca(t));
    var f2 := Retarget(f1, cold, h.ptr, t);
    var f3 := SetInst(f2, h.block, h.index, Load(r, t));
    var f4 := ReplaceUses(f3, h.dst, r);
    var f5 := Append(f4, pre, Load(h.dst, h.ptr));
    var f6 := Append(f5, pre, Store(h.dst, t));
    assert Step(st, cold, pre, h).f == f6;
    assert f3.body[pre] == f2.body[pre] == f1.body[pre];
    assert f4.body[pre].insts == RenameBlock(st.f.body[pre], h.dst, r).insts + [Alloca(t)];
    var a := RenameBlock(st.f.body[pre], h.dst, r).insts + [Alloca(t)];
    assert a[..|a|] == a && a[|a|..] == [];
  }

  /**
   * After the loop the preheader holds, for every hoisted load, the moved load (still
   * defining the hoisted load's own register, from the original pointer) followed, later
   * in the block, by a store of that very register into the pointer's temporary, provided
   * no two hoisted loads define the same register.
   */
  lemma {:induction false} RewriteAllMoved(f: Function, cold: seq<BlockId>, pre: BlockId, hs: seq<LoadRef>, base: Loc, regBase: Reg)
    requires Ready(f, cold, pre, hs) && Distinct(Dsts(hs))
    ensures var st := RewriteAll(f, cold, pre, hs, base, regBase);
      forall k :: 0 <= k < |hs| ==>
        && hs[k].ptr in st.temps
        && Precedes(st.f.body[pre].insts, Load(hs[k].dst, hs[k].ptr), Store(hs[k].dst, st.temps[hs[k].ptr]))
    decreases |hs|
  {
    if hs != [] {
      var init, h := hs[..|hs| - 1], hs[|hs| - 1];
      SplitLast(hs);
      assert Dsts(init) == Dsts(hs)[..|init|];
      RewriteAllLast(f, cold, pre, hs, base, regBase);
      RewriteAllMoved(f, cold, pre, init, base, regBase);
      RewriteAllTempsStep(f, cold, pre, hs, base, regBase);
      var st0 := RewriteAll(f, cold, pre, init, base, regBase);
      var st := RewriteAll(f, cold, pre, hs, base, regBase);
      forall k | 0 <= k < |hs|
        ensures hs[k].ptr in st.temps && Precedes(st.f.body[pre].insts, Load(hs[k].dst, hs[k].ptr), Store(hs[k].dst, st.temps[hs[k].ptr]))
      {
        if k < |init| {
          assert hs[k] == init[k];
          assert Dsts(hs)[k] != Dsts(hs)[|init|];
          StepPreheaderOrder(st0, cold, pre, h, Load(init[k].dst, init[k].ptr), Store(init[k].dst, st0.temps[init[k].ptr]));
        } else {
          StepPreheaderOrder(st0, cold, pre, h, Load(h.dst, h.ptr), Store(h.dst, TempFor(st0, h.ptr)));
        }
      }
    }
  }

  /** A hoisted register is never what anything is handed over to. */
  lemma HandedOverAvoids(uses: set<Reg>, hs: seq<LoadRef>, regBase: Reg, d: Reg)
    requires forall r :: r in uses ==> r < regBase
    requires d in Dsts(hs) && d < regBase
    ensures d !in HandedOver(uses, hs, regBase)
  {
    forall r | r in uses
      ensures HandedTo(hs, regBase, r) != d
    {
    }
  }

  /** After the loop every hoisted position reads its pointer's temporary. */
  lemma RewriteAllHoisted(f: Function, cold: seq<BlockId>, pre: BlockId, hs: seq<LoadRef>, base: Loc, regBase: Reg)
    requires Ready(f, cold, pre, hs) && FreshFrom(f, base, regBase)
    ensures var st := RewriteAll(f, cold, pre, hs, base, regBase);
      forall h :: h in hs ==> h.ptr in st.temps && AccessOf(st.f.body[h.block].insts[h.index]) == LoadOf(st.temps[h.ptr])
  {
    RewriteAllCounters(f, cold, pre, hs, base, regBase);
    forall h | h in hs
      ensures var st := RewriteAll(f, cold, pre, hs, base, regBase);
        h.ptr in st.temps && AccessOf(st.f.body[h.block].insts[h.index]) == LoadOf(st.temps[h.ptr])
    {
      var k :| 0 <= k < |hs| && hs[k] == h;
      assert Ptrs(hs)[k] == h.ptr;
      assert LoadAt(f, hs[k]);
      assert (h.block, h.index) in Positions(hs);
      RewriteAllAccessAt(f, cold, pre, hs, base, regBase, h.block, h.index);
    }
  }

  /**
   * A position outside the preheader and the cold blocks that loaded from a promoted
   * pointer was itself hoisted: afterwards it loads from the pointer no more.
   */
  lemma RewriteAllNoDirectLoad(f: Function, cold: seq<BlockId>, pre: BlockId, hs: seq<LoadRef>, base: Loc, regBase: Reg, b: BlockId, i: nat, p: Loc)
    requires Ready(f, cold, pre, hs) && FreshFrom(f, base, regBase)
    requires b in f.body && b != pre && b !in cold && i < |f.body[b].insts|
    requires p in Ptrs(hs)
    requires AccessOf(f.body[b].insts[i]) == LoadOf(p) ==> (b, i) in Positions(hs)
    ensures AccessOf(RewriteAll(f, cold, pre, hs, base, regBase).f.body[b].insts[i]) != LoadOf(p)
  {
    RewriteAllCounters(f, cold, pre, hs, base, regBase);
    TempMapNumbering(Ptrs(hs), base);
    RewriteAllAccessAt(f, cold, pre, hs, base, regBase, b, i);
    assert p < base by {
      var k :| 0 <= k < |hs| && Ptrs(hs)[k] == p;
      ReadyBounds(f, cold, pre, hs, base, regBase);
    }
    if (b, i) in Positions(hs) {
      PositionsLoad(f, cold, pre, hs, b, i);
    }
  }
}
