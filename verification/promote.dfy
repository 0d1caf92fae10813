/**
 * The promotion of one loop, end to end: trace the hot path, split off the cold blocks,
 * collect the loads on the path, keep the hoistable ones, and rewrite them.
 */
module Promote {
  import opened Seqs
  import opened Ir
  import opened HotPath
  import opened Eligibility
  import opened Temps
  import opened Rewrite

  /** The loop shape the rewrite relies on: the preheader exists and lies outside the loop. */
  predicate LoopShape(f: Function, loop: Loop) {
    loop.preheader in f.body && loop.preheader !in loop.blocks
  }

  /** What one loop's promotion computed, and the function it produced. */
  datatype Promotion = Promotion(
    path: seq<BlockId>,
    cold: seq<BlockId>,
    loads: seq<LoadRef>,
    hoisted: seq<LoadRef>,
    temps: map<Loc, Loc>,
    f: Function)

  /** `g` has the blocks and edges of `f`, and only the preheader `pre` changed length. */
  predicate Shaped(f: Function, pre: BlockId, g: Function) {
    && SameCfg(f, g)
    && forall b :: b in f.body && b != pre ==> |g.body[b].insts| == |f.body[b].insts|
  }

  /**
   * The hoisted loads are exactly the loads of hot-path blocks whose pointer is stored to in
   * some cold block and in no hot-path block.
   */
  ghost predicate HoistsEligibleLoads(f: Function, pr: Promotion) {
    forall h :: h in pr.hoisted <==> LoadAt(f, h) && h.block in pr.path && StoreIn(f, pr.cold, h.ptr) && !StoreIn(f, pr.path, h.ptr)
  }

  /**
   * The selection as the pass runs it: the cold blocks are the loop's blocks off the path,
   * the loads are collected along the path, and the hoisted loads are the hoistable ones
   * among them in collection order, which is path order, then instruction order.
   */
  predicate SelectsInOrder(f: Function, loop: Loop, pr: Promotion) {
    && pr.cold == ColdBlocks(loop.blocks, pr.path)
    && pr.loads == CollectLoads(f, pr.path)
    && pr.hoisted == Hoistable(f, pr.path, pr.cold, pr.loads)
    && InPathOrder(pr.path, pr.hoisted)
  }

  /**
   * One temporary per distinct hoisted pointer: the map's keys are exactly the hoisted
   * pointers, the temporaries are pairwise distinct, and the k-th distinct pointer (in
   * first-occurrence order) gets `nextLoc + k`.
   */
  ghost predicate NumbersTemporaries(pr: Promotion, nextLoc: Loc) {
    && (forall p :: p in pr.temps <==> p in Ptrs(pr.hoisted))
    && Injective(pr.temps)
    && (forall p :: p in pr.temps ==> nextLoc <= pr.temps[p])
    && (forall i :: 0 <= i < |Dedup(Ptrs(pr.hoisted))| ==> pr.temps[Dedup(Ptrs(pr.hoisted))[i]] == nextLoc + i)
  }

  /**
   * Every hoisted load now reads its pointer's temporary, and no instruction of a hot-path
   * block loads directly from a promoted pointer any more.
   */
  ghost predicate ReadsTemporaries(f: Function, pre: BlockId, pr: Promotion)
    requires Shaped(f, pre, pr.f)
  {
    && (forall h :: h in pr.hoisted ==>
          && h.block in f.body && h.block != pre && h.index < |f.body[h.block].insts| && h.ptr in pr.temps
          && AccessOf(pr.f.body[h.block].insts[h.index]) == LoadOf(pr.temps[h.ptr]))
    && (forall b, i, p :: b in pr.path && b in f.body && b != pre && 0 <= i < |f.body[b].insts| && p in pr.temps ==>
          AccessOf(pr.f.body[b].insts[i]) != LoadOf(p))
  }

  /**
   * Outside the preheader every memory access is its `Promoted` form: a hoisted load reads
   * its temporary, a cold-block store to a promoted pointer writes its temporary, and every
   * other access is unchanged. Spelled out: cold-block stores to a promoted pointer write
   * its temporary and other cold stores are unchanged; outside the cold blocks, the
   * preheader and the hoisted positions no memory access changed; and no hot-path block
   * stores to a promoted pointer or to its temporary.
   */
  ghost predicate RetargetsColdStores(f: Function, pre: BlockId, pr: Promotion)
    requires Shaped(f, pre, pr.f)
  {
    && (forall b, i :: b in f.body && b != pre && 0 <= i < |f.body[b].insts| ==>
          AccessOf(pr.f.body[b].insts[i]) == Promoted(AccessOf(f.body[b].insts[i]), (b, i) in Positions(pr.hoisted), b in pr.cold, pr.temps))
    && (forall b, i, p :: b in pr.cold && b in f.body && b != pre && 0 <= i < |f.body[b].insts| && AccessOf(f.body[b].insts[i]) == StoreTo(p) ==>
          AccessOf(pr.f.body[b].insts[i]) == if p in pr.temps then StoreTo(pr.temps[p]) else StoreTo(p))
    && (forall b, i :: b in f.body && b != pre && b !in pr.cold && 0 <= i < |f.body[b].insts| && (b, i) !in Positions(pr.hoisted) ==>
          AccessOf(pr.f.body[b].insts[i]) == AccessOf(f.body[b].insts[i]))
    && (forall b, i, p :: b in pr.path && b in f.body && b != pre && 0 <= i < |f.body[b].insts| && p in pr.temps ==>
          AccessOf(pr.f.body[b].insts[i]) != StoreTo(p) && AccessOf(pr.f.body[b].insts[i]) != StoreTo(pr.temps[p]))
  }

  /**
   * The preheader keeps every access it had and gains, per promoted pointer, exactly one
   * allocation of its temporary, one store into the temporary per hoisted load of the pointer
   * and one load of the pointer per hoisted load; nothing else: its accesses are exactly the
   * old ones plus `Added`.
   */
  ghost predicate FillsPreheader(f: Function, pre: BlockId, pr: Promotion)
    requires pre in f.body && Shaped(f, pre, pr.f)
  {
    var before := multiset(Accesses(f.body[pre].insts));
    var after := multiset(Accesses(pr.f.body[pre].insts));
    && (forall k :: 0 <= k < |pr.hoisted| ==> pr.hoisted[k].ptr in pr.temps)
    && after == before + Added(pr.hoisted, pr.temps)
    && before <= after
    && (forall p :: p in pr.temps ==> after[AllocaOf(pr.temps[p])] == 1)
    && (forall p :: p in pr.temps ==> after[StoreTo(pr.temps[p])] == multiset(Ptrs(pr.hoisted))[p])
    && (forall q :: after[LoadOf(q)] == before[LoadOf(q)] + multiset(Ptrs(pr.hoisted))[q])
    && (forall x :: x in after && x !in before ==>
          exists q :: q in pr.temps && (x == LoadOf(q) || x == StoreTo(pr.temps[q]) || x == AllocaOf(pr.temps[q])))
  }

  /**
   * Register flow outside the preheader: the k-th hoisted load is replaced by a load of its
   * pointer's temporary into the fresh register `nextReg + k`; every instruction reads the
   * registers it read before, each handed over as `HandedTo` says (the value of a hoisted
   * load is now read from its fresh register); every other position defines what it
   * defined before and keeps its loads; and no instruction reads a hoisted load's register.
   */
  ghost predicate HandsOverRegisters(f: Function, pre: BlockId, pr: Promotion, nextReg: Reg)
    requires Shaped(f, pre, pr.f)
  {
    && (forall k :: 0 <= k < |pr.hoisted| ==>
          && LoadAt(f, pr.hoisted[k]) && pr.hoisted[k].block != pre && pr.hoisted[k].ptr in pr.temps
          && pr.f.body[pr.hoisted[k].block].insts[pr.hoisted[k].index] == Load(nextReg + k, pr.temps[pr.hoisted[k].ptr]))
    && (forall b, i :: b in f.body && b != pre && 0 <= i < |f.body[b].insts| ==>
          Uses(pr.f.body[b].insts[i]) == HandedOver(Uses(f.body[b].insts[i]), pr.hoisted, nextReg))
    && (forall b, i :: b in f.body && b != pre && 0 <= i < |f.body[b].insts| && (b, i) !in Positions(pr.hoisted) ==>
          && Defs(pr.f.body[b].insts[i]) == Defs(f.body[b].insts[i])
          && (f.body[b].insts[i].Load? ==> pr.f.body[b].insts[i] == f.body[b].insts[i]))
    && (forall b, i, h :: b in f.body && b != pre && 0 <= i < |f.body[b].insts| && h in pr.hoisted ==>
          h.dst !in Uses(pr.f.body[b].insts[i]))
  }

  /**
   * The preheader holds, for every hoisted load, the moved load (defining the hoisted load's
   * own register from the original pointer) and, after it, a store of that register into
   * the pointer's temporary.
   */
  ghost predicate StoresMovedValues(f: Function, pre: BlockId, pr: Promotion)
    requires pre in f.body && Shaped(f, pre, pr.f)
  {
    forall h :: h in pr.hoisted ==>
      && h.ptr in pr.temps
      && Precedes(pr.f.body[pre].insts, Load(h.dst, h.ptr), Store(h.dst, pr.temps[h.ptr]))
  }

  /**
   * Promote the loads of one loop. New temporaries are numbered from `nextLoc`, the
   * registers of the new loads from `nextReg`; both lie above everything `f` mentions.
   * The loop is skipped when its trace is, or when the hot path runs through the preheader.
   */
  function PromoteLoop(f: Function, loop: Loop, nextLoc: Loc, nextReg: Reg): (r: Result<Promotion>)
    requires LoopShape(f, loop) && FreshFrom(f, nextLoc, nextReg)
    ensures Trace(f, loop).Skip? ==> r == Skip(Trace(f, loop).reason)
    ensures Trace(f, loop).Ok? && loop.preheader in Trace(f, loop).value ==> r == Skip(PreheaderOnPath)
    ensures Trace(f, loop).Ok? && loop.preheader !in Trace(f, loop).value ==> r.Ok? && r.value.path == Trace(f, loop).value
    ensures r.Ok? ==> forall b :: b in r.value.cold <==> b in loop.blocks && b !in r.value.path
    ensures r.Ok? ==> SelectsInOrder(f, loop, r.value)
    ensures r.Ok? ==> HoistsEligibleLoads(f, r.value)
    ensures r.Ok? ==> NumbersTemporaries(r.value, nextLoc)
    ensures r.Ok? ==> Shaped(f, loop.preheader, r.value.f)
    ensures r.Ok? ==> ReadsTemporaries(f, loop.preheader, r.value)
    ensures r.Ok? ==> RetargetsColdStores(f, loop.preheader, r.value)
    ensures r.Ok? ==> FillsPreheader(f, loop.preheader, r.value)
    ensures r.Ok? ==> HandsOverRegisters(f, loop.preheader, r.value, nextReg)
    ensures r.Ok? && SingleAssignment(f) ==> StoresMovedValues(f, loop.preheader, r.value)
  {
    match Trace(f, loop)
    case Skip(why) => Skip(why)
    case Ok(path) =>
      if loop.preheader in path then Skip(PreheaderOnPath)
      else
        var cold := ColdBlocks(loop.blocks, path);
        var loads := CollectLoads(f, path);
        var hs := Hoistable(f, path, cold, loads);
        HoistableFacts(f, loop, path, cold, loads, hs);
        var st := RewriteAll(f, cold, loop.preheader, hs, nextLoc, nextReg);
        var pre := loop.preheader;
        TemporaryFacts(f, pre, path, cold, loads, hs, nextLoc, nextReg);
        ReadFacts(f, pre, path, cold, loads, hs, nextLoc, nextReg);
        StoreFacts(f, pre, path, cold, loads, hs, nextLoc, nextReg);
        PreheaderFacts(f, pre, path, cold, loads, hs, nextLoc, nextReg);
        RegisterFacts(f, pre, path, cold, loads, hs, nextLoc, nextReg);
        MovedFacts(f, pre, path, cold, loads, hs, nextLoc, nextReg);
        Ok(Promotion(path, cold, loads, hs, st.temps, st.f))
  }

  /** What the selection stage guarantees the rewrite. */
  lemma HoistableFacts(f: Function, loop: Loop, path: seq<BlockId>, cold: seq<BlockId>, loads: seq<LoadRef>, hs: seq<LoadRef>)
    requires LoopShape(f, loop) && loop.preheader !in path && Distinct(path)
    requires cold == ColdBlocks(loop.blocks, path) && loads == CollectLoads(f, path)
    requires hs == Hoistable(f, path, cold, loads)
    ensures Ready(f, cold, loop.preheader, hs)
    ensures forall b :: b in path ==> b !in cold && b != loop.preheader
    ensures forall h :: LoadAt(f, h) && h.block in path && h.ptr in Ptrs(hs) ==> h in hs
    ensures forall p :: p in Ptrs(hs) ==> StoreIn(f, cold, p) && !StoreIn(f, path, p)
    ensures Distinct(hs)
    ensures InPathOrder(path, hs)
  {
    CollectLoadsInPathOrder(f, path);
    SubsequenceDistinct(hs, loads);
    SubsequenceInPathOrder(path, hs, loads);
    forall k | 0 <= k < |hs|
      ensures LoadAt(f, hs[k]) && hs[k].block != loop.preheader
    {
      assert hs[k] in hs;
    }
    forall h | LoadAt(f, h) && h.block in path && h.ptr in Ptrs(hs)
      ensures h in hs
    {
      var k :| 0 <= k < |hs| && Ptrs(hs)[k] == h.ptr;
      assert hs[k] in hs;
    }
    forall p | p in Ptrs(hs)
      ensures StoreIn(f, cold, p) && !StoreIn(f, path, p)
    {
      var k :| 0 <= k < |hs| && Ptrs(hs)[k] == p;
      assert hs[k] in hs;
    }
  }

  /** The temporaries of a promotion, over its pieces. */
  lemma TemporaryFacts(f: Function, pre: BlockId, path: seq<BlockId>, cold: seq<BlockId>, loads: seq<LoadRef>, hs: seq<LoadRef>, base: Loc, regBase: Reg)
    requires Ready(f, cold, pre, hs) && FreshFrom(f, base, regBase)
    ensures var st := RewriteAll(f, cold, pre, hs, base, regBase);
      var pr := Promotion(path, cold, loads, hs, st.temps, st.f);
      && Shaped(f, pre, pr.f)
      && NumbersTemporaries(pr, base)
  {
    RewriteAllCounters(f, cold, pre, hs, base, regBase);
    TempMapNumbering(Ptrs(hs), base);
    TempMapInjective(Ptrs(hs), base);
  }

  /** The loads of a promotion, over its pieces. */
  lemma ReadFacts(f: Function, pre: BlockId, path: seq<BlockId>, cold: seq<BlockId>, loads: seq<LoadRef>, hs: seq<LoadRef>, base: Loc, regBase: Reg)
    requires Ready(f, cold, pre, hs) && FreshFrom(f, base, regBase)
    requires forall b :: b in path ==> b !in cold && b != pre
    requires forall h :: LoadAt(f, h) && h.block in path && h.ptr in Ptrs(hs) ==> h in hs
    ensures var st := RewriteAll(f, cold, pre, hs, base, regBase);
      var pr := Promotion(path, cold, loads, hs, st.temps, st.f);
      && Shaped(f, pre, pr.f)
      && ReadsTemporaries(f, pre, pr)
  {
    HotPathFacts(f, path, cold, pre, hs, base, regBase);
  }

  /** The stores of a promotion, over its pieces. */
  lemma StoreFacts(f: Function, pre: BlockId, path: seq<BlockId>, cold: seq<BlockId>, loads: seq<LoadRef>, hs: seq<LoadRef>, base: Loc, regBase: Reg)
    requires Ready(f, cold, pre, hs) && FreshFrom(f, base, regBase)
    requires forall b :: b in path ==> b !in cold && b != pre
    requires forall p :: p in Ptrs(hs) ==> !StoreIn(f, path, p)
    ensures var st := RewriteAll(f, cold, pre, hs, base, regBase);
      var pr := Promotion(path, cold, loads, hs, st.temps, st.f);
      && Shaped(f, pre, pr.f)
      && RetargetsColdStores(f, pre, pr)
  {
    StoreFactsAt(f, path, cold, pre, hs, base, regBase);
  }

  /** The preheader of a promotion, over its pieces. */
  lemma PreheaderFacts(f: Function, pre: BlockId, path: seq<BlockId>, cold: seq<BlockId>, loads: seq<LoadRef>, hs: seq<LoadRef>, base: Loc, regBase: Reg)
    requires Ready(f, cold, pre, hs) && FreshFrom(f, base, regBase)
    ensures var st := RewriteAll(f, cold, pre, hs, base, regBase);
      var pr := Promotion(path, cold, loads, hs, st.temps, st.f);
      && Shaped(f, pre, pr.f)
      && FillsPreheader(f, pre, pr)
  {
    PreheaderFactsAt(f, cold, pre, hs, base, regBase);
  }

  /** The registers of a promotion, over its pieces. */
  lemma RegisterFacts(f: Function, pre: BlockId, path: seq<BlockId>, cold: seq<BlockId>, loads: seq<LoadRef>, hs: seq<LoadRef>, base: Loc, regBase: Reg)
    requires Ready(f, cold, pre, hs) && FreshFrom(f, base, regBase) && Distinct(hs)
    ensures var st := RewriteAll(f, cold, pre, hs, base, regBase);
      var pr := Promotion(path, cold, loads, hs, st.temps, st.f);
      && Shaped(f, pre, pr.f)
      && HandsOverRegisters(f, pre, pr, regBase)
  {
    RewriteAllUses(f, cold, pre, hs, base, regBase);
    RewriteAllDefs(f, cold, pre, hs, base, regBase);
  }

  /** The moved loads and their stores in the preheader, over the pieces of a promotion. */
  lemma MovedFacts(f: Function, pre: BlockId, path: seq<BlockId>, cold: seq<BlockId>, loads: seq<LoadRef>, hs: seq<LoadRef>, base: Loc, regBase: Reg)
    requires Ready(f, cold, pre, hs) && Distinct(hs)
    ensures var st := RewriteAll(f, cold, pre, hs, base, regBase);
      var pr := Promotion(path, cold, loads, hs, st.temps, st.f);
      && Shaped(f, pre, pr.f)
      && (SingleAssignment(f) ==> StoresMovedValues(f, pre, pr))
  {
    if SingleAssignment(f) {
      DistinctDsts(f, cold, pre, hs);
      RewriteAllMoved(f, cold, pre, hs, base, regBase);
      var st := RewriteAll(f, cold, pre, hs, base, regBase);
      forall h | h in hs
        ensures h.ptr in st.temps && Precedes(st.f.body[pre].insts, Load(h.dst, h.ptr), Store(h.dst, st.temps[h.ptr]))
      {
        var k :| 0 <= k < |hs| && hs[k] == h;
      }
    }
  }

  /** Distinct loads of a single-assignment function define distinct registers. */
  lemma DistinctDsts(f: Function, cold: seq<BlockId>, pre: BlockId, hs: seq<LoadRef>)
    requires Ready(f, cold, pre, hs) && Distinct(hs) && SingleAssignment(f)
    ensures Distinct(Dsts(hs))
  {
    forall j, k | 0 <= j < k < |hs|
      ensures Dsts(hs)[j] != Dsts(hs)[k]
    {
      assert LoadAt(f, hs[j]) && LoadAt(f, hs[k]);
      assert hs[j].dst in Defs(f.body[hs[j].block].insts[hs[j].index]);
      assert hs[k].dst in Defs(f.body[hs[k].block].insts[hs[k].index]);
    }
  }

  /**
   * In loop-simplify form the preheader is not the latch and its only successor is the
   * header; then the traced hot path never contains it, since the block after it would be
   * the header again and a hot path repeats no block.
   */
  lemma PreheaderOffHotPath(f: Function, loop: Loop)
    requires loop.preheader in f.body && loop.preheader != loop.latch
    requires |f.body[loop.preheader].edges| == 1 && f.body[loop.preheader].edges[0].target == loop.header
    ensures Trace(f, loop).Ok? ==> loop.preheader !in Trace(f, loop).value
  {
    if Trace(f, loop).Ok? {
      var p := Trace(f, loop).value;
      forall k | 0 <= k < |p|
        ensures p[k] != loop.preheader
      {
        assert k < |p| - 1 ==> p[k + 1] != p[0];
      }
    }
  }

  /** The hot-path half of `ReadsTemporaries`, over the pieces of a promotion. */
  lemma HotPathFacts(f: Function, path: seq<BlockId>, cold: seq<BlockId>, pre: BlockId, hs: seq<LoadRef>, base: Loc, regBase: Reg)
    requires Ready(f, cold, pre, hs) && FreshFrom(f, base, regBase)
    requires forall b :: b in path ==> b !in cold && b != pre
    requires forall h :: LoadAt(f, h) && h.block in path && h.ptr in Ptrs(hs) ==> h in hs
    ensures var st := RewriteAll(f, cold, pre, hs, base, regBase);
      forall h :: h in hs ==> h.ptr in st.temps && AccessOf(st.f.body[h.block].insts[h.index]) == LoadOf(st.temps[h.ptr])
    ensures var st := RewriteAll(f, cold, pre, hs, base, regBase);
      forall b, i, p :: b in path && b in f.body && 0 <= i < |f.body[b].insts| && p in st.temps ==>
        AccessOf(st.f.body[b].insts[i]) != LoadOf(p)
  {
    RewriteAllHoisted(f, cold, pre, hs, base, regBase);
    RewriteAllCounters(f, cold, pre, hs, base, regBase);
    var st := RewriteAll(f, cold, pre, hs, base, regBase);
    forall b, i, p | b in path && b in f.body && 0 <= i < |f.body[b].insts| && p in st.temps
      ensures AccessOf(st.f.body[b].insts[i]) != LoadOf(p)
    {
      ClosedAt(f, path, hs, b, i, p);
      RewriteAllNoDirectLoad(f, cold, pre, hs, base, regBase, b, i, p);
    }
  }

  /** Under the closure property, a hot-path load of a hoisted pointer sits at a hoisted position. */
  lemma ClosedAt(f: Function, path: seq<BlockId>, hs: seq<LoadRef>, b: BlockId, i: nat, p: Loc)
    requires forall h :: LoadAt(f, h) && h.block in path && h.ptr in Ptrs(hs) ==> h in hs
    requires b in path && b in f.body && i < |f.body[b].insts| && p in Ptrs(hs)
    ensures AccessOf(f.body[b].insts[i]) == LoadOf(p) ==> (b, i) in Positions(hs)
  {
    var x := f.body[b].insts[i];
    if AccessOf(x) == LoadOf(p) {
      assert x.Load? && x.ptr == p;
      var h := LoadRef(b, i, x.dst, p);
      assert LoadAt(f, h);
      var k :| 0 <= k < |hs| && hs[k] == h;
      assert (hs[k].block, hs[k].index) == (b, i);
    }
  }

  /** `RetargetsColdStores`, over the pieces of a promotion. */
  lemma StoreFactsAt(f: Function, path: seq<BlockId>, cold: seq<BlockId>, pre: BlockId, hs: seq<LoadRef>, base: Loc, regBase: Reg)
    requires Ready(f, cold, pre, hs) && FreshFrom(f, base, regBase)
    requires forall b :: b in path ==> b !in cold && b != pre
    requires forall p :: p in Ptrs(hs) ==> !StoreIn(f, path, p)
    ensures var st := RewriteAll(f, cold, pre, hs, base, regBase);
      forall b, i :: b in f.body && b != pre && 0 <= i < |f.body[b].insts| ==>
        AccessOf(st.f.body[b].insts[i]) == Promoted(AccessOf(f.body[b].insts[i]), (b, i) in Positions(hs), b in cold, st.temps)
    ensures var st := RewriteAll(f, cold, pre, hs, base, regBase);
      forall b, i, p :: b in cold && b in f.body && b != pre && 0 <= i < |f.body[b].insts| && AccessOf(f.body[b].insts[i]) == StoreTo(p) ==>
        AccessOf(st.f.body[b].insts[i]) == if p in st.temps then StoreTo(st.temps[p]) else StoreTo(p)
    ensures var st := RewriteAll(f, cold, pre, hs, base, regBase);
      forall b, i :: b in f.body && b != pre && b !in cold && 0 <= i < |f.body[b].insts| && (b, i) !in Positions(hs) ==>
        AccessOf(st.f.body[b].insts[i]) == AccessOf(f.body[b].insts[i])
    ensures var st := RewriteAll(f, cold, pre, hs, base, regBase);
      forall b, i, p :: b in path && b in f.body && 0 <= i < |f.body[b].insts| && p in st.temps ==>
        AccessOf(st.f.body[b].insts[i]) != StoreTo(p) && AccessOf(st.f.body[b].insts[i]) != StoreTo(st.temps[p])
  {
    RewriteAllAccesses(f, cold, pre, hs, base, regBase);
    var st := RewriteAll(f, cold, pre, hs, base, regBase);
    forall b, i, p | b in path && b in f.body && 0 <= i < |f.body[b].insts| && p in st.temps
      ensures AccessOf(st.f.body[b].insts[i]) != StoreTo(p) && AccessOf(st.f.body[b].insts[i]) != StoreTo(st.temps[p])
    {
      HotStoreAt(f, path, cold, pre, hs, base, regBase, b, i, p);
    }
  }

  lemma HotStoreAt(f: Function, path: seq<BlockId>, cold: seq<BlockId>, pre: BlockId, hs: seq<LoadRef>, base: Loc, regBase: Reg, b: BlockId, i: nat, p: Loc)
    requires Ready(f, cold, pre, hs) && FreshFrom(f, base, regBase)
    requires b in path && b !in cold && b != pre && b in f.body && i < |f.body[b].insts|
    requires p in Ptrs(hs) ==> !StoreIn(f, path, p)
    requires p in RewriteAll(f, cold, pre, hs, base, regBase).temps
    ensures var st := RewriteAll(f, cold, pre, hs, base, regBase);
      AccessOf(st.f.body[b].insts[i]) != StoreTo(p) && AccessOf(st.f.body[b].insts[i]) != StoreTo(st.temps[p])
  {
    RewriteAllCounters(f, cold, pre, hs, base, regBase);
    TempMapNumbering(Ptrs(hs), base);
    RewriteAllAccessAt(f, cold, pre, hs, base, regBase, b, i);
    var a := AccessOf(f.body[b].insts[i]);
    assert a.LoadOf? || a.StoreTo? || a.AllocaOf? ==> a.loc < base by {
      assert LocsBelow(f, base);
    }
    assert a != StoreTo(p);
  }

  /** `FillsPreheader`, over the pieces of a promotion. */
  lemma PreheaderFactsAt(f: Function, cold: seq<BlockId>, pre: BlockId, hs: seq<LoadRef>, base: Loc, regBase: Reg)
    requires Ready(f, cold, pre, hs) && FreshFrom(f, base, regBase)
    ensures var st := RewriteAll(f, cold, pre, hs, base, regBase);
      var before := multiset(Accesses(f.body[pre].insts));
      var after := multiset(Accesses(st.f.body[pre].insts));
      && (forall k :: 0 <= k < |hs| ==> hs[k].ptr in st.temps)
      && after == before + Added(hs, st.temps)
      && before <= after
      && (forall p :: p in st.temps ==> after[AllocaOf(st.temps[p])] == 1)
      && (forall p :: p in st.temps ==> after[StoreTo(st.temps[p])] == multiset(Ptrs(hs))[p])
      && (forall q :: after[LoadOf(q)] == before[LoadOf(q)] + multiset(Ptrs(hs))[q])
      && (forall x :: x in after && x !in before ==>
            exists q :: q in st.temps && (x == LoadOf(q) || x == StoreTo(st.temps[q]) || x == AllocaOf(st.temps[q])))
  {
    var st := RewriteAll(f, cold, pre, hs, base, regBase);
    RewriteAllPreheader(f, cold, pre, hs, base, regBase);
    RewriteAllCounters(f, cold, pre, hs, base, regBase);
    PreheaderCounts(f, pre, hs, base, st.temps, multiset(Accesses(st.f.body[pre].insts)));
  }

  /** The counting behind `PreheaderFacts`, stated over the preheader's access multiset. */
  lemma PreheaderCounts(f: Function, pre: BlockId, hs: seq<LoadRef>, base: Loc, temps: map<Loc, Loc>, after: multiset<Access>)
    requires pre in f.body && LocsBelow(f, base)
    requires temps == TempMap(Ptrs(hs), base)
    requires forall k :: 0 <= k < |hs| ==> hs[k].ptr in temps
    requires after == multiset(Accesses(f.body[pre].insts)) + Added(hs, temps)
    ensures var before := multiset(Accesses(f.body[pre].insts));
      && before <= after
      && (forall p :: p in temps ==> after[AllocaOf(temps[p])] == 1)
      && (forall p :: p in temps ==> after[StoreTo(temps[p])] == multiset(Ptrs(hs))[p])
      && (forall q :: after[LoadOf(q)] == before[LoadOf(q)] + multiset(Ptrs(hs))[q])
      && (forall x :: x in after && x !in before ==>
            exists q :: q in temps && (x == LoadOf(q) || x == StoreTo(temps[q]) || x == AllocaOf(temps[q])))
  {
    TempMapNumbering(Ptrs(hs), base);
    TempMapInjective(Ptrs(hs), base);
    var before := multiset(Accesses(f.body[pre].insts));
    var added := Added(hs, temps);
    forall p | p in temps
      ensures after[AllocaOf(temps[p])] == 1 && after[StoreTo(temps[p])] == multiset(Ptrs(hs))[p]
    {
      FreshAbsent(f, pre, base, temps[p]);
      AddedAllocas(hs, temps, p);
      AddedStores(hs, temps, p);
    }
    forall q
      ensures after[LoadOf(q)] == before[LoadOf(q)] + multiset(Ptrs(hs))[q]
    {
      AddedLoads(hs, temps, q);
    }
    forall x | x in after && x !in before
      ensures exists q :: q in temps && (x == LoadOf(q) || x == StoreTo(temps[q]) || x == AllocaOf(temps[q]))
    {
      AddedOnly(hs, temps, x);
    }
  }

  /** An instruction of `f` never touches a location at or above `base`. */
  lemma FreshAbsent(f: Function, pre: BlockId, base: Loc, t: Loc)
    requires pre in f.body && LocsBelow(f, base) && base <= t
    ensures multiset(Accesses(f.body[pre].insts))[AllocaOf(t)] == 0
    ensures multiset(Accesses(f.body[pre].insts))[StoreTo(t)] == 0
  {
  }
}
