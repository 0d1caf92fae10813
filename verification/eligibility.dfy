/**
 * The promotion-eligibility test: a load on the hot path may be promoted when its pointer
 * operand is stored to in some cold block and in no hot block. Stores are matched by
 * pointer-operand identity only.
 */
module Eligibility {
  import opened Seqs
  import opened Ir

  /** Some instruction of `insts` is a store whose pointer operand is `p`. */
  function StoresTo(insts: seq<Inst>, p: Loc): (r: bool)
    ensures r <==> exists i :: 0 <= i < |insts| && AccessOf(insts[i]) == StoreTo(p)
  {
    if insts == [] then false
    else
      var rest := StoresTo(insts[1..], p);
      assert rest <==> exists i :: 1 <= i < |insts| && AccessOf(insts[i]) == StoreTo(p) by {
        if rest {
          var i :| 0 <= i < |insts[1..]| && AccessOf(insts[1..][i]) == StoreTo(p);
          assert AccessOf(insts[i + 1]) == StoreTo(p);
        }
        if exists i :: 1 <= i < |insts| && AccessOf(insts[i]) == StoreTo(p) {
          var i :| 1 <= i < |insts| && AccessOf(insts[i]) == StoreTo(p);
          assert AccessOf(insts[1..][i - 1]) == StoreTo(p);
        }
      }
      AccessOf(insts[0]) == StoreTo(p) || rest
  }

  /** A store to `p` sits in one of `blocks` (a block the function lacks holds nothing). */
  ghost predicate StoreIn(f: Function, blocks: seq<BlockId>, p: Loc) {
    exists b, i :: b in blocks && b in f.body && 0 <= i < |f.body[b].insts| && AccessOf(f.body[b].insts[i]) == StoreTo(p)
  }

  /** The users-scan of the pass: is there a store to `p` whose parent block is among `blocks`? */
  function HasStoreIn(f: Function, blocks: seq<BlockId>, p: Loc): (r: bool)
    ensures r <==> StoreIn(f, blocks, p)
  {
    if blocks == [] then false
    else
      var here := blocks[0] in f.body && StoresTo(f.body[blocks[0]].insts, p);
      var rest := HasStoreIn(f, blocks[1..], p);
      assert StoreIn(f, blocks, p) <==> here || StoreIn(f, blocks[1..], p) by {
        if StoreIn(f, blocks, p) {
          var b, i :| b in blocks && b in f.body && 0 <= i < |f.body[b].insts| && AccessOf(f.body[b].insts[i]) == StoreTo(p);
          if b != blocks[0] {
            assert b in blocks[1..];
          }
        }
      }
      here || rest
  }

  /** The pointer `p` is stored to on a cold block and never on the hot path. */
  predicate Eligible(f: Function, hot: seq<BlockId>, cold: seq<BlockId>, p: Loc) {
    HasStoreIn(f, cold, p) && !HasStoreIn(f, hot, p)
  }

  /**
   * The hoistable loads: the collected loads whose pointer is eligible, in collection order.
   * The classification depends on the pointer alone, so loads sharing a pointer share it.
   */
  function Hoistable(f: Function, hot: seq<BlockId>, cold: seq<BlockId>, loads: seq<LoadRef>): (r: seq<LoadRef>)
    ensures forall h :: h in r <==> h in loads && StoreIn(f, cold, h.ptr) && !StoreIn(f, hot, h.ptr)
    ensures IsSubsequence(r, loads)
    ensures forall j, k :: 0 <= j < |loads| && 0 <= k < |loads| && loads[j].ptr == loads[k].ptr ==>
      (loads[j] in r <==> loads[k] in r)
  {
    FilterIsSubsequence(loads, (h: LoadRef) => Eligible(f, hot, cold, h.ptr));
    Filter(loads, (h: LoadRef) => Eligible(f, hot, cold, h.ptr))
  }

  /** Classifying one more load extends the hoistable list by that load or by nothing. */
  lemma HoistableCons(f: Function, hot: seq<BlockId>, cold: seq<BlockId>, loads: seq<LoadRef>)
    requires loads != []
    ensures Hoistable(f, hot, cold, loads) ==
      (if Eligible(f, hot, cold, loads[0].ptr) then [loads[0]] else []) + Hoistable(f, hot, cold, loads[1..])
  {
  }

  /**
   * The selection loop of the pass, one load at a time: skip the load when no cold block
   * stores to its pointer, skip it when a hot block does, keep it otherwise.
   */
  method SelectHoistable(f: Function, hot: seq<BlockId>, cold: seq<BlockId>, loads: seq<LoadRef>) returns (hoistable: seq<LoadRef>)
    ensures hoistable == Hoistable(f, hot, cold, loads)
  {
    hoistable := [];
    var rest := loads;
    while rest != []
      invariant hoistable + Hoistable(f, hot, cold, rest) == Hoistable(f, hot, cold, loads)
      decreases |rest|
    {
      var load := rest[0];
      HoistableStep(f, hot, cold, hoistable, rest);
      var hasInfreqStore := HasStoreIn(f, cold, load.ptr);
      var hasFreqStore := false;
      if hasInfreqStore {
        hasFreqStore := HasStoreIn(f, hot, load.ptr);
      }
      if hasInfreqStore && !hasFreqStore {
        hoistable := hoistable + [load];
      }
      rest := rest[1..];
    }
  }

  lemma HoistableStep(f: Function, hot: seq<BlockId>, cold: seq<BlockId>, acc: seq<LoadRef>, rest: seq<LoadRef>)
    requires rest != []
    ensures acc + Hoistable(f, hot, cold, rest) ==
      (if Eligible(f, hot, cold, rest[0].ptr) then acc + [rest[0]] else acc) + Hoistable(f, hot, cold, rest[1..])
  {
    HoistableCons(f, hot, cold, rest);
  }
}
