/**
 * Hot-path tracing: the hot successor of a block, the walk from the loop header to the
 * latch along hot successors, the loads met on the way, and the cold blocks.
 */
module HotPath {
  import opened Seqs
  import opened Probability
  import opened Ir

  datatype Option<T> = None | Some(value: T)

  /** Why a loop is left untouched. */
  datatype SkipReason =
    | UnsupportedControlFlow(block: BlockId)  // no usable successor at this block
    | MissingBlock(block: BlockId)            // the walk reached a block the function does not have
    | NonTerminatingTrace                     // the walk did not reach the latch within the bound
    | PreheaderOnPath                         // the hot path runs through the loop's own preheader

  datatype Result<T> = Ok(value: T) | Skip(reason: SkipReason)

  /** Total numerator of the edges of `edges` that lead to `dst`, without saturation. */
  function ProbabilitySumTo(edges: seq<Edge>, dst: BlockId): nat {
    if edges == [] then 0
    else ProbabilitySumTo(edges[..|edges| - 1], dst) + (if edges[|edges| - 1].target == dst then edges[|edges| - 1].prob.n else 0)
  }

  /** Total numerator of all edges. */
  function ProbabilitySum(edges: seq<Edge>): nat {
    if edges == [] then 0 else ProbabilitySum(edges[..|edges| - 1]) + edges[|edges| - 1].prob.n
  }

  /**
   * The probability of going from a block to `dst`: the saturating sum, in successor order,
   * of the probabilities of every successor slot whose target is `dst`
   * (`getEdgeProbability(Src, Dst)` of the branch-probability analysis).
   */
  function EdgeProbability(edges: seq<Edge>, dst: BlockId): (p: BranchProbability)
    ensures p.n == if ProbabilitySumTo(edges, dst) > Denominator then Denominator else ProbabilitySumTo(edges, dst)
  {
    if edges == [] then BranchProbability(0)
    else
      var last := edges[|edges| - 1];
      Add(EdgeProbability(edges[..|edges| - 1], dst), if last.target == dst then last.prob else BranchProbability(0))
  }

  /**
   * The successor the trace follows: successor 0 when the probability of reaching it is at
   * least 4/5, otherwise successor 1. A terminator without that successor gives `None`.
   */
  function HotSuccessor(blk: Block): (r: Option<BlockId>)
    ensures r.Some? ==> exists k :: 0 <= k < 2 && k < |blk.edges| && blk.edges[k].target == r.value
  {
    if |blk.edges| == 0 then None
    else if IsHot(EdgeProbability(blk.edges, blk.edges[0].target)) then Some(blk.edges[0].target)
    else if |blk.edges| >= 2 then Some(blk.edges[1].target)
    else None
  }

  /** A two-way branch to distinct blocks follows successor 0 exactly when that edge is hot. */
  lemma TwoWayBranchChoice(blk: Block)
    requires |blk.edges| == 2 && blk.edges[0].target != blk.edges[1].target
    ensures HotSuccessor(blk) == Some(blk.edges[0].target) <==> IsHot(blk.edges[0].prob)
    ensures HotSuccessor(blk) == Some(blk.edges[1].target) <==> !IsHot(blk.edges[0].prob)
  {
    var e := blk.edges;
    var t := e[0].target;
    assert e[..1][..0] == [];
    assert ProbabilitySumTo(e[..1], t) == e[0].prob.n;
    assert e[..|e| - 1] == e[..1];
    assert ProbabilitySumTo(e, t) == e[0].prob.n;
  }

  /** An even split (1/2, 1/2) between two distinct blocks picks successor 1. */
  lemma EvenSplitPicksSuccessorOne(blk: Block)
    requires |blk.edges| == 2 && blk.edges[0].target != blk.edges[1].target
    requires blk.edges[0].prob == FromFraction(1, 2) && blk.edges[1].prob == FromFraction(1, 2)
    ensures HotSuccessor(blk) == Some(blk.edges[1].target)
  {
    ThresholdExamples();
    TwoWayBranchChoice(blk);
  }

  /**
   * When the probabilities of a block's successors sum to one, the hot successor always
   * exists; in particular a block with a single successor always continues into it.
   */
  lemma {:induction false} DistributionHasHotSuccessor(blk: Block)
    requires |blk.edges| >= 1
    requires ProbabilitySum(blk.edges) == Denominator
    ensures HotSuccessor(blk).Some?
    ensures |blk.edges| == 1 ==> HotSuccessor(blk) == Some(blk.edges[0].target)
  {
    if |blk.edges| == 1 {
      var e := blk.edges;
      assert e[..0] == [];
      assert ProbabilitySumTo(e, e[0].target) == ProbabilitySum(e);
      assert HotThreshold().n <= Denominator;
    }
  }

  /** The `isIn` helper: does `parent` occur among `bbs`? */
  method IsIn(parent: BlockId, bbs: seq<BlockId>) returns (found: bool)
    ensures found <==> parent in bbs
  {
    var k := 0;
    while k < |bbs|
      invariant 0 <= k <= |bbs|
      invariant parent !in bbs[..k]
    {
      if bbs[k] == parent {
        return true;
      }
      k := k + 1;
    }
    assert bbs[..k] == bbs;
    return false;
  }

  /**
   * `p` is a hot path from `start` to `latch`: it begins at `start`, each next block is the
   * hot successor of the previous one, and it stops at the first occurrence of `latch`.
   */
  ghost predicate IsHotPathFrom(f: Function, latch: BlockId, start: BlockId, p: seq<BlockId>) {
    && |p| > 0
    && p[0] == start
    && p[|p| - 1] == latch
    && (forall i :: 0 <= i < |p| ==> p[i] in f.body)
    && (forall i :: 0 <= i < |p| - 1 ==> p[i] != latch && HotSuccessor(f.body[p[i]]) == Some(p[i + 1]))
  }

  /**
   * The walk of the pass from `b`: record the block, stop at the latch, otherwise continue
   * with the hot successor. At most `fuel` blocks are recorded.
   */
  function Walk(f: Function, latch: BlockId, b: BlockId, fuel: nat): (r: Result<seq<BlockId>>)
    ensures r.Ok? ==> IsHotPathFrom(f, latch, b, r.value) && |r.value| <= fuel
    decreases fuel
  {
    if fuel == 0 then Skip(NonTerminatingTrace)
    else if b !in f.body then Skip(MissingBlock(b))
    else if b == latch then Ok([b])
    else match HotSuccessor(f.body[b])
      case None => Skip(UnsupportedControlFlow(b))
      case Some(next) =>
        match Walk(f, latch, next, fuel - 1)
        case Skip(why) => Skip(why)
        case Ok(rest) => Ok([b] + rest)
  }

  /** A suffix of a hot path is a hot path from its first block. */
  lemma HotPathSuffix(f: Function, latch: BlockId, start: BlockId, p: seq<BlockId>, k: nat)
    requires IsHotPathFrom(f, latch, start, p)
    requires k < |p|
    ensures IsHotPathFrom(f, latch, p[k], p[k..])
  {
  }

  /** The walk is deterministic: there is at most one hot path from a block. */
  lemma {:induction false} HotPathUnique(f: Function, latch: BlockId, start: BlockId, p: seq<BlockId>, q: seq<BlockId>)
    requires IsHotPathFrom(f, latch, start, p)
    requires IsHotPathFrom(f, latch, start, q)
    ensures p == q
    decreases |p|
  {
    if start == latch {
      assert |p| == 1 && |q| == 1;
    } else {
      assert |p| > 1 && |q| > 1;
      assert p[1] == q[1];
      HotPathSuffix(f, latch, start, p, 1);
      HotPathSuffix(f, latch, start, q, 1);
      HotPathUnique(f, latch, p[1], p[1..], q[1..]);
      assert p == [p[0]] + p[1..];
      assert q == [q[0]] + q[1..];
    }
  }

  /** A hot path never visits a block twice, and the latch occurs only as its last block. */
  lemma HotPathDistinct(f: Function, latch: BlockId, start: BlockId, p: seq<BlockId>)
    requires IsHotPathFrom(f, latch, start, p)
    ensures Distinct(p)
    ensures forall i :: 0 <= i < |p| && p[i] == latch ==> i == |p| - 1
  {
    forall i, j | 0 <= i < j < |p|
      ensures p[i] != p[j]
    {
      if p[i] == p[j] {
        HotPathSuffix(f, latch, start, p, i);
        HotPathSuffix(f, latch, start, p, j);
        HotPathUnique(f, latch, p[i], p[i..], p[j..]);
        assert false;
      }
    }
  }

  /** Given enough fuel, the walk finds the hot path whenever there is one. */
  lemma {:induction false} WalkComplete(f: Function, latch: BlockId, b: BlockId, p: seq<BlockId>, fuel: nat)
    requires IsHotPathFrom(f, latch, b, p)
    requires |p| <= fuel
    ensures Walk(f, latch, b, fuel) == Ok(p)
    decreases |p|
  {
    if b != latch {
      assert |p| > 1;
      HotPathSuffix(f, latch, b, p, 1);
      WalkComplete(f, latch, p[1], p[1..], fuel - 1);
      assert p == [b] + p[1..];
    } else {
      assert |p| == 1;
      assert p == [b];
    }
  }

  /**
   * The trace of a loop: the walk from the header, bounded by the number of blocks of the
   * function (a terminating walk never repeats a block, so it fits within that bound).
   */
  function Trace(f: Function, loop: Loop): (r: Result<seq<BlockId>>)
    ensures r.Ok? ==> IsHotPathFrom(f, loop.latch, loop.header, r.value)
    ensures r.Ok? ==> Distinct(r.value)
    ensures r.Ok? ==> forall i :: 0 <= i < |r.value| - 1 ==> r.value[i] != loop.latch
  {
    var r := Walk(f, loop.latch, loop.header, |f.body|);
    if r.Ok? then
      HotPathDistinct(f, loop.latch, loop.header, r.value);
      r
    else r
  }

  /**
   * The bound loses nothing: whenever a hot path from the header to the latch exists, the
   * trace returns it, so a `NonTerminatingTrace` skip means the walk really never ends.
   */
  lemma TraceFindsHotPath(f: Function, loop: Loop, p: seq<BlockId>)
    requires IsHotPathFrom(f, loop.latch, loop.header, p)
    ensures Trace(f, loop) == Ok(p)
  {
    HotPathDistinct(f, loop.latch, loop.header, p);
    DistinctLengthBound(p, f.body.Keys);
    WalkComplete(f, loop.latch, loop.header, p, |f.body|);
  }

  /** The loads of block `b` from position `i` on, in instruction order. */
  function LoadsFrom(b: BlockId, insts: seq<Inst>, i: nat): (r: seq<LoadRef>)
    ensures forall h :: h in r <==> h.block == b && i <= h.index < |insts| && insts[h.index] == Load(h.dst, h.ptr)
    ensures forall j, k :: 0 <= j < k < |r| ==> r[j].index < r[k].index
    ensures forall j :: 0 <= j < |r| ==> r[j].block == b && i <= r[j].index
    decreases |insts| - i
  {
    if i >= |insts| then []
    else
      var rest := LoadsFrom(b, insts, i + 1);
      match insts[i]
      case Load(d, p) => [LoadRef(b, i, d, p)] + rest
      case _ => rest
  }

  /** The loads met along `path`: block by block in path order, in instruction order within a block. */
  function CollectLoads(f: Function, path: seq<BlockId>): (r: seq<LoadRef>)
    ensures forall h :: h in r <==> h.block in path && LoadAt(f, h)
  {
    if path == [] then []
    else
      var here := if path[0] in f.body then LoadsFrom(path[0], f.body[path[0]].insts, 0) else [];
      here + CollectLoads(f, path[1..])
  }

  /** `a` comes before `b` when walking `path`, then reading each block top to bottom. */
  predicate PathOrdered(path: seq<BlockId>, a: LoadRef, b: LoadRef)
    requires a.block in path && b.block in path
  {
    IndexOf(path, a.block) < IndexOf(path, b.block) || (a.block == b.block && a.index < b.index)
  }

  /** Every earlier load of `r` comes before every later one along `path`. */
  predicate InPathOrder(path: seq<BlockId>, r: seq<LoadRef>) {
    forall j, k :: 0 <= j < k < |r| ==> r[j].block in path && r[k].block in path && PathOrdered(path, r[j], r[k])
  }

  /** On a path without repeats, the collected loads are in path order, then instruction order. */
  lemma {:induction false} CollectLoadsInPathOrder(f: Function, path: seq<BlockId>)
    requires Distinct(path)
    ensures InPathOrder(path, CollectLoads(f, path))
  {
    if path != [] {
      var here := if path[0] in f.body then LoadsFrom(path[0], f.body[path[0]].insts, 0) else [];
      var tail := path[1..];
      var rest := CollectLoads(f, tail);
      assert Distinct(tail);
      CollectLoadsInPathOrder(f, tail);
      forall h | h in rest
        ensures h.block in tail
      {
      }
      ConsInPathOrder(path, here, rest);
    }
  }

  /** Deleting loads keeps the rest in path order. */
  lemma {:induction false} SubsequenceInPathOrder(path: seq<BlockId>, a: seq<LoadRef>, b: seq<LoadRef>)
    requires IsSubsequence(a, b) && InPathOrder(path, b)
    ensures InPathOrder(path, a)
    decreases |b|
  {
    if a != [] {
      assert InPathOrder(path, b[1..]) by {
        forall j, k | 0 <= j < k < |b[1..]|
          ensures b[1..][j].block in path && b[1..][k].block in path && PathOrdered(path, b[1..][j], b[1..][k])
        {
          assert b[1..][j] == b[j + 1] && b[1..][k] == b[k + 1];
        }
      }
      if a[0] == b[0] {
        SubsequenceInPathOrder(path, a[1..], b[1..]);
        SubsequenceIn(a[1..], b[1..]);
        forall j, k | 0 <= j < k < |a|
          ensures a[j].block in path && a[k].block in path && PathOrdered(path, a[j], a[k])
        {
          assert a[k] == a[1..][k - 1];
          if j > 0 {
            assert a[j] == a[1..][j - 1];
          } else {
            assert a[k] in b[1..];
            var m :| 0 <= m < |b[1..]| && b[1..][m] == a[k];
            assert b[m + 1] == a[k];
          }
        }
      } else {
        SubsequenceInPathOrder(path, a, b[1..]);
      }
    }
  }

  /** Loads of the first block, in instruction order, followed by path-ordered loads of later blocks. */
  lemma ConsInPathOrder(path: seq<BlockId>, here: seq<LoadRef>, rest: seq<LoadRef>)
    requires path != [] && Distinct(path)
    requires forall j :: 0 <= j < |here| ==> here[j].block == path[0]
    requires forall j, k :: 0 <= j < k < |here| ==> here[j].index < here[k].index
    requires forall h :: h in rest ==> h.block in path[1..]
    requires InPathOrder(path[1..], rest)
    ensures InPathOrder(path, here + rest)
  {
    var tail := path[1..];
    var r := here + rest;
    forall x | x in tail
      ensures x != path[0] && IndexOf(path, x) == 1 + IndexOf(tail, x)
    {
    }
    forall j, k | 0 <= j < k < |r|
      ensures r[j].block in path && r[k].block in path && PathOrdered(path, r[j], r[k])
    {
      if k < |here| {
        assert r[j] == here[j] && r[k] == here[k];
      } else if j < |here| {
        assert r[j] == here[j] && r[k] == rest[k - |here|];
        assert rest[k - |here|] in rest;
      } else {
        var j', k' := j - |here|, k - |here|;
        assert r[j] == rest[j'] && r[k] == rest[k'];
        assert rest[j'] in rest && rest[k'] in rest;
        assert PathOrdered(tail, rest[j'], rest[k']);
      }
    }
  }

  /** The cold blocks: the loop's blocks not on the hot path, in the loop's block order. */
  function ColdBlocks(loopBlocks: seq<BlockId>, path: seq<BlockId>): (cold: seq<BlockId>)
    ensures forall b :: b in cold <==> b in loopBlocks && b !in path
    ensures forall b :: b in loopBlocks ==> (b in path) != (b in cold)
    ensures IsSubsequence(cold, loopBlocks)
  {
    FilterIsSubsequence(loopBlocks, b => b !in path);
    Filter(loopBlocks, b => b !in path)
  }
}
