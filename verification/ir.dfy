/**
 * The slice of the compiler IR the promotion pass reads and edits: blocks with an
 * instruction list and probability-annotated successor edges, loops, and the list edits
 * (overwrite, append, insert, replace-all-uses, operand retargeting) the pass performs.
 *
 * Pointer operands are storage locations (`Loc`), compared by identity; loaded and
 * computed values are registers (`Reg`). An instruction is identified by its position
 * (block, index); the terminator is not in the instruction list, its successors are the
 * block's edges.
 */
module Ir {
  import opened Probability

  type BlockId = nat
  type Loc = nat
  type Reg = nat

  datatype Inst =
    | Load(dst: Reg, ptr: Loc)
    | Store(src: Reg, ptr: Loc)
    | Alloca(slot: Loc)
    | Other(dst: Reg, args: seq<Reg>)

  /** Successor slot of a terminator with the probability the analysis assigns it. */
  datatype Edge = Edge(target: BlockId, prob: BranchProbability)

  datatype Block = Block(insts: seq<Inst>, edges: seq<Edge>)

  datatype Function = Function(body: map<BlockId, Block>)

  /** A top-level loop in loop-simplify form: header, unique latch, unique preheader, body blocks. */
  datatype Loop = Loop(header: BlockId, latch: BlockId, preheader: BlockId, blocks: seq<BlockId>)

  /** A load instruction named by its position, with the register it defines and the location it reads. */
  datatype LoadRef = LoadRef(block: BlockId, index: nat, dst: Reg, ptr: Loc)

  /** `h` names a load that is present in `f` at its position. */
  predicate LoadAt(f: Function, h: LoadRef) {
    && h.block in f.body
    && h.index < |f.body[h.block].insts|
    && f.body[h.block].insts[h.index] == Load(h.dst, h.ptr)
  }

  /** What an instruction does to memory, forgetting registers. */
  datatype Access = LoadOf(loc: Loc) | StoreTo(loc: Loc) | AllocaOf(loc: Loc) | NoAccess

  function AccessOf(i: Inst): Access {
    match i
    case Load(_, p) => LoadOf(p)
    case Store(_, p) => StoreTo(p)
    case Alloca(s) => AllocaOf(s)
    case Other(_, _) => NoAccess
  }

  function Accesses(insts: seq<Inst>): (a: seq<Access>)
    ensures |a| == |insts|
    ensures forall i :: 0 <= i < |insts| ==> a[i] == AccessOf(insts[i])
  {
    seq(|insts|, i requires 0 <= i < |insts| => AccessOf(insts[i]))
  }

  /** The registers an instruction reads. */
  function Uses(i: Inst): set<Reg> {
    match i
    case Store(v, _) => {v}
    case Other(_, args) => set a | a in args
    case _ => {}
  }

  /** The register an instruction defines, if any. */
  function Defs(i: Inst): set<Reg> {
    match i
    case Load(d, _) => {d}
    case Other(d, _) => {d}
    case _ => {}
  }

  /** Every location mentioned in `f` is below `nextLoc`. */
  predicate LocsBelow(f: Function, nextLoc: Loc) {
    forall b, i :: b in f.body && 0 <= i < |f.body[b].insts| ==>
      match AccessOf(f.body[b].insts[i])
      case NoAccess => true
      case LoadOf(p) => p < nextLoc
      case StoreTo(p) => p < nextLoc
      case AllocaOf(p) => p < nextLoc
  }

  /** Every register defined or used in `f` is below `nextReg`. */
  ghost predicate RegsBelow(f: Function, nextReg: Reg) {
    forall b, i, r :: b in f.body && 0 <= i < |f.body[b].insts| && (r in Uses(f.body[b].insts[i]) || r in Defs(f.body[b].insts[i])) ==> r < nextReg
  }

  /** Single assignment: no register is defined at two different positions of `f`. */
  ghost predicate SingleAssignment(f: Function) {
    forall b, i, c, j, r |
      && b in f.body && c in f.body && 0 <= i < |f.body[b].insts| && 0 <= j < |f.body[c].insts|
      && r in Defs(f.body[b].insts[i]) && r in Defs(f.body[c].insts[j])
      :: b == c && i == j
  }

  /** Same blocks, same edges: the control-flow graph is untouched. */
  predicate SameCfg(f: Function, g: Function) {
    && f.body.Keys == g.body.Keys
    && forall b :: b in f.body ==> g.body[b].edges == f.body[b].edges
  }

  /** Overwrite the instruction at (b, i). */
  function SetInst(f: Function, b: BlockId, i: nat, x: Inst): (g: Function)
    requires b in f.body && i < |f.body[b].insts|
    ensures SameCfg(f, g)
    ensures forall c :: c in f.body && c != b ==> g.body[c] == f.body[c]
    ensures g.body[b].insts == f.body[b].insts[i := x]
  {
    var blk := f.body[b];
    Function(f.body[b := blk.(insts := blk.insts[i := x])])
  }

  /** Insert `x` as the last instruction of `b`, just before its terminator. */
  function Append(f: Function, b: BlockId, x: Inst): (g: Function)
    requires b in f.body
    ensures SameCfg(f, g)
    ensures forall c :: c in f.body && c != b ==> g.body[c] == f.body[c]
    ensures g.body[b].insts == f.body[b].insts + [x]
  {
    var blk := f.body[b];
    Function(f.body[b := blk.(insts := blk.insts + [x])])
  }

  /** Position of the first `Alloca(slot)` in `insts`, if there is one. */
  function FindAlloca(insts: seq<Inst>, slot: Loc): (k: int)
    ensures -1 <= k < |insts|
    ensures k >= 0 ==> insts[k] == Alloca(slot) && forall j :: 0 <= j < k ==> insts[j] != Alloca(slot)
    ensures k == -1 ==> forall j :: 0 <= j < |insts| ==> insts[j] != Alloca(slot)
  {
    if insts == [] then -1
    else if insts[0] == Alloca(slot) then 0
    else
      var k := FindAlloca(insts[1..], slot);
      if k == -1 then -1 else k + 1
  }

  /**
   * `insts` with `x` moved in just after the first allocation of `slot`, keeping the order of
   * everything else (at the end if `insts` allocates no such slot).
   */
  function AfterAlloca(insts: seq<Inst>, slot: Loc, x: Inst): (r: seq<Inst>)
    ensures |r| == |insts| + 1
    ensures var k := FindAlloca(insts, slot);
      k >= 0 ==> r[..k + 1] == insts[..k + 1] && r[k + 1] == x && r[k + 2..] == insts[k + 1..]
    ensures FindAlloca(insts, slot) == -1 ==> r == insts + [x]
    ensures multiset(r) == multiset(insts) + multiset{x}
    ensures multiset(Accesses(r)) == multiset(Accesses(insts)) + multiset{AccessOf(x)}
  {
    var k := FindAlloca(insts, slot);
    var at := if k == -1 then |insts| else k + 1;
    AccessesInsert(insts, at, x);
    InsertAt(insts, at, x);
    insts[..at] + [x] + insts[at..]
  }

  /** `moveAfter(alloca)` in block `b`: only `b`'s list changes, as `AfterAlloca` describes. */
  function InsertAfterAlloca(f: Function, b: BlockId, slot: Loc, x: Inst): (g: Function)
    requires b in f.body
    ensures SameCfg(f, g)
    ensures forall c :: c in f.body && c != b ==> g.body[c] == f.body[c]
    ensures g.body[b].insts == AfterAlloca(f.body[b].insts, slot, x)
  {
    var blk := f.body[b];
    Function(f.body[b := blk.(insts := AfterAlloca(blk.insts, slot, x))])
  }

  /** Inserting `x` at position `at` of `s` splits `s` there and adds one occurrence of `x`. */
  lemma InsertAt<T>(s: seq<T>, at: nat, x: T)
    requires at <= |s|
    ensures var t := s[..at] + [x] + s[at..];
      && |t| == |s| + 1
      && t[..at] == s[..at] && t[at] == x && t[at + 1..] == s[at..]
      && multiset(t) == multiset(s) + multiset{x}
      && (at == |s| ==> t == s + [x])
  {
    var t := s[..at] + [x] + s[at..];
    assert s == s[..at] + s[at..];
    assert t[at + 1..] == s[at..];
  }

  lemma AccessesInsert(insts: seq<Inst>, at: nat, x: Inst)
    requires at <= |insts|
    ensures multiset(Accesses(insts[..at] + [x] + insts[at..])) == multiset(Accesses(insts)) + multiset{AccessOf(x)}
  {
    var pre, post := insts[..at], insts[at..];
    assert Accesses(pre + [x] + post) == Accesses(pre) + [AccessOf(x)] + Accesses(post);
    assert insts == pre + post;
    assert Accesses(insts) == Accesses(pre) + Accesses(post);
  }

  /** Substitute `into` for every use of `from` in one instruction. */
  function RenameUse(i: Inst, from: Reg, into: Reg): (j: Inst)
    ensures AccessOf(j) == AccessOf(i)
    ensures Defs(j) == Defs(i)
    ensures Uses(j) == if from in Uses(i) then Uses(i) - {from} + {into} else Uses(i)
  {
    match i
    case Store(v, p) => Store(if v == from then into else v, p)
    case Other(d, args) =>
      var args' := seq(|args|, k requires 0 <= k < |args| => if args[k] == from then into else args[k]);
      assert forall a :: a in args' <==> (a in args && a != from) || (a == into && from in args) by {
        forall a | a in args'
          ensures (a in args && a != from) || (a == into && from in args)
        {
          var k :| 0 <= k < |args'| && args'[k] == a;
        }
        forall a | (a in args && a != from) || (a == into && from in args)
          ensures a in args'
        {
          var k :| 0 <= k < |args| && args[k] == (if a == into && from in args then from else a);
          if a == into && from in args {
            assert args'[k] == into;
          } else {
            assert args'[k] == a;
          }
        }
      }
      Other(d, args')
    case _ => i
  }

  /**
   * Replace-all-uses: every instruction of the function that read `from` reads `into` instead.
   * Definitions, memory accesses, block lengths and the control-flow graph are unchanged.
   */
  function ReplaceUses(f: Function, from: Reg, into: Reg): (g: Function)
    ensures SameCfg(f, g)
    ensures forall b :: b in f.body ==> |g.body[b].insts| == |f.body[b].insts|
    ensures forall b, i :: b in f.body && 0 <= i < |f.body[b].insts| ==>
      && AccessOf(g.body[b].insts[i]) == AccessOf(f.body[b].insts[i])
      && Defs(g.body[b].insts[i]) == Defs(f.body[b].insts[i])
      && Uses(g.body[b].insts[i]) == (if from in Uses(f.body[b].insts[i]) then Uses(f.body[b].insts[i]) - {from} + {into} else Uses(f.body[b].insts[i]))
  {
    Function(map b | b in f.body :: RenameBlock(f.body[b], from, into))
  }

  function RenameBlock(blk: Block, from: Reg, into: Reg): (r: Block)
    ensures r.edges == blk.edges && |r.insts| == |blk.insts|
    ensures forall i :: 0 <= i < |blk.insts| ==> r.insts[i] == RenameUse(blk.insts[i], from, into)
  {
    blk.(insts := seq(|blk.insts|, i requires 0 <= i < |blk.insts| => RenameUse(blk.insts[i], from, into)))
  }

  /**
   * Set the pointer operand of every store to `p` in the blocks `among` to `t`
   * (the `setOperand(1, …)` edit); nothing else changes.
   */
  function Retarget(f: Function, among: seq<BlockId>, p: Loc, t: Loc): (g: Function)
    ensures SameCfg(f, g)
    ensures forall b :: b in f.body ==> |g.body[b].insts| == |f.body[b].insts|
    ensures forall b :: b in f.body && b !in among ==> g.body[b] == f.body[b]
    ensures forall b, i :: b in f.body && b in among && 0 <= i < |f.body[b].insts| ==>
      g.body[b].insts[i] == match f.body[b].insts[i]
                            case Store(v, q) => if q == p then Store(v, t) else Store(v, q)
                            case other => other
  {
    Function(map b | b in f.body :: if b in among then RetargetBlock(f.body[b], p, t) else f.body[b])
  }

  function RetargetInst(i: Inst, p: Loc, t: Loc): Inst {
    match i
    case Store(v, q) => if q == p then Store(v, t) else Store(v, q)
    case other => other
  }

  function RetargetBlock(blk: Block, p: Loc, t: Loc): (r: Block)
    ensures r.edges == blk.edges && |r.insts| == |blk.insts|
    ensures forall i :: 0 <= i < |blk.insts| ==> r.insts[i] == RetargetInst(blk.insts[i], p, t)
  {
    blk.(insts := seq(|blk.insts|, i requires 0 <= i < |blk.insts| => RetargetInst(blk.insts[i], p, t)))
  }
}
