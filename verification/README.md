# Frequent-path load promotion, modelled in Dafny

This project models the loop pass `HW2CorrectnessPass::run` of `hw2/hw2pass/hw2pass.cpp` and its
two helpers, `getHotSuccessor` and `isIn`. The pass processes each top-level loop of a function
in five stages:

1. **Trace.** Walk the hot path from the header to the latch. At each block, follow successor 0
   when the edge to it has probability at least 4/5, otherwise successor 1. Collect the loads on
   the way.
2. **Cold blocks.** The cold blocks are the loop's blocks that are not on that path.
3. **Eligibility.** Keep the collected loads whose pointer operand is stored to in some cold
   block and in no hot block.
4. **Temporaries.** Give each distinct kept pointer one stack temporary in the preheader.
   Retarget the cold-block stores to that pointer so they write the temporary.
5. **Load rewrite.** Replace each kept load by a fresh load from the temporary. Move the
   original load into the preheader, where its value is stored into the temporary.

The model is functional:

- **Function.** A function is a map from block ids to blocks. A block is a list of instructions
  plus its successor edges, each edge carrying an LLVM-style `BranchProbability`. The terminator
  is implicit in the edges.
- **Instructions.** `Load(dst, ptr)`, `Store(val, ptr)`, `Alloca(slot)` and `Other(dst, args)`.
- **Locations and registers.** Pointer operands (`Loc`) and SSA values (`Reg`) are separate
  name spaces. An instruction is identified by its (block, index) position.
- **Probabilities.** These are fixed-point numerators over 2^31, as in LLVM. The threshold
  `BranchProbability(4, 5)` is rounded to 1717986918.
- **Fresh names.** The allocas and loads the rewrite creates take fresh names from two
  counters, `nextLoc` and `nextReg`. Both start above every name the function already uses.

Modules, in dependency order:

| module | file | what it holds |
|---|---|---|
| `Seqs` | `seqs.dfy` | Generic sequence helpers: distinctness, subsequences, filter, dedup, index-of. |
| `Probability` | `probability.dfy` | `BranchProbability`, its rounding constructor, saturating addition, and the 4/5 threshold. |
| `Ir` | `ir.dfy` | The IR, the memory access of an instruction, register uses and definitions, and the edit primitives the pass applies. |
| `HotPath` | `hotpath.dfy` | The hot-successor choice, `isIn`, the fuel-bounded trace, load collection, and the cold-block set. |
| `Eligibility` | `eligibility.dfy` | The store scans and the hoistable-load filter, plus the pass's selection loop as a method. |
| `Temps` | `temps.dfy` | The pointer-to-temporary map built in first-occurrence order. |
| `Rewrite` | `rewrite.dfy` | One step of the rewrite per hoistable load, the fold over all of them, and what the fold does to every position. |
| `Promote` | `promote.dfy` | One loop's promotion end to end, and its headline properties. |

## Model

| member | source | states |
|---|---|---|
| Probability.FromFraction | hw2/hw2pass/hw2pass.cpp:47 | `BranchProbability(num, den)` is valid and rounds `num/den * 2^31` to the nearest numerator. |
| Probability.HotThreshold | hw2/hw2pass/hw2pass.cpp:47 | The threshold `BranchProbability(4, 5)` has numerator 1717986918, i.e. `5n + 2 = 4 * 2^31`. |
| Probability.HotIffAtLeastFourFifths | hw2/hw2pass/hw2pass.cpp:47 | A probability is hot iff it is at least the nearest representable value below 4/5. An exact 4/5 or more is always hot. |
| Probability.ThresholdExamples | hw2/hw2pass/hw2pass.cpp:47 | 4/5 is hot, 1/2 is not, and 1 is hot. 1/2 is represented as exactly half of 2^31. |
| Probability.FractionHotIff | hw2/hw2pass/hw2pass.cpp:47 | For a fraction: hot iff its rounded numerator reaches the threshold. Hence a fraction of at least 4/5 is hot, and a hot fraction is at least 4/5 − 9/(10·2^31), i.e. `10·num·2^31 + 9·den >= 8·2^31·den`. |
| HotPath.EdgeProbability | hw2/hw2pass/hw2pass.cpp:46 | The probability of reaching a block is the sum over every successor slot leading to it, saturated at one. |
| HotPath.HotSuccessor | hw2/hw2pass/hw2pass.cpp:42-53 | The chosen successor is always successor 0 or successor 1 of the block. |
| HotPath.TwoWayBranchChoice | hw2/hw2pass/hw2pass.cpp:42-53 | On a two-way branch, successor 0 is chosen iff its edge is hot, and successor 1 is chosen iff it is not. |
| HotPath.EvenSplitPicksSuccessorOne | hw2/hw2pass/hw2pass.cpp:47-52 | A 1/2–1/2 split picks successor 1. |
| HotPath.DistributionHasHotSuccessor | hw2/hw2pass/hw2pass.cpp:44-52 | If a block's probabilities sum to one, a successor is always chosen. A single-successor block continues into that successor. |
| HotPath.IsIn | hw2/hw2pass/hw2pass.cpp:55-67 | `isIn` answers true exactly when the parent block occurs in the list. |
| HotPath.Walk | hw2/hw2pass/hw2pass.cpp:88-112 | A walk that succeeds is a hot path: it starts at the given block, follows hot successors, and ends at the first occurrence of the latch within the fuel. |
| HotPath.HotPathUnique | hw2/hw2pass/hw2pass.cpp:88-112 | From a given start there is at most one hot path; the walk is deterministic. |
| HotPath.HotPathDistinct | hw2/hw2pass/hw2pass.cpp:88-112 | A hot path never repeats a block, and the latch occurs only as its last element. |
| HotPath.WalkComplete | hw2/hw2pass/hw2pass.cpp:88-112 | Whenever a hot path exists and the fuel covers it, the walk finds exactly that path. |
| HotPath.Trace | hw2/hw2pass/hw2pass.cpp:82-112 | The trace from the header is a hot path with no repeated block, and it reaches the latch only at its end. |
| HotPath.TraceFindsHotPath | hw2/hw2pass/hw2pass.cpp:88-112 | A hot path whose length is bounded by the function's size is exactly what the trace returns. |
| HotPath.LoadsFrom | hw2/hw2pass/hw2pass.cpp:91-106 | The loads of one block, from a given index on, in increasing instruction order. |
| HotPath.CollectLoads | hw2/hw2pass/hw2pass.cpp:88-106 | The collected loads are exactly the loads in the path's blocks. |
| HotPath.CollectLoadsInPathOrder | hw2/hw2pass/hw2pass.cpp:88-106 | Collected loads are ordered by the position of their block on the path, then by instruction index. |
| HotPath.SubsequenceInPathOrder | hw2/hw2pass/hw2pass.cpp:123-187 | Keeping only some of the collected loads, in their order, leaves them in path order. |
| HotPath.ColdBlocks | hw2/hw2pass/hw2pass.cpp:114-121 | The cold blocks are the loop blocks not on the path, in loop-block order. Each loop block is either on the path or cold, never both. |
| Eligibility.StoresTo | hw2/hw2pass/hw2pass.cpp:142-148 | A block's instruction list stores to `p` iff one of its instructions is a store whose pointer operand is `p`. |
| Eligibility.HasStoreIn | hw2/hw2pass/hw2pass.cpp:130-150 | The users scan finds a store to `p` among the given blocks iff such a store exists. |
| Eligibility.Hoistable | hw2/hw2pass/hw2pass.cpp:123-187 | A collected load is hoistable iff its pointer is stored to in a cold block and in no hot block. The result is an order-preserving subsequence. Loads that share a pointer are classified alike. |
| Eligibility.HoistableCons | hw2/hw2pass/hw2pass.cpp:124-187 | Classifying one more load extends the result by that load or by nothing. |
| Eligibility.SelectHoistable | hw2/hw2pass/hw2pass.cpp:123-187 | The selection loop with its early `continue`s computes exactly `Hoistable`. |
| Temps.TempMap | hw2/hw2pass/hw2pass.cpp:191-212 | The map's keys are exactly the processed pointers. |
| Temps.TempMapNumbering | hw2/hw2pass/hw2pass.cpp:200-212 | The k-th distinct pointer gets temporary `base + k`. Temporaries lie in `[base, base + #distinct)` and are pairwise distinct. |
| Temps.TempMapGrows | hw2/hw2pass/hw2pass.cpp:200-212 | A later pointer never changes a temporary already handed out. |
| Temps.TempMapSnoc | hw2/hw2pass/hw2pass.cpp:200-212 | A known pointer keeps its temporary. A new pointer gets the next number. |
| Temps.TempMapInjective | hw2/hw2pass/hw2pass.cpp:211-212 | Distinct pointers get distinct temporaries. |
| Ir.SetInst | hw2/hw2pass/hw2pass.cpp:248 | Replacing one instruction changes that slot only. |
| Ir.Append | hw2/hw2pass/hw2pass.cpp:251-253 | Inserting before the terminator adds the instruction at the end of the block's list and touches nothing else. |
| Ir.FindAlloca | hw2/hw2pass/hw2pass.cpp:206 | Finds the first alloca of the slot, or reports that there is none. |
| Ir.AfterAlloca | hw2/hw2pass/hw2pass.cpp:206 | The moved instruction lands immediately after the first alloca of the slot, or at the end when there is none. Everything before stays in place, everything after shifts by one, and exactly one instruction (and its access) is added. |
| Ir.InsertAfterAlloca | hw2/hw2pass/hw2pass.cpp:206 | `moveAfter(allocaInst)` rewrites only the preheader's list, as `AfterAlloca` places it, and keeps the control-flow graph and every other block. |
| Ir.RenameUse | hw2/hw2pass/hw2pass.cpp:204 | Renaming one register in an instruction keeps its access and definitions, and swaps `from` for `into` among its uses. |
| Ir.ReplaceUses | hw2/hw2pass/hw2pass.cpp:249 | `replaceAllUsesWith` renames every use in every block and keeps the control-flow graph and all block lengths. |
| Ir.Retarget | hw2/hw2pass/hw2pass.cpp:214-246 | In the listed blocks, stores to `p` now write `t`. Every other instruction and block is unchanged. |
| Rewrite.Step | hw2/hw2pass/hw2pass.cpp:195-254 | One hoistable load keeps the CFG and every non-preheader length. Its pointer reuses its temporary or takes the next fresh one. One fresh register is used. |
| Rewrite.StepAccessAt | hw2/hw2pass/hw2pass.cpp:200-249 | After one step, each position outside the preheader is the hoisted load now reading the temporary, a cold store now writing it, or unchanged. |
| Rewrite.StepPreheader | hw2/hw2pass/hw2pass.cpp:204-253 | One step adds to the preheader exactly two instructions, plus the alloca when the pointer is new. The first is the moved load, still defining the hoisted load's register from the original pointer. The second is a store of that register into the temporary. The preheader's old instructions only see the hoisted register renamed to the fresh one. |
| Rewrite.StepPreheaderOrder | hw2/hw2pass/hw2pass.cpp:206-253 | After one step the moved load comes before the store of its value. A load that preceded a store of another register still precedes it. |
| Rewrite.StepRegistersAt | hw2/hw2pass/hw2pass.cpp:200-249 | After one step the hoisted position holds a load of the temporary into the fresh register. Every other position outside the preheader defines what it defined and keeps its loads. It reads the fresh register exactly where it read the hoisted load's register (`replaceAllUsesWith`). |
| Rewrite.RewriteAll | hw2/hw2pass/hw2pass.cpp:195-254 | The whole rewrite keeps the control-flow graph, and the length of every block but the preheader. |
| Rewrite.RewriteAllCounters | hw2/hw2pass/hw2pass.cpp:191-212 | After the rewrite, the map is the first-occurrence map of the hoisted pointers. One location per distinct pointer and one register per load are used. |
| Rewrite.RewriteAllAccesses | hw2/hw2pass/hw2pass.cpp:195-254 | Outside the preheader, a hoisted load reads its temporary and a cold store to a promoted pointer writes it. Every other access is unchanged. |
| Rewrite.AddedLoads | hw2/hw2pass/hw2pass.cpp:206-251 | The preheader gains one load of `q` per hoisted load of `q`. |
| Rewrite.AddedStores | hw2/hw2pass/hw2pass.cpp:208-253 | The preheader gains one store into `p`'s temporary per hoisted load of `p`. |
| Rewrite.AddedAllocas | hw2/hw2pass/hw2pass.cpp:211 | The preheader gains exactly one alloca for each promoted pointer. |
| Rewrite.AddedOnly | hw2/hw2pass/hw2pass.cpp:206-253 | Every added access is one of those three kinds, for a promoted pointer. |
| Rewrite.RewriteAllPreheader | hw2/hw2pass/hw2pass.cpp:206-253 | The new preheader's accesses are exactly the old ones plus the additions (one load of the pointer and one store into its temporary per hoisted load, one alloca per promoted pointer). |
| Rewrite.HandedToDistinct | hw2/hw2pass/hw2pass.cpp:203-204 | When the hoisted loads define distinct registers, the k-th one's value is handed to fresh register `regBase + k`. |
| Rewrite.HandedOverSnoc | hw2/hw2pass/hw2pass.cpp:203-204 | One more hoisted load renames its register among the uses to the next fresh register, unless an earlier hoisted load already took that register. |
| Rewrite.RewriteAllUses | hw2/hw2pass/hw2pass.cpp:203-249 | Outside the preheader, every instruction reads exactly the registers it read before, each handed over to the fresh register of the first hoisted load that defined it. No instruction reads a hoisted load's register any more. |
| Rewrite.RewriteAllDefs | hw2/hw2pass/hw2pass.cpp:203-249 | The k-th hoisted position now holds a load of its pointer's temporary into fresh register `regBase + k`. Every other position outside the preheader defines what it defined before, and every other load is untouched. |
| Rewrite.RewriteAllMoved | hw2/hw2pass/hw2pass.cpp:206-253 | When the hoisted loads define distinct registers, the preheader holds for each of them the moved load (same register, original pointer) and, later in the block, a store of that register into the pointer's temporary. |
| Rewrite.RewriteAllHoisted | hw2/hw2pass/hw2pass.cpp:248 | Every hoisted position reads its pointer's temporary. |
| Rewrite.RewriteAllNoDirectLoad | hw2/hw2pass/hw2pass.cpp:195-254 | A hot position that loaded a promoted pointer, and was hoisted, no longer loads that pointer. |
| Promote.PromoteLoop | hw2/hw2pass/hw2pass.cpp:80-257 | A loop is skipped exactly when its trace is skipped or its hot path runs through the preheader; otherwise the promotion keeps the traced path. The cold blocks are the loop blocks off the path. The loads are collected along the path, and the hoisted loads are the hoistable ones among them in collection order: path order, then instruction order. They are exactly the hot-path loads whose pointer is stored to in a cold block and in no hot block. There is one fresh temporary per distinct hoisted pointer, pairwise distinct and numbered in first-occurrence order. The control-flow graph and every non-preheader block length are kept. Each hoisted load reads its temporary. No hot-path block still loads from a promoted pointer, and none stores to a promoted pointer or to its temporary. Outside the preheader every access is exactly its promoted form: cold stores to a promoted pointer write its temporary, and every access other than those and the hoisted loads is unchanged, in cold blocks too. The preheader's accesses are exactly its old ones plus one alloca per pointer, and one load of the pointer and one store into the temporary per hoisted load. The k-th hoisted load is replaced by a load of its temporary into fresh register `nextReg + k`. Outside the preheader every instruction reads the registers it read before, with each hoisted load's register handed to that load's fresh register, and no instruction reads a hoisted load's register. Every other position keeps its definitions and loads. In a single-assignment function the preheader holds each moved load, defining its original register from the original pointer, followed later by the store of that register into the temporary. |
| Promote.PreheaderOffHotPath | hw2/hw2pass/hw2pass.cpp:88-112 | When the preheader is not the latch and its only successor is the header (loop-simplify form), a traced hot path never contains it. |

## Left out

- Pass registration and pipeline parsing (`hw2pass.cpp:283-307`): this is host plumbing.
- `HW2PerformancePass` (`hw2pass.cpp:265-280`): an empty stub.
- The `PreservedAnalyses::all()` return.
- **Analysis-manager queries.** The loop structure (header, latch, preheader, blocks) and the
  branch probabilities are inputs. The `BlockFrequencyInfo` result is never used, so it is
  not modelled.
- **Branch probabilities.** The model does not compute them; in particular it leaves out the
  analysis's uniform fallback for blocks without metadata.
- **IR mechanics.** `users()`, use lists, `replaceAllUsesWith`, `moveAfter`/`moveBefore` and
  `setOperand` are modelled as edits of instruction lists. Their iterator details and SSA
  bookkeeping are not.
- **Dominance and runtime semantics.** Dominance validity of the moved loads and runtime
  equivalence are not claimed. The code does not establish either.
- **Nested loops.** Only top-level loops are visited, so the model promotes one loop per call.
  Iterating over the top-level loops is not modelled.
- **Pointer identity.** Pointers are compared by name (`Loc`), exactly as the code compares
  pointer operands. Aliasing between distinct names is not modelled.
- **Loads through loaded pointers.** Loaded values are registers, not locations, so a load
  through a loaded pointer is not expressible.
- Promote.PromoteLoop: requires the loop to have a preheader that lies outside the loop. The
  code dereferences `getLoopPreheader()` without a null check, so the model states that
  expectation as a precondition.
- Promote.PromoteLoop: skips the loop (`PreheaderOnPath`) if the hot path ran through the
  preheader; the code has no such check. In loop-simplify form the preheader is not the latch
  and its only successor is the header, so the block after it on a path would be the header
  again, which a hot path never repeats. `PreheaderOffHotPath` proves that under those facts
  the skip never fires. The model keeps the skip instead of requiring those facts of every
  input.
- Promote.PromoteLoop: states the moved loads and their stores (`StoresMovedValues`) only for
  single-assignment functions (`SingleAssignment`). In LLVM every value has exactly one
  definition. The model's registers need not, and if two hoisted loads defined the same
  register, the later `replaceAllUsesWith` would also rename the earlier store.
- Rewrite.Step: its own contract states only the unchanged control-flow graph, the block lengths
  and the counters. What it does at each position is stated by `StepAccessAt`,
  `StepRegistersAt`, `StepPreheader` and `StepPreheaderOrder`.
- Rewrite.RewriteAll: its own contract states only the unchanged control-flow graph and block
  lengths. Its effect is stated by `RewriteAllAccesses`, `RewriteAllUses`, `RewriteAllDefs`,
  `RewriteAllPreheader` and `RewriteAllMoved`.
- Rewrite.RewriteAllPreheader: counts the preheader's memory accesses and forgets registers.
  The registers of the added loads and stores are stated by `RewriteAllMoved`.
- Rewrite.RewriteAllUses: compares the registers an instruction reads as a set. It does not
  track which operand slot of an `Other` instruction reads which register, nor renames in the
  preheader beyond what `StepPreheader` states for one step.
- **Latch.** `Loop.latch` is always a real block. The code's `getLoopLatch()` returns null when
  a loop has several latches. Then `bb == latch` never holds, and the trace runs until a
  terminator without successor 1 is reached, or forever. The model does not represent a
  missing latch.
- HotPath.HotSuccessor: returns `None` on a terminator with no successors, where the code's
  `getSuccessor(0)` is invalid. The trace then skips the loop (`UnsupportedControlFlow`).
- **Value types.** `load->getType()` is dropped: registers and temporaries are untyped. In the
  code each temporary's alloca takes the type of the first load of its pointer, and later loads
  of the same pointer reuse it whatever their type.
- HotPath.Walk: the trace loop of the code has no bound. The model bounds it by the number of blocks in
  the function and skips the loop (`NonTerminatingTrace`) when the bound is hit. Any
  terminating walk visits each block at most once, so the bound loses no terminating case.
- HotPath.HotSuccessor: the code calls `getSuccessor(1)` whenever successor 0 is not hot, even
  on a single-successor terminator, where that call is invalid. The model returns `None`
  there and the trace skips the loop (`UnsupportedControlFlow`). On a switch with three or
  more successors the model follows the code: it picks successor 1 whenever successor 0 is not
  hot, so successors from index 2 on are never followed.
- **Fresh names.** The names of the new allocas and loads come from the `nextLoc`/`nextReg`
  parameters rather than from LLVM's value allocation. `PromoteLoop` therefore requires
  (`FreshFrom`) that both counters lie above every location and register the function
  mentions. LLVM guarantees the same thing by construction.
