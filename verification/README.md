# A verified model of ReWizard's static analysis core

ReWizard loads a binary, discovers its functions and basic blocks by recursive descent,
normalises the blocks into a control-flow graph, runs two register analyses over the blocks,
and prunes branches that can go one way only. This project models that core in Dafny and
proves what it keeps and what it computes, for all inputs.

| file | what it models |
|---|---|
| `Blocks.dfy`, `ControlFlow.dfy`, `GraphSearch.dfy` | block lists as values: the flow between addresses that they stand for, splitting, lookup, the block graph, recorded predecessors, the breadth-first search |
| `Functions.dfy` | `BasicBlock` and `Function` as classes updated in place: split, splitting lookup, normalisation, `BuildCFG` |
| `Image.dfy`, `Layout.dfy`, `Descent.dfy`, `Records.dfy` | the mapped image with an abstract decoder, the instruction graph of one function, how blocks lie over instructions, one run of the descent step by step, and the recorded functions |
| `Explorer.dfy` | the explorer as a class: the work list of one function, the queue of functions, the linear sweep |
| `Words.dfy`, `Intervals.dfy` | signed 64-bit words and the interval domain |
| `Options.dfy`, `Instructions.dfy`, `Machine.dfy` | decoded instructions, as all parts of the program see them, and what they do to a register machine |
| `AbstractInterpretation.dfy`, `BranchVerdicts.dfy`, `OpaquePredicates.dfy` | the interval pass, its verdicts on branches, and the removal of dead edges |
| `DataFlow.dfy` | constant tracking and the indirect calls and jumps it resolves |
| `ControlPaths.dfy`, `Tours.dfy`, `Executions.dfy` | where control may go in a function and where the graph of its blocks goes; paths of the graph with the states of the machine; executions, and what both passes and the pruning say of them |
| `Examples.dfy` | programs for which an expected property fails |
| `Scheduling.dfy` | dependency order of passes, and running them |
| `Relocations.dfy` | base relocations applied to the mapped bytes |
| `Xrefs.dfy` | cross-references under three indexes |

## Main results

1. **Normalisation** keeps the flow relation between addresses and the covered bytes exactly
   (`Refines`), whatever the blocks are; from separate blocks it ends in the normal form, with
   exactly the starts there were and one more for every start or successor strictly inside a
   block (`Normalised`). It terminates because every split uses up exactly one pair of a block
   and an entry strictly inside it, and a second normalisation changes no block, overlapping
   ones included (`Settled`). The graph is exact, and for separate blocks in normal form it
   reaches a block exactly if execution reaches its bytes. Every edge is in the predecessor
   lists, and from every recorded predecessor execution leads to the block; no predecessor
   without an edge is recorded if no block has two starts or successors strictly inside it.
2. **Exploration** of a function visits exactly what is reached from its start through addresses
   that were not visited before; its closed blocks are tiled by consecutive instructions, before
   and after normalisation; and over a whole run every visited instruction belongs to exactly
   one function. Each recorded function is what the analysis from its start leaves, given those
   recorded before it (`AllInTurn`), with exactly the call sites of its instructions. No root,
   call site or swept prologue is lost, no function is recorded that does not start at one of
   these or at a direct target, and until the sweep begins none starts where nothing is
   executable. All nested loops terminate for every binary. Where decoded instructions do not
   overlap, the paths of the graph are the ways of control in the function if and only if no
   block was abandoned (`GraphIsControl`).
3. **Intervals**: for each operation, and for every instruction with the registers that called
   code preserves as a parameter, the exact condition under which no state is lost
   (`ApplyExact`, `CallExact`); the exact condition under which the domain handed to a block
   covers what the one behind a predecessor covered (`HandsOnExact`); and the exact condition
   for a verdict behind CMP. What an instruction computes from known words is known, and behind
   a comparison of a known register both verdicts are given (`KnownAfter`, `VerdictGiven`).
   Behind a state that the domain in front of the block covers, the verdict is right and the
   pruning by all results keeps the live edge (`BlockVerdictRight`, `PruningKeepsLiveEdge`). An
   execution of a function is a sequence of addresses and states, each step of which the machine
   can make. In a function without abandoned blocks, whose instructions do not overlap and whose
   successors lead to instructions (`Charted`), every execution from the entry that stays inside
   and takes no indirect jump is a path of the graph (`ExecutionIsTour`). If the conditions hold
   on the blocks and edges that the entry block reaches, then at every branch with a result the
   execution goes where that says, and after the pruning it is still a path of the graph,
   exactly if no branch that it leaves has both a result and its fall-through for a target
   (`ExecutionVerdictRight`, `PruningKeepsExecution`).
4. **Constant tracking** is right for every form of instruction and operand with one exception:
   a known value in a register that a call need not preserve (`KeepsExact`). Handing registers
   on has its exact condition too (`DataFlow.HandsOnExact`). A word that an instruction leaves
   in a register whatever the state is known, and a call or jump through that is resolved
   (`ForcedIsKnown`, `FunctionForced`). Where both hold of the function, every such execution
   goes, at every call site that the pass adds and at every target that it stores in an
   instruction, to that target (`ExecutionSiteTaken`, `ExecutionTargetTaken`).
5. **Scheduling** returns, in dependency order, exactly the passes that reach no dependency
   cycle; the phases of each pass follow one another, and no pass is started before its
   dependencies finished.
6. **Relocation** patches each field from its original value in any order of the entries, a
   field that reaches past the end of the mapping included, and moves every pointer from the
   preferred base to the actual one (`RelocationMoves`). That relocating back restores the
   memory, that a field is relocated at all, and that every write stays inside the mapping, each
   hold under an exact condition.

## Where an expected property is false of the code

The code is modelled as it is; for each property there is an input for which it fails, and the
condition under which it holds. The condition is exact with two exceptions: whether a block will
be abandoned has a necessary and a sufficient one, and whether a predecessor will be left behind
a sufficient one.

- A CALL does not end a block (`StaticControlFlowRebuilder.cpp:221-222`), and neither register
  analysis forgets what the called code may change: only registers that the instruction lists
  as written go (`AbstractInterpretationPass.cpp:181-214`, `DataFlowAnalysisPass.cpp:171-182`).
  So `xor eax,eax; call f; test eax,eax; jz L` is said always to branch, the fall-through is
  pruned, and `mov rax,0x401000; call f; call rax` is resolved, whatever `f` returns:
  `CallBreaksVerdict`, `CallLosesLiveEdge`, `CallBreaksTarget`. A call is sound in the interval
  pass if and only if every interval it leaves for an unpreserved register holds every word
  (`CallExact`), and in constant tracking if and only if no value is known in an unpreserved
  register that it does not list as written (`KeepsExact`). System calls and software
  interrupts are treated alike.
- Each block is analysed with what the block before it in the list left, not with what holds
  wherever control comes from (`AbstractInterpretationPass.cpp:46-49`,
  `DataFlowAnalysisPass.cpp:50-53`). In `ListOrderLosesLiveEdge` control jumps over a block that
  clears `eax`, the branch behind it is said always to be taken, and the edge that is executed
  is pruned; in `ListOrderBreaksTarget` it jumps over a block that loads `rax`, and `jmp rax` is
  resolved to that load. Each block of both programs is closed as the explorer closes blocks. An
  edge is safe if and only if every interval in front of the block holds all words that the one
  behind the predecessor allows, and correspondingly every known value (`HandsOnExact`, in both
  modules).
- A block that runs into a visited address, or out of the mapping, is handed over with end 0
  and no successors (`StaticControlFlowRebuilder.cpp:161-164`, `:245`), so closed blocks need
  not hold every visited instruction: `ExploreEdge` and `ExploreIntoVisited` call the explorer on
  an image for each of the two. They do if and only if no block was abandoned (`AllInClosedIs`).
  `LaidComplete` tells from the image and what was visited before: they do only if every reached
  instruction that does not end a block has a next address that is mapped, was not visited
  before, is not the entry, and is behind no other such instruction; they do if it is mapped and
  not visited before, and every way to it from the entry leads through that instruction. In
  between, where a jump from elsewhere leads there, it depends on the order of visits.
- Control that goes through an abandoned block and comes back is not in the graph, so no condition
  on blocks and edges is of help: in `AbandonedLosesLiveEdge` all of them hold, the branch is said
  always to be taken, and an execution that comes back with another value takes the edge that is
  pruned. The graph holds every way of control exactly if no block was abandoned
  (`GraphIsControl`). An indirect jump has no successors either; `DirectRunsInside` tells which
  executions leave blocks by recorded successors only.
- A function's range goes from its entry to the end of the block that was closed last
  (`StaticControlFlowRebuilder.cpp:331-335`), so it need not hold its blocks: in `ExploreBack` a
  jump leads in front of the entry. It does if and only if no closed block begins before the
  entry or ends behind the last one (`RangeExact`), that is, where no block is abandoned, no
  reached instruction does (`RangeByReach`).
- The lookup by address looks at the range that begins last only (`Module.cpp:28-37`), so where
  ranges overlap it may miss a function that holds the address: it misses none if and only if,
  wherever a range that begins inside another is over before that, a further one has begun
  (`LookupExact`).
- Interval operations lose values at wrap-around, for AND of two negative operands, and for
  most shifts by an unknown count; a MOV from a register or memory, and a XOR of different
  operands, keep an interval that may be stale, and a zero in the A, C or D register survives
  any untracked instruction that writes it (`AbstractInterpretationPass.cpp:187-193`). A count in
  a register is taken to be unknown even where the domain knows it, so whether such a shift is
  sound depends on the least count modulo 64. `ApplyExact` gives the guard.
- The verdict ignores the immediate of CMP (`AbstractInterpretationPass.cpp:230-248`), although
  the comment there announces `cmp reg, imm`. For a register known to hold v it is right if and
  only if the branch does the same for v as for v minus the immediate (`CompareVerdictExact`);
  for all v, only if the immediate is 0; `CompareWithFive` is a wrong one.
- If the branch target equals the fall-through, pruning removes both copies of the successor
  and control has none left: `PruningKeepsLiveEdge`, an equivalence, and
  `NextLosesBothEdges`, `NextLosesExecution`.
- A split leaves recorded predecessors alone (`BasicBlock.cpp:6-25`), so a block may record one
  that has no edge to it any more: `PredecessorLeftBehind`, where one jump cuts a block and a later
  one cuts it again in front of that. Then that predecessor was cut after it was recorded, and
  leads into the block at its own end (`EdgeOrCut`). None is left behind if no block has two
  starts or successors strictly inside it (`NormalizeBasicBlocks`, `LaidTidy`).
- Relocating by a distance and back restores the memory exactly if the distance is a multiple of
  2^16 or no HIGH entry has an effect, since HIGH drops the borrow: `RelocatingBack`. The check
  for four bytes (`FileLoader.cpp:188`) is made for fields of two and eight bytes as well: a
  field wholly in the mapping is relocated if and only if there are four bytes from where it
  begins (`PatchedExact`), and every write stays inside if and only if no DIR64 entry that has
  an effect begins in the last seven bytes (`StaysInsideExact`).
- In `DataFlowAnalysisPass.cpp:125-153` the branch for loads from memory stands behind another
  branch for the same mnemonic and is never taken; the model has no such case.

## How the source is read

- Addresses are natural numbers; where the source adds to an address (branch and call targets,
  RIP-relative operands) the sum is taken modulo 2^64. The mapping ends at least 15 bytes, one
  instruction, before the end of the address space.
- Signed 64-bit overflow, undefined in C++, is two's-complement wrap-around as on x86; a shift
  count is taken modulo 64, as x86 does.
- Registers do not alias: the analyses key them by name, and the machine has one 64-bit value
  per name. Instruction meaning follows the MOV, LEA, XOR, ADD, SUB, AND, SHL, SHR, TEST, CMP
  and Jcc entries of the Intel 64 and IA-32 Architectures Software Developer's Manual, Volume 2;
  a memory operand yields any value. Any other instruction may do anything to the registers it
  lists as written and nothing to others, except that behind a call, a system call or an
  interrupt every register may have changed that is not in a given set of preserved ones. Flags
  are no operands.
- Memory that is relocated is the mapping and at least four bytes behind it, since the last field
  may reach that far; what the source writes there is written in the model.
- A return leaves the function; a call, a system call or an interrupt comes back behind itself. A
  conditional branch that does not read just the zero or the sign flag may go either way.
- The decoder is an arbitrary function from an address to an instruction of 1 to 15 bytes, or to
  nothing.
- Loops over `std::set`, `std::map` and unordered containers are loops over a set in any order,
  except the opaque-predicate results, whose ascending order is kept.
- `goto reset` is a pass over the blocks that is run again until it goes through without a
  split. The two modes of `GetBasicBlockForAddress` are two methods.

## Model

| member | source | states |
|---|---|---|
| Blocks.SplitKeepsMeaning | ReWizardLib/source/Analysis/Units/BasicBlock.cpp:6-25 | any split strictly inside a block leaves the step relation between addresses and the set of covered bytes as they were, overlapping blocks included |
| Blocks.SplitKeepsSeparate | ReWizardLib/source/Analysis/Units/BasicBlock.cpp:6-25 | splitting keeps starts distinct and outside all other blocks |
| Blocks.SplitUsesOneCut | ReWizardLib/source/Analysis/Units/Function.cpp:56-74 | each split lowers by exactly one the number of pairs of a block and an entry strictly inside it: the measure of the `goto reset` loop |
| Blocks.SplitLinks | ReWizardLib/source/Analysis/Units/BasicBlock.cpp:6-25 | the first part leads to the second and to nothing else, and is the one predecessor recorded there; no other predecessor list changes |
| Blocks.ReachSameFlow | ReWizardLib/source/Analysis/Units/Function.cpp:37-78 | what preserves single steps preserves reachability, in both directions |
| Blocks.RefinesSplit | ReWizardLib/source/Analysis/Units/Function.cpp:56-74 | one more split at an entry keeps everything that a run of splits keeps: flow, bytes, the sum of blocks and open cuts, original starts in place, every block a piece of an original one |
| Blocks.RefinesShapes | ReWizardLib/source/Analysis/Units/Function.cpp:66-73 | recording predecessors keeps it too |
| Blocks.RefinesToNormalForm | ReWizardLib/source/Analysis/Units/Function.cpp:37-78 | when no entry is strictly inside a block any more: no start or successor is inside a block, the number of blocks is the old one plus the old number of cuts, and the starts are the old ones and exactly the entries that were strictly inside a block |
| ControlFlow.Lookup | ReWizardLib/source/Analysis/Units/Function.cpp:10-16 | the first block holding the address, or none |
| ControlFlow.Hit | ReWizardLib/source/Analysis/Units/Function.cpp:18-33 | the first block that starts at the address or has it strictly inside, abandoned blocks included |
| ControlFlow.LookupsAreStable | ReWizardLib/source/Analysis/Units/Function.cpp:18-33 | in normal form a splitting lookup of a start or recorded successor splits nothing; for separate blocks a covered one is the start of exactly one block, which both lookups find |
| ControlFlow.ClosedContainsReach | ReWizardLib/source/Analysis/Units/Function.cpp:99-123 | a set of blocks closed under edges contains all that its members reach |
| ControlFlow.GraphFollowsFlow | ReWizardLib/source/Analysis/Units/Function.cpp:80-124 | a path in the graph of a normal form is matched by an execution to every byte of its last block |
| ControlFlow.FlowFollowsGraph | ReWizardLib/source/Analysis/Units/Function.cpp:80-124 | an execution from the entry address is matched by a path in the graph |
| ControlFlow.GraphIsFlow | ReWizardLib/source/Analysis/Units/Function.cpp:80-124 | for separate blocks in normal form: reached in the graph from the entry block if and only if its bytes are reached from the entry address |
| ControlFlow.GraphShowsOriginalFlow | ReWizardLib/source/Analysis/Units/Function.cpp:37-124 | end to end: after normalisation the graph reaches, from the block of an original start, exactly the blocks whose bytes the original blocks reach |
| ControlFlow.SettledLookup | ReWizardLib/source/Analysis/Units/Function.cpp:58-73 | in a settled list no lookup that normalisation makes changes a block, overlapping blocks included |
| ControlFlow.NormalFormSettled | ReWizardLib/source/Analysis/Units/Function.cpp:37-78 | a normal form is settled |
| ControlFlow.SecondRunSplitsNothing | ReWizardLib/source/Analysis/Units/Function.cpp:37-78 | what comes from a normal form by splits at its own starts and successors is that normal form |
| ControlFlow.PredecessorReaches | ReWizardLib/source/Analysis/Units/Function.cpp:66-73 | a block is reached from every recorded predecessor |
| ControlFlow.EdgeOrCut | ReWizardLib/source/Analysis/Units/Function.cpp:66-73 | for separate blocks: a recorded predecessor has an edge to the block, or it was cut since, its own end is its successor, and execution runs on from there to a step to the block |
| ControlFlow.SplitTidy | ReWizardLib/source/Analysis/Units/BasicBlock.cpp:6-25 | a split keeps: every recorded predecessor has an edge and will not be cut any more, if no block has two entries strictly inside it |
| ControlFlow.AfterRecordTidy | ReWizardLib/source/Analysis/Units/Function.cpp:66-73 | so does looking up a successor and recording a block that will not be cut any more |
| ControlFlow.UncutHasNoneInside | ReWizardLib/source/Analysis/Units/Function.cpp:58-65 | a block that the first inner loop went through without a split is such a one |
| ControlFlow.AfterHitRefines | ReWizardLib/source/Analysis/Units/Function.cpp:58-65 | looking up an entry keeps what normalisation keeps and the soundness of predecessors, and uses up a cut if it splits |
| ControlFlow.AfterRecordRefines | ReWizardLib/source/Analysis/Units/Function.cpp:66-73 | so does looking up a successor and recording the predecessor there |
| ControlFlow.SplitSound | ReWizardLib/source/Analysis/Units/BasicBlock.cpp:13-22 | after a split every recorded predecessor is still the start of a block, from which execution runs on byte by byte to a step to the recording block |
| ControlFlow.WithPredSound | ReWizardLib/source/Analysis/Units/Function.cpp:71 | recording the start of a block that leads to this one in that way keeps predecessors sound |
| ControlFlow.AfterRecordSound | ReWizardLib/source/Analysis/Units/Function.cpp:66-73 | the recording step keeps predecessors sound, with or without a split |
| ControlFlow.RecordStep | ReWizardLib/source/Analysis/Units/Function.cpp:66-73 | one successor: a split makes progress, otherwise it is recorded for good and nothing recorded is lost; in a settled list it does not split |
| ControlFlow.PassedAll | ReWizardLib/source/Analysis/Units/Function.cpp:56-74 | a pass without a reset leaves predecessor lists complete, a settled list and, from separate blocks, the normal form |
| GraphSearch.SearchProgress | ReWizardLib/source/Analysis/Units/Function.cpp:91-123 | termination of the search although a block may be queued and processed many times: either a block is visited for the first time or the first unvisited one moves forward in the queue |
| GraphSearch.LinkNext | ReWizardLib/source/Analysis/Units/Function.cpp:106-121 | one successor keeps the search invariant and does not delay the first unvisited block |
| GraphSearch.LinkEnd | ReWizardLib/source/Analysis/Units/Function.cpp:106-122 | after the last successor the block may count as visited: all its edges are there |
| GraphSearch.SearchDone | ReWizardLib/source/Analysis/Units/Function.cpp:99-123 | with an empty queue the edges are exactly those that leave blocks reached from the entry |
| Functions.Without | ReWizardLib/include/ReWizard/Analysis/Units/BasicBlock.h:75-78 | no copy of the address is left, every other member is kept, nothing is added |
| Functions.BasicBlock.Split | ReWizardLib/source/Analysis/Units/BasicBlock.cpp:6-25 | the whole new state of both blocks |
| Functions.BasicBlock.RemoveSuccessor | ReWizardLib/include/ReWizard/Analysis/Units/BasicBlock.h:75-78 | all copies go, the order of the rest stays |
| Functions.BasicBlock.AddPredecessor | ReWizardLib/include/ReWizard/Analysis/Units/BasicBlock.h:67-69 | appends |
| Functions.BasicBlock.AddSuccessor | ReWizardLib/include/ReWizard/Analysis/Units/BasicBlock.h:71-73 | appends |
| Functions.Function.AddCallSite | ReWizardLib/include/ReWizard/Analysis/Units/Function.h:105-111 | the call site replaces the unresolved entry of the same instruction, others stay |
| Functions.Function.FindBasicBlock | ReWizardLib/source/Analysis/Units/Function.cpp:10-16 | refines `Lookup`, null if there is none |
| Functions.Function.GetBasicBlockForAddress | ReWizardLib/source/Analysis/Units/Function.cpp:18-33 | refines `Hit` in place: which block is split, where the new block goes, what is returned, and when the split flag is set |
| Functions.Function.LinkSuccessors | ReWizardLib/source/Analysis/Units/Function.cpp:103-122 | the loop body keeps the search invariant on the objects |
| Functions.Function.AddVertices | ReWizardLib/source/Analysis/Units/Function.cpp:81-89 | one vertex per block, mapped to its position |
| Functions.Function.Traverse | ReWizardLib/source/Analysis/Units/Function.cpp:91-123 | the edges added, as a set, are the edges between blocks that leave a block reached from the entry block |
| Functions.Function.BuildCFG | ReWizardLib/source/Analysis/Units/Function.cpp:80-124 | the graph is exact: vertices, vertex map and edges; no edges without an entry block |
| Functions.Function.CollectEntries | ReWizardLib/source/Analysis/Units/Function.cpp:38-54 | the entry set is exactly all starts and successors; the second loop adds nothing |
| Functions.Function.CutBlock | ReWizardLib/source/Analysis/Units/Function.cpp:58-65 | either one entry inside some block was split at, or no lookup of an entry strictly inside the block splits |
| Functions.Function.RecordSuccessor | ReWizardLib/source/Analysis/Units/Function.cpp:67-72 | the whole effect of one successor on the block list |
| Functions.Function.RecordSuccessors | ReWizardLib/source/Analysis/Units/Function.cpp:66-73 | progress if it split, otherwise all successors of the block are recorded |
| Functions.Function.NormalizePass | ReWizardLib/source/Analysis/Units/Function.cpp:56-74 | one pass between resets: fewer cuts if it resets, complete otherwise |
| Functions.Function.SplitAll | ReWizardLib/source/Analysis/Units/Function.cpp:56-74 | the `goto reset` fixpoint terminates, keeps flow, bytes and sound predecessors, and changes no block of a settled list |
| Functions.Function.NormalizeBasicBlocks | ReWizardLib/source/Analysis/Units/Function.cpp:37-78 | flow and bytes as before, predecessor lists complete and sound, the graph exact, and from separate blocks the normal form with exactly the expected starts; the result is settled, and normalising a settled list changes no block; no predecessor without an edge is recorded if no block had two entries strictly inside it |
| Image.ReachedStep | ReWizardLib/source/Analysis/Passes/StaticControlFlowRebuilder.cpp:154-246 | reachability extends along what an instruction leads to |
| Image.ExploredVisit | ReWizardLib/source/Analysis/Passes/StaticControlFlowRebuilder.cpp:161-184 | visiting an address keeps the exploration invariant; the first one visited is the entry |
| Image.NextUnvisited | ReWizardLib/source/Analysis/Passes/StaticControlFlowRebuilder.cpp:242-245 | where every way to the next address leads through the instruction, it was not visited before the instruction was |
| Image.ExploredAll | ReWizardLib/source/Analysis/Passes/StaticControlFlowRebuilder.cpp:154-246 | with nothing pending, visited is what it was plus exactly what is reached from the entry |
| Image.LeadsExactly | ReWizardLib/source/Analysis/Passes/StaticControlFlowRebuilder.cpp:218-325 | what an instruction leads to, by category: the address behind it, or the mapped, executable address that differs from the end of the instruction by its immediate modulo 2^64; for an unconditional jump only if it is not the first instruction and no recorded function holds that |
| Image.CallTargetIs | ReWizardLib/source/Analysis/Passes/StaticControlFlowRebuilder.cpp:258-285 | the target recorded for a call: where a direct one goes modulo 2^64, the address of the operand if no register takes part in it, and 0 otherwise |
| Image.LookupExact | ReWizardLib/source/Analysis/Units/Module.cpp:28-37 | the lookup by address finds no function without the address in its range; it finds one for every address in a range if and only if, wherever a range that begins inside another is over before that, a further one has begun |
| Image.ScanExact | ReWizardLib/source/Analysis/Passes/StaticControlFlowRebuilder.cpp:384-431 | an address of a range is a stop of the sweep if and only if it does not lie behind a stop inside an instruction that decodes there and was not visited |
| Layout.StraightNext | ReWizardLib/source/Analysis/Passes/StaticControlFlowRebuilder.cpp:242-243 | a run of consecutive instructions grows by one at its end |
| Layout.RunCovers | ReWizardLib/source/Analysis/Passes/StaticControlFlowRebuilder.cpp:158-245 | every byte of a closed block belongs to one of its instructions |
| Layout.LaidClose | ReWizardLib/source/Analysis/Passes/StaticControlFlowRebuilder.cpp:330-335 | closing a block keeps: no instruction in two blocks, branches and returns last only, nothing visited without a block unless one was abandoned |
| Layout.LaidAbandon | ReWizardLib/source/Analysis/Passes/StaticControlFlowRebuilder.cpp:161-164 | so does abandoning one |
| Layout.SuccessorsAreFollowed | ReWizardLib/source/Analysis/Passes/StaticControlFlowRebuilder.cpp:293-321 | the recorded successors are what the explorer follows and, beyond that, jumps into recorded functions; a leading jump has none |
| Layout.LaidSeparate | ReWizardLib/source/Analysis/Units/Function.cpp:37-78 | if decoded instructions do not overlap, the explorer's blocks, abandoned ones too, meet the precondition of the normal form |
| Layout.LaidWellFormed | ReWizardLib/source/Analysis/Passes/StaticControlFlowRebuilder.cpp:247 | only blocks with bytes have successors, and predecessors are sound, when normalisation begins |
| Layout.LaidTidy | ReWizardLib/source/Analysis/Units/Function.cpp:37-78 | if decoded instructions do not overlap, normalisation will leave no predecessor without an edge behind if no block has two starts or successors strictly inside it |
| Layout.InsnsNext | ReWizardLib/source/Analysis/Passes/StaticControlFlowRebuilder.cpp:242-243 | behind an instruction of a closed block comes the next one of the block, unless it is the last |
| Layout.TailClosed | ReWizardLib/source/Analysis/Units/BasicBlock.cpp:6-25 | what a split at an instruction cuts off a closed block is closed at the same last instruction with the same successors |
| Layout.PieceClosed | ReWizardLib/source/Analysis/Units/Function.cpp:37-78 | what normalisation leaves of a closed block up to its end is closed at the same last instruction with the same successors, if decoded instructions do not overlap and no successor leads into the middle of one |
| Layout.NormalisedTails | ReWizardLib/source/Analysis/Units/Function.cpp:37-78 | so every normalised block that ends where a closed block ended is closed there |
| Layout.TailExists | ReWizardLib/source/Analysis/Units/Function.cpp:37-78 | and there is one for every closed block |
| Layout.RangeExact | ReWizardLib/source/Analysis/Passes/StaticControlFlowRebuilder.cpp:330-335 | the range from the entry to the end of the block closed last holds every byte of the blocks if and only if no closed block begins before the entry or ends behind the last one |
| Layout.RangeByReach | ReWizardLib/source/Analysis/Passes/StaticControlFlowRebuilder.cpp:330-335 | where no block is abandoned, it does if and only if no instruction that is reached from the entry begins in front of it or ends behind the block closed last |
| Layout.LastEndExact | ReWizardLib/source/Analysis/Passes/StaticControlFlowRebuilder.cpp:330-335 | the end of the function is that of the last block in the list that was closed, or the entry if there is none |
| Layout.AllInClosedIs | ReWizardLib/source/Analysis/Passes/StaticControlFlowRebuilder.cpp:161-164 | closed blocks hold every visited instruction if and only if no block was abandoned |
| Layout.LaidComplete | ReWizardLib/source/Analysis/Passes/StaticControlFlowRebuilder.cpp:154-246 | from the image and the set visited before: necessary, that the next address behind every reached instruction that does not end a block is mapped, unvisited, not the entry and behind no other one; sufficient, that it is mapped and unvisited and every way to it leads through the instruction |
| ControlPaths.PlaceOf | ReWizardLib/source/Analysis/Units/Function.cpp:37-78 | where no block is abandoned, every instruction of the function belongs to a closed block and to the part of that which the lookup finds |
| ControlPaths.PartBounds | ReWizardLib/source/Analysis/Units/Function.cpp:37-78 | normalisation cuts between instructions: a part begins at one, and each of its instructions ends inside it |
| ControlPaths.PartEnds | ReWizardLib/source/Analysis/Units/Function.cpp:37-78 | and the last one ends where the part does |
| ControlPaths.GoesInGraph | ReWizardLib/source/Analysis/Units/Function.cpp:80-124 | a step of control from one instruction of the function to another is one of the graph, where no block is abandoned |
| ControlPaths.AbandonedIsLost | ReWizardLib/source/Analysis/Passes/StaticControlFlowRebuilder.cpp:161-164 | a way of control to the beginning of an abandoned block is no path of the graph |
| ControlPaths.GraphIsControl | ReWizardLib/source/Analysis/Passes/StaticControlFlowRebuilder.cpp:154-247 | for a function whose instructions do not overlap: its paths from the entry in the graph are its ways of control from there if and only if no block was abandoned |
| Descent.RunAbandons | ReWizardLib/source/Analysis/Passes/StaticControlFlowRebuilder.cpp:161-164 | running into a visited or unmapped address leaves a block with end 0 and keeps the invariant |
| Descent.RunStuck | ReWizardLib/source/Analysis/Passes/StaticControlFlowRebuilder.cpp:171-179 | where nothing decodes the block ends in front of the address |
| Descent.RunTrampoline | ReWizardLib/source/Analysis/Passes/StaticControlFlowRebuilder.cpp:190-193 | a leading unconditional jump closes a block without successors and leads nowhere |
| Descent.RunEnds | ReWizardLib/source/Analysis/Passes/StaticControlFlowRebuilder.cpp:223-240 | a branch or return closes the block with its successors; what is pushed and where the run goes on is exactly what the instruction leads to |
| Descent.RunGoesOn | ReWizardLib/source/Analysis/Passes/StaticControlFlowRebuilder.cpp:242-243 | any other instruction leads to the next address and to no other |
| Descent.RestedAll | ReWizardLib/source/Analysis/Passes/StaticControlFlowRebuilder.cpp:154-247 | with the work list empty exactly the reached addresses were added and all blocks are laid |
| Records.FiledApart | ReWizardLib/source/Analysis/Units/Module.cpp:21-26 | if visited instructions do not overlap, no byte belongs to two functions and every function is in normal form |
| Records.FileNew | ReWizardLib/source/Analysis/Passes/StaticControlFlowRebuilder.cpp:102-125 | recording an analysed function keeps: exactly one owner for each visited instruction, bytes only from own instructions, call sites right |
| Records.RecordedInRange | ReWizardLib/source/Analysis/Units/Module.cpp:28-37 | what the ordered lookup by address finds is a function whose range holds the address |
| Records.IndexNew | ReWizardLib/source/Analysis/Units/Module.cpp:21-26 | the table by start stays a table of recorded functions |
| Records.NotedNext | ReWizardLib/source/Analysis/Passes/StaticControlFlowRebuilder.cpp:218-325 | visiting an instruction keeps: the call sites are exactly those of the visited instructions, and what they call, or jump to as a function, is visited or queued |
| Records.JumpSiteAt | ReWizardLib/source/Analysis/Passes/StaticControlFlowRebuilder.cpp:293-319 | a branch is a call site if it goes through a register or memory, with 0 for a target, or is a direct jump into a recorded function, with its target, and in no other case |
| Records.NotedRight | ReWizardLib/source/Analysis/Passes/StaticControlFlowRebuilder.cpp:218-325 | in particular every call is a call site with its target, and every call site belongs to a visited instruction with its target or 0 |
| Records.TurnNext | ReWizardLib/source/Analysis/Passes/StaticControlFlowRebuilder.cpp:102-125 | recording a function keeps: every function was begun at an address that was not visited and in no recorded function, and is what the analysis in that state leaves, with exactly the reached instructions as its own |
| Records.ProcessedAccounted | ReWizardLib/source/Analysis/Passes/StaticControlFlowRebuilder.cpp:87-126 | after a function was processed every root and every known call-site target is visited, queued, inside a recorded function, or cannot be explored |
| Records.ProcessedFound | ReWizardLib/source/Analysis/Passes/StaticControlFlowRebuilder.cpp:117-124 | and the known call-site targets of the function itself are visited, queued, inside a recorded function, or unmapped or undecodable, whether they are executable or not |
| Records.FoundMore | ReWizardLib/source/Analysis/Passes/StaticControlFlowRebuilder.cpp:433-457 | the fallback, which tests no target for being executable, keeps that for all functions that it records and all that it was given |
| Records.SkippedAccounted | ReWizardLib/source/Analysis/Passes/StaticControlFlowRebuilder.cpp:88-100 | so it is after an address was skipped |
| Records.OriginsAccounted | ReWizardLib/source/Analysis/Passes/StaticControlFlowRebuilder.cpp:73-85 | so it is when accounted-for origins and a longer queue are added |
| Records.QueueGrowsNext | ReWizardLib/source/Analysis/Passes/StaticControlFlowRebuilder.cpp:221-225 | a visit lengthens the function queue by direct targets of the instruction only |
| Records.QueueGrowsTrans | ReWizardLib/source/Analysis/Passes/StaticControlFlowRebuilder.cpp:154-246 | so does a whole analysis, by targets of what it visited |
| Records.ProcessedWarranted | ReWizardLib/source/Analysis/Passes/StaticControlFlowRebuilder.cpp:87-126 | after a function was processed, everything queued and the start of every recorded function is an origin, a direct target of a visited instruction, or a recorded call-site target |
| Records.OriginsWarranted | ReWizardLib/source/Analysis/Passes/StaticControlFlowRebuilder.cpp:73-85 | so it is when origins are added and queued |
| Records.AnalysisVisits | ReWizardLib/source/Analysis/Passes/StaticControlFlowRebuilder.cpp:162-184 | an entry that can be visited is; whatever is added is mapped and decodes |
| Explorer.StaticPathExplorer.constructor | ReWizardLib/source/Analysis/Passes/StaticControlFlowRebuilder.cpp:67-71 | the empty state meets the invariants |
| Explorer.StaticPathExplorer.HandleCall | ReWizardLib/source/Analysis/Passes/StaticControlFlowRebuilder.cpp:258-285 | the call site for each operand form, and the function queued for a direct, mapped, executable, unvisited target |
| Explorer.StaticPathExplorer.BranchTargets | ReWizardLib/source/Analysis/Passes/StaticControlFlowRebuilder.cpp:293-325 | successors in order, work pushed, functions pushed and call site, as the instruction graph defines them |
| Explorer.StaticPathExplorer.CloseBlock | ReWizardLib/source/Analysis/Passes/StaticControlFlowRebuilder.cpp:330-335 | the block gets its end and goes to the end of the list, the function ends there |
| Explorer.StaticPathExplorer.HandleBranch | ReWizardLib/source/Analysis/Passes/StaticControlFlowRebuilder.cpp:287-336 | all of that for a branch, as one step |
| Explorer.StaticPathExplorer.EndBlock | ReWizardLib/source/Analysis/Passes/StaticControlFlowRebuilder.cpp:223-240 | the same for branches and returns |
| Explorer.StaticPathExplorer.HandleTrampoline | ReWizardLib/source/Analysis/Passes/StaticControlFlowRebuilder.cpp:338-372 | only an unconditional jump is a trampoline; it closes its block and records a direct target as call site |
| Explorer.StaticPathExplorer.Dispatch | ReWizardLib/source/Analysis/Passes/StaticControlFlowRebuilder.cpp:218-240 | what is done by category: call sites and queue of a call, the closed block of a branch or return, nothing for the rest |
| Explorer.StaticPathExplorer.Proceed | ReWizardLib/source/Analysis/Passes/StaticControlFlowRebuilder.cpp:218-240 | an instruction that is no trampoline, after it was visited: the run goes on behind it or is over, and the invariants of the run hold either way |
| Explorer.StaticPathExplorer.VisitInsn | ReWizardLib/source/Analysis/Passes/StaticControlFlowRebuilder.cpp:181-243 | one decoded instruction keeps the invariants of the run, is the one address visited, has exactly the call sites that it should, touches no other, and queues what it calls |
| Explorer.StaticPathExplorer.RunIsOver | ReWizardLib/source/Analysis/Passes/StaticControlFlowRebuilder.cpp:161-179 | exactly when a run ends in front of an instruction, and what becomes of the open block |
| Explorer.StaticPathExplorer.Advance | ReWizardLib/source/Analysis/Passes/StaticControlFlowRebuilder.cpp:160-244 | one round of the inner loop: fewer unvisited addresses, or an exit without any change |
| Explorer.StaticPathExplorer.FollowRun | ReWizardLib/source/Analysis/Passes/StaticControlFlowRebuilder.cpp:158-245 | a run terminates, keeps the invariants, and makes progress or changes nothing |
| Explorer.StaticPathExplorer.NextRun | ReWizardLib/source/Analysis/Passes/StaticControlFlowRebuilder.cpp:154-245 | one address of the work list: what was visited meanwhile is dropped without any change, anything else is followed |
| Explorer.StaticPathExplorer.Explore | ReWizardLib/source/Analysis/Passes/StaticControlFlowRebuilder.cpp:154-246 | visits exactly what is reached from the start through unvisited addresses, lays it out in blocks, records exactly the call sites of what it visited, and queues what that calls |
| Explorer.StaticPathExplorer.AnalyzeFunction | ReWizardLib/source/Analysis/Passes/StaticControlFlowRebuilder.cpp:131-256 | the same, with normalised blocks, sound and complete predecessors and an exact graph; the function ends where the block closed last does; and what ends where a closed block ended is closed at the same instruction; predecessors are exact if no block had two entries strictly inside it |
| Explorer.StaticPathExplorer.QueueCallSites | ReWizardLib/source/Analysis/Passes/StaticControlFlowRebuilder.cpp:118-123 | queues exactly the known targets that are mapped, unvisited and in no recorded function |
| Explorer.StaticPathExplorer.AnalyzeNew | ReWizardLib/source/Analysis/Passes/StaticControlFlowRebuilder.cpp:102-109 | a new function, fit to be recorded as the sole owner of what its analysis visited: blocks that come from those laid out, call sites, end |
| Explorer.StaticPathExplorer.ProcessFunction | ReWizardLib/source/Analysis/Passes/StaticControlFlowRebuilder.cpp:102-125 | analyses and records exactly one function, at the end; the table by start, the owners and the record of how each function came about follow; nothing is lost or made up, and none of its known call-site targets is lost for not being executable |
| Explorer.StaticPathExplorer.DrainQueue | ReWizardLib/source/Analysis/Passes/StaticControlFlowRebuilder.cpp:87-126 | the function queue runs empty for every binary, undecodable entries included; nothing is lost or made up; the explorer proper starts functions at executable addresses only, the fallback loses no target for not being executable; the first in the queue is analysed first |
| Explorer.StaticPathExplorer.SweepRange | ReWizardLib/source/Analysis/Passes/StaticControlFlowRebuilder.cpp:385-431 | queues exactly the unvisited prologues outside recorded functions among the addresses at which the sweep of a range stops |
| Explorer.StaticPathExplorer.Sweep | ReWizardLib/source/Analysis/Passes/StaticControlFlowRebuilder.cpp:379-432 | the same over all executable ranges |
| Explorer.StaticPathExplorer.SweptAccounted | ReWizardLib/source/Analysis/Passes/StaticControlFlowRebuilder.cpp:421-426 | after the sweep every prologue at a stop is accounted for |
| Explorer.StaticPathExplorer.QueueEntryPoints | ReWizardLib/source/Analysis/Passes/StaticControlFlowRebuilder.cpp:79-81 | queues exactly the entry points |
| Explorer.StaticPathExplorer.MoreOrigins | ReWizardLib/source/Analysis/Passes/StaticControlFlowRebuilder.cpp:73-85 | adding entry points, a requested address or swept prologues to the queue keeps both |
| Explorer.StaticPathExplorer.Run | ReWizardLib/source/Analysis/Passes/StaticControlFlowRebuilder.cpp:67-129 | the whole exploration terminates and keeps its invariants: every root, call-site target and swept prologue ends visited, inside a function, or cannot be explored; every recorded function starts at one of these or at a direct target. The functions that there are when the sweep begins own exactly what is visited by then, the new ones among them start at executable addresses, and the roots and all that they call are dealt with; no function starts outside the mapping; what the later ones call is explored wherever it lies |
| Instructions.MayWriteExact | ReWizardLib/source/Analysis/Passes/AbstractInterpretationPass.cpp:181-186 | a register may be written if and only if it is an operand that is hidden or marked as written |
| Machine.PrologueExact | ReWizardLib/source/Analysis/Passes/StaticControlFlowRebuilder.cpp:395-421 | an instruction is taken for a prologue if and only if it pushes the frame pointer, or is a MOV after which that holds the stack pointer whatever the state, or a SUB from the stack pointer that lowers it by a fixed distance |
| Words.WrapBetween | ReWizardLib/include/ReWizard/Analysis/Passes/AbstractInterpretationPass.h:34-42 | wrap-around is monotone between two values of one window |
| Words.AndBounded | ReWizardLib/include/ReWizard/Analysis/Passes/AbstractInterpretationPass.h:44-53 | bitwise AND is at most either operand |
| Words.AndKeepsTopBit | ReWizardLib/include/ReWizard/Analysis/Passes/AbstractInterpretationPass.h:44-53 | a common top bit is in the result |
| Words.WordAndNonNegative | ReWizardLib/include/ReWizard/Analysis/Passes/AbstractInterpretationPass.h:44-53 | AND with a non-negative word is between zero and that word |
| Words.WordAndNegative | ReWizardLib/include/ReWizard/Analysis/Passes/AbstractInterpretationPass.h:44-53 | AND of two negative words is negative |
| Words.WordBits | ReWizardLib/include/ReWizard/Analysis/Passes/AbstractInterpretationPass.h:44-53 | AND and XOR of words, bit by bit |
| Words.XorMostBounds | ReWizardLib/source/Analysis/Passes/AbstractInterpretationPass.cpp:107-115 | no exclusive or of numbers from two ranges exceeds the greatest one computed from their bounds |
| Words.XorMostAttained | ReWizardLib/source/Analysis/Passes/AbstractInterpretationPass.cpp:107-115 | and some two numbers attain it |
| Words.RankOfXor | ReWizardLib/source/Analysis/Passes/AbstractInterpretationPass.cpp:107-115 | XOR of words, in signed order, is XOR of their places with the top bit turned round |
| Intervals.JoinLeast | ReWizardLib/include/ReWizard/Analysis/Passes/AbstractInterpretationPass.h:28-32 | least upper bound, as an equivalence |
| Intervals.AddExact | ReWizardLib/include/ReWizard/Analysis/Passes/AbstractInterpretationPass.h:34-37 | sound for wrap-around addition if and only if both bounds fall into one window; both bounds are attained |
| Intervals.SubExact | ReWizardLib/include/ReWizard/Analysis/Passes/AbstractInterpretationPass.h:39-42 | the same for subtraction |
| Intervals.AndExact | ReWizardLib/include/ReWizard/Analysis/Passes/AbstractInterpretationPass.h:44-53 | sound if and only if both operands are constants or one has no negative word |
| Intervals.AndTight | ReWizardLib/include/ReWizard/Analysis/Passes/AbstractInterpretationPass.h:44-53 | constants give the constant, and any other AND exactly the words that are not negative and not above both upper bounds |
| Intervals.XorStaysExact | ReWizardLib/source/Analysis/Passes/AbstractInterpretationPass.cpp:107-115 | an interval may be kept across XOR with another if and only if the least and greatest results, by sign of the other, stay in it |
| Intervals.ShlExact | ReWizardLib/include/ReWizard/Analysis/Passes/AbstractInterpretationPass.h:62-66 | by a known count: sound if and only if the operand is a constant, or its shifted bounds fall into one window and the lower one is not negative there |
| Intervals.ShlTopExact | ReWizardLib/include/ReWizard/Analysis/Passes/AbstractInterpretationPass.h:62-66 | by an unknown count: sound only for the range {0} |
| Intervals.ShrExact | ReWizardLib/include/ReWizard/Analysis/Passes/AbstractInterpretationPass.h:68-72 | against the logical shift of SHR, by a known count: the exact condition, which includes negative constants going wrong |
| Intervals.ShrTopExact | ReWizardLib/include/ReWizard/Analysis/Passes/AbstractInterpretationPass.h:68-72 | by an unknown count: sound if and only if there are no negative words |
| Intervals.ShiftsTight | ReWizardLib/include/ReWizard/Analysis/Passes/AbstractInterpretationPass.h:62-72 | constants give a constant, for SHR the quotient of the signed word; any other shift gives exactly the words from 0 to its bound |
| Intervals.ShlByExact | ReWizardLib/include/ReWizard/Analysis/Passes/AbstractInterpretationPass.h:62-66 | shifting left by a count that the pass takes to be unknown, and that is in fact in an interval: sound if and only if the operand is a constant which the least count modulo 64 shifts out |
| Intervals.ShrByExact | ReWizardLib/include/ReWizard/Analysis/Passes/AbstractInterpretationPass.h:68-72 | the same for shifting right: no negative words, or no count is a multiple of 64 and the upper bound is not below what the least count makes of the greatest negative word |
| Intervals.ShlItselfExact | ReWizardLib/include/ReWizard/Analysis/Passes/AbstractInterpretationPass.h:62-66 | shifting a register left by itself: sound under the same condition |
| Intervals.ShrItselfExact | ReWizardLib/include/ReWizard/Analysis/Passes/AbstractInterpretationPass.h:68-72 | shifting a register right by itself: no negative words, or no negative one is a multiple of 64 and the upper bound is not below what the least word becomes |
| AbstractInterpretation.ApplyInstruction | ReWizardLib/source/Analysis/Passes/AbstractInterpretationPass.cpp:95-215 | the domain after an instruction, tracked or not: which entries change, go, or stay as kept zeros |
| AbstractInterpretation.OperandsFitExact | ReWizardLib/source/Analysis/Passes/AbstractInterpretationPass.cpp:117-178 | the guard of each operation holds if and only if the operation is sound on these intervals |
| AbstractInterpretation.OperateStrict | ReWizardLib/include/ReWizard/Analysis/Passes/AbstractInterpretationPass.h:34-72 | an operation on no words gives no words |
| AbstractInterpretation.ApplySound | ReWizardLib/source/Analysis/Passes/AbstractInterpretationPass.cpp:95-215 | under the guard, every machine step from a covered state ends in a covered state, for every instruction form |
| AbstractInterpretation.ApplyExact | ReWizardLib/source/Analysis/Passes/AbstractInterpretationPass.cpp:95-215 | for every instruction, calls included, and every domain without empty intervals: sound if and only if the guard holds |
| AbstractInterpretation.CallExact | ReWizardLib/source/Analysis/Passes/AbstractInterpretationPass.cpp:180-214 | a call or system call is sound if and only if every interval that is left for a register which need not be preserved holds every word |
| AbstractInterpretation.KnownAfter | ReWizardLib/source/Analysis/Passes/AbstractInterpretationPass.cpp:98-178 | where it is safe, an instruction that computes a word from known ones leaves it known: the one that the machine computes |
| AbstractInterpretation.UnwrittenKept | ReWizardLib/source/Analysis/Passes/AbstractInterpretationPass.cpp:180-214 | a register that the instruction does not write keeps its interval |
| AbstractInterpretation.WrittenLost | ReWizardLib/source/Analysis/Passes/AbstractInterpretationPass.cpp:180-214 | a written one loses it, unless it is a zero in the A, C or D register, or the instruction is a tracked one with another destination |
| AbstractInterpretation.KeptIsStale | ReWizardLib/source/Analysis/Passes/AbstractInterpretationPass.cpp:180-214 | any other interval that is left for a register which may change loses a state |
| AbstractInterpretation.SoundMove | ReWizardLib/source/Analysis/Passes/AbstractInterpretationPass.cpp:100-106 | a MOV from a register or memory is sound only if the interval kept for its destination encloses the source |
| AbstractInterpretation.SoundXor | ReWizardLib/source/Analysis/Passes/AbstractInterpretationPass.cpp:107-115 | a XOR of different operands is sound only if the interval kept for its destination stays under the source |
| AbstractInterpretation.KeptZeroStale | ReWizardLib/source/Analysis/Passes/AbstractInterpretationPass.cpp:187-193 | a kept zero in a register that an untracked instruction writes is always a loss |
| AbstractInterpretation.SoundShift | ReWizardLib/source/Analysis/Passes/AbstractInterpretationPass.cpp:149-178 | a shift by a register is sound only if the guard on the interval of the count holds |
| AbstractInterpretation.HandsOnExact | ReWizardLib/source/Analysis/Passes/AbstractInterpretationPass.cpp:46-49 | the domain that is handed to a block covers every state that the one behind another block covers if and only if each of its intervals encloses what the latter has for the register |
| BranchVerdicts.VerdictRight | ReWizardLib/source/Analysis/Passes/AbstractInterpretationPass.cpp:217-263 | behind TEST r, r, or CMP with an immediate that makes no difference to the branch, a verdict on JZ, JNZ, JS or JNS agrees with the machine in every covered state |
| BranchVerdicts.VerdictGiven | ReWizardLib/source/Analysis/Passes/AbstractInterpretationPass.cpp:217-263 | behind TEST r, r or CMP r, imm, with one word known for r and the branch doing the same for the register as for the difference, there is a verdict: always, if and only if every covered state there takes the branch, and never, if and only if none does |
| BranchVerdicts.CompareVerdictExact | ReWizardLib/source/Analysis/Passes/AbstractInterpretationPass.cpp:230-259 | behind CMP of a known register with an immediate, the verdict agrees with the machine in every covered state if and only if the branch does the same for the register as for the difference |
| BranchVerdicts.CompareWithZeroOnly | ReWizardLib/source/Analysis/Passes/AbstractInterpretationPass.cpp:230-259 | that holds for every value of the register if and only if the immediate is zero |
| BranchVerdicts.CompareWithFive | ReWizardLib/source/Analysis/Passes/AbstractInterpretationPass.cpp:230-259 | a concrete wrong verdict |
| BranchVerdicts.PrefixCovered | ReWizardLib/source/Analysis/Passes/AbstractInterpretationPass.cpp:59-80 | from a covered state, if every step meets the guard, the state after each prefix of a block is covered by the domain the loop has reached; called code may change what it need not preserve |
| BranchVerdicts.StaysKnown | ReWizardLib/source/Analysis/Passes/AbstractInterpretationPass.cpp:59-80 | what is known of a register stays known as long as no instruction writes it |
| BranchVerdicts.BlockVerdictRight | ReWizardLib/source/Analysis/Passes/AbstractInterpretationPass.cpp:59-80 | under the same guard each verdict that fits its comparison agrees with every execution of the block |
| BranchVerdicts.CallBreaksVerdict | ReWizardLib/source/Analysis/Passes/AbstractInterpretationPass.cpp:180-214 | a concrete block with a call and a wrong verdict; the guard fails at the call |
| BranchVerdicts.EnterVerdict | ReWizardLib/source/Analysis/Passes/AbstractInterpretationPass.cpp:67-71 | flag, address set and result map after a verdict |
| BranchVerdicts.AnalyzeBasicBlock | ReWizardLib/source/Analysis/Passes/AbstractInterpretationPass.cpp:52-83 | the resulting domain and the results entered are those of the walk that the lemmas are about; the addresses stay those of the results, and the flag tells whether there are any |
| BranchVerdicts.AnalyzeFunction | ReWizardLib/source/Analysis/Passes/AbstractInterpretationPass.cpp:39-50 | the results of all blocks, each analysed in the domain that the one before it in the list left |
| BranchVerdicts.ResultEntered | ReWizardLib/source/Analysis/Passes/AbstractInterpretationPass.cpp:66-71 | each verdict of the walk is the result at its address |
| BranchVerdicts.ResultElsewhere | ReWizardLib/source/Analysis/Passes/AbstractInterpretationPass.cpp:66-71 | at other addresses the results stay as they were |
| BranchVerdicts.OneResult | ReWizardLib/source/Analysis/Passes/AbstractInterpretationPass.cpp:39-83 | for separate blocks, one whose only conditional branch is its last instruction ends up with the verdict on it as its one result, or with none |
| BranchVerdicts.ResultGiven | ReWizardLib/source/Analysis/Passes/AbstractInterpretationPass.cpp:39-83 | a conditional branch at the end of a separate block, behind a comparison of a register for which one word is known, ends up with a result, whatever else is analysed: taken if and only if every covered state takes it |
| BranchVerdicts.SafeFunctionTours | ReWizardLib/source/Analysis/Passes/AbstractInterpretationPass.cpp:39-50 | the guards on the blocks that the entry block reaches, and on the edges between them, hold on every path of the graph from the entry |
| BranchVerdicts.TourCovered | ReWizardLib/source/Analysis/Passes/AbstractInterpretationPass.cpp:39-50 | on every path of the graph from the entry, if the guard of each step and of each edge holds, every block is entered in a state that the domain in front of it covers; nothing is assumed of the first state |
| BranchVerdicts.TourVerdictRight | ReWizardLib/source/Analysis/Passes/AbstractInterpretationPass.cpp:39-83 | and every verdict that fits its comparison agrees with what is executed |
| OpaquePredicates.PruneFunction | ReWizardLib/source/Analysis/Passes/OpaquePredicatePass.cpp:31-80 | prunes every result, rebuilds an exact graph if anything was changed, touches nothing without opaque predicates, and tells whether anything was changed |
| OpaquePredicates.RemoveDeadEdges | ReWizardLib/source/Analysis/Passes/OpaquePredicatePass.cpp:38-74 | the blocks after all results, in ascending order of address |
| OpaquePredicates.RemoveDeadEdge | ReWizardLib/source/Analysis/Passes/OpaquePredicatePass.cpp:39-73 | one result: the first block holding the address, if it has two successors, loses the dead one; it tells whether it did |
| OpaquePredicates.PrunedBlock | ReWizardLib/source/Analysis/Passes/OpaquePredicatePass.cpp:38-74 | a block with one result loses exactly what that result says, whatever is pruned elsewhere |
| OpaquePredicates.PrunedByLeast | ReWizardLib/source/Analysis/Passes/OpaquePredicatePass.cpp:38-74 | of several results in a block with two successors the one at the least address decides |
| OpaquePredicates.PrunedOther | ReWizardLib/source/Analysis/Passes/OpaquePredicatePass.cpp:38-74 | a block without a result is left alone |
| OpaquePredicates.PrunedAddsNothing | ReWizardLib/source/Analysis/Passes/OpaquePredicatePass.cpp:38-74 | pruning adds no step of control |
| OpaquePredicates.RunInsns | ReWizardLib/source/Analysis/Passes/AbstractInterpretationPass.cpp:59-80 | the walk through a block that the explorer closed sees exactly its instructions, of which only the last ends it |
| OpaquePredicates.ExploredBranch | ReWizardLib/source/Analysis/Units/Function.cpp:37-78 | each block that the explorer closed at a conditional branch with a target has, after normalisation, a block that ends in that branch with the same successors and instructions of the module, if decoded instructions do not overlap, no successor leads into the middle of one, and the module holds what was decoded |
| OpaquePredicates.BranchResult | ReWizardLib/source/Analysis/Passes/AbstractInterpretationPass.cpp:39-83 | after the pass over all blocks, one that was closed at a conditional branch has the verdict on that as its one result |
| OpaquePredicates.PruningKeepsLiveEdge | ReWizardLib/source/Analysis/Passes/OpaquePredicatePass.cpp:38-74 | with the results of the pass over all blocks and the successors the explorer recorded, for every run to the branch from a state that the domain in front of the block covers and on which the guards hold: after pruning the address executed next is a successor, and the only one, if and only if target and fall-through differ |
| OpaquePredicates.TourKeepsLiveEdge | ReWizardLib/source/Analysis/Passes/OpaquePredicatePass.cpp:38-74 | so it is at the end of every path of the graph from the entry on which the guards hold |
| OpaquePredicates.PrunedSameRanges | ReWizardLib/source/Analysis/Passes/OpaquePredicatePass.cpp:38-74 | pruning leaves the ranges of all blocks as they were |
| Executions.DirectRunsInside | ReWizardLib/source/Analysis/Passes/StaticControlFlowRebuilder.cpp:287-336 | an execution that stays in the function leaves blocks by recorded successors only, if it takes no indirect jump, executes only executable addresses, and does not jump from the entry to itself |
| Executions.ExecutionIsControlPath | ReWizardLib/source/Analysis/Passes/StaticControlFlowRebuilder.cpp:154-246 | it is a way of control from the entry |
| Executions.ExecutionIsTour | ReWizardLib/source/Analysis/Units/Function.cpp:80-124 | where no block is abandoned it is a path of the graph: the instructions of its blocks and the states of its runs are the points of the execution, one by one |
| Executions.PartInsns | ReWizardLib/source/Analysis/Passes/AbstractInterpretationPass.cpp:59-80 | the walk through a block sees its instructions, of which only the last may end it, with the successors that the explorer recorded |
| Executions.ExecutionVerdictRight | ReWizardLib/source/Analysis/Passes/AbstractInterpretationPass.cpp:39-83 | end to end: if the guards hold of the function, wherever an execution gets to an address with a result, that is a branch, and it is taken exactly if the result says so |
| Executions.PartAfterPruning | ReWizardLib/source/Analysis/Passes/OpaquePredicatePass.cpp:38-74 | the pruning by all results leaves a block without a result at its last instruction as it was, and otherwise takes the dead successor |
| Executions.PruningKeepsExecution | ReWizardLib/source/Analysis/Passes/OpaquePredicatePass.cpp:31-80 | end to end: after the pass and the pruning an execution is still a path of the graph if and only if no branch that it leaves has both a result and its fall-through for a target |
| Executions.ExecutionSiteTaken | ReWizardLib/source/Analysis/Passes/DataFlowAnalysisPass.cpp:40-79 | end to end: wherever an execution gets to an instruction for which the pass adds a call site, it goes to the target of that, if no call on the way loses a known value and every edge hands on what is known |
| Executions.ExecutionTargetTaken | ReWizardLib/source/Analysis/Passes/DataFlowAnalysisPass.cpp:40-79 | and so it is with each target that is stored in an instruction |
| DataFlow.ApplyInstruction | ReWizardLib/source/Analysis/Passes/DataFlowAnalysisPass.cpp:81-183 | the register file after an instruction: a new constant, and a written register forgotten unless its entry was made at this address |
| DataFlow.ForcedIsKnown | ReWizardLib/source/Analysis/Passes/DataFlowAnalysisPass.cpp:81-123 | a word that a MOV, LEA or XOR leaves in its register after every step, whatever the state, the memory and an unknown address, is known afterwards |
| DataFlow.UnwrittenStays | ReWizardLib/source/Analysis/Passes/DataFlowAnalysisPass.cpp:171-182 | what is known of a register that an instruction does not write stays |
| DataFlow.ApplyKeeps | ReWizardLib/source/Analysis/Passes/DataFlowAnalysisPass.cpp:81-183 | every entry stems from an instruction that defines its register, and every known value is what the machine holds; both are kept by every instruction that is no call with a known value to lose |
| DataFlow.KeepsExact | ReWizardLib/source/Analysis/Passes/DataFlowAnalysisPass.cpp:171-182 | known values stay right across an instruction if and only if it is no call, or no value is known in a register that need not be preserved and is not listed as written |
| DataFlow.HandsOnExact | ReWizardLib/source/Analysis/Passes/DataFlowAnalysisPass.cpp:50-53 | the registers handed to a block match every state that those behind another block match if and only if each value known in the former is known in the latter |
| DataFlow.CallBreaksTarget | ReWizardLib/source/Analysis/Passes/DataFlowAnalysisPass.cpp:171-182 | a concrete block with a call and a wrong target |
| DataFlow.InsnsFromCode | ReWizardLib/source/Analysis/Passes/DataFlowAnalysisPass.cpp:60-64 | the instructions of a block are those of the module at their addresses |
| DataFlow.PrefixMatches | ReWizardLib/source/Analysis/Passes/DataFlowAnalysisPass.cpp:62-76 | the register file matches the machine after each prefix of a block, if no call on the way loses a known value |
| DataFlow.ResolvedIsTaken | ReWizardLib/source/Analysis/Passes/DataFlowAnalysisPass.cpp:185-225 | under the same guard a resolved indirect call or jump goes to the resolved target in every execution |
| DataFlow.NewSitesAreTaken | ReWizardLib/source/Analysis/Passes/DataFlowAnalysisPass.cpp:62-76 | each call site that a block adds is an instruction of it with the target the machine goes to, in every run that gets there from a state which the incoming registers match and on which no call loses a known value |
| DataFlow.NewTargetsAreTaken | ReWizardLib/source/Analysis/Passes/DataFlowAnalysisPass.cpp:198-219 | and so is each target stored in an instruction |
| DataFlow.ForcedIsResolved | ReWizardLib/source/Analysis/Passes/DataFlowAnalysisPass.cpp:185-225 | an indirect call or jump through a register, into which the last instruction of the block that writes it forces a word, is resolved to that: as a call site and in the instruction; unless the word is 0 |
| DataFlow.BlockResolves | ReWizardLib/include/ReWizard/Analysis/Units/Function.h:105-111 | the analysis of a block adds known targets only, takes away the unresolved entry of each instruction that gets one, and no other call site |
| DataFlow.AnalyzeBasicBlock | ReWizardLib/source/Analysis/Passes/DataFlowAnalysisPass.cpp:56-79 | registers, call sites and targets stored in instructions after the block are those of the walk that the lemmas are about |
| DataFlow.AnalyzeFunction | ReWizardLib/source/Analysis/Passes/DataFlowAnalysisPass.cpp:40-54 | call sites and stored targets of all blocks, each analysed with the registers that the one before it in the list left |
| DataFlow.FunctionForced | ReWizardLib/source/Analysis/Passes/DataFlowAnalysisPass.cpp:40-79 | after the analysis of the whole function, a call or jump through a register that is forced in its block, which is separate from the others, has that target, whatever the other blocks are |
| DataFlow.FunctionResolves | ReWizardLib/source/Analysis/Passes/DataFlowAnalysisPass.cpp:40-79 | and no call site is gone but unresolved ones of instructions that have a known target |
| DataFlow.TourMatches | ReWizardLib/source/Analysis/Passes/DataFlowAnalysisPass.cpp:40-54 | on every path of the graph from the entry on which no call loses a known value and every edge hands on what is known, every block is entered in a state that its registers match |
| DataFlow.KeepableFunctionTours | ReWizardLib/source/Analysis/Passes/DataFlowAnalysisPass.cpp:40-54 | the guards on the blocks that the entry block reaches, and on the edges between them, hold on every path of the graph from the entry |
| DataFlow.TourResolvedTaken | ReWizardLib/source/Analysis/Passes/DataFlowAnalysisPass.cpp:62-76 | and a target that was resolved is where every such path goes from the instruction |
| DataFlow.FunctionSitesAreTaken | ReWizardLib/source/Analysis/Passes/DataFlowAnalysisPass.cpp:40-79 | each call site that the pass adds to a function is an instruction of a block, from which every such path goes to its target |
| DataFlow.FunctionTargetsAreTaken | ReWizardLib/source/Analysis/Passes/DataFlowAnalysisPass.cpp:40-79 | and so does each target that is stored in an instruction in the end, unless it was there before |
| Examples.SkippedClosed | ReWizardLib/source/Analysis/Passes/StaticControlFlowRebuilder.cpp:154-246 | the blocks of the program below are closed as the explorer closes blocks, and the module holds what is decoded |
| Examples.ListOrderLosesLiveEdge | ReWizardLib/source/Analysis/Passes/AbstractInterpretationPass.cpp:46-49 | a concrete program with a path that jumps over a block: the edge does not hand on, the branch goes the other way than its verdict says, and the edge of the graph that it takes is pruned |
| Examples.CallLosesLiveEdge | ReWizardLib/source/Analysis/Passes/OpaquePredicatePass.cpp:58-73 | a concrete program with a call where the pass and the pruning by its results remove the edge of the graph that is taken |
| Examples.NextLosesBothEdges | ReWizardLib/source/Analysis/Passes/OpaquePredicatePass.cpp:58-73 | a concrete program whose branch leads to the next instruction: both copies of the edge are pruned |
| Examples.NextCharted | ReWizardLib/source/Analysis/Passes/StaticControlFlowRebuilder.cpp:131-256 | for that program the premises of what is said of executions are met: its reached instructions, and its two blocks as exploration and normalisation leave them |
| Examples.NextLosesExecution | ReWizardLib/source/Analysis/Passes/OpaquePredicatePass.cpp:58-73 | and an execution of it, on which all guards hold, is no path of the graph after pruning |
| Examples.LoadedClosed | ReWizardLib/source/Analysis/Passes/StaticControlFlowRebuilder.cpp:154-246 | the blocks of the program below are closed as the explorer closes blocks, and the module holds what is decoded |
| Examples.ListOrderBreaksTarget | ReWizardLib/source/Analysis/Passes/DataFlowAnalysisPass.cpp:50-53 | a concrete program with a way of control that jumps over a load: the edge does not hand on, and the jump is resolved to the address loaded |
| Examples.EdgeAbandons | ReWizardLib/source/Analysis/Passes/StaticControlFlowRebuilder.cpp:163-164 | an image for which closed blocks never hold every visited instruction, since execution runs out of the mapping |
| Examples.ExploreEdge | ReWizardLib/source/Analysis/Passes/StaticControlFlowRebuilder.cpp:163-164 | the explorer called on that image |
| Examples.MetAbandons | ReWizardLib/source/Analysis/Passes/StaticControlFlowRebuilder.cpp:161 | an image for which they do not, since execution runs into an address that was visited for another function |
| Examples.ExploreIntoVisited | ReWizardLib/source/Analysis/Passes/StaticControlFlowRebuilder.cpp:161 | the explorer called on that image, for the other function first |
| Examples.LostClosed | ReWizardLib/source/Analysis/Passes/StaticControlFlowRebuilder.cpp:154-246 | the blocks of the program below are closed, and one abandoned, as the explorer does it |
| Examples.AbandonedLosesLiveEdge | ReWizardLib/source/Analysis/Passes/StaticControlFlowRebuilder.cpp:161-164 | a concrete program and an execution of it that stays inside and takes no indirect jump: all guards on blocks and edges hold, and the edge of the graph that it takes behind the abandoned block is pruned |
| Examples.BackOutside | ReWizardLib/source/Analysis/Passes/StaticControlFlowRebuilder.cpp:330-335 | an image for which a block lies in front of the entry |
| Examples.ExploreBack | ReWizardLib/source/Analysis/Passes/StaticControlFlowRebuilder.cpp:330-335 | the explorer called on that image: the range of the function does not hold its blocks |
| Examples.UncutClosed | ReWizardLib/source/Analysis/Passes/StaticControlFlowRebuilder.cpp:154-246 | the blocks of the program below are closed as the explorer closes blocks |
| Examples.PredecessorLeftBehind | ReWizardLib/source/Analysis/Units/BasicBlock.cpp:6-25 | a concrete program for which the recorded steps of normalisation end, with nothing left to split, in a recorded predecessor that has no edge to the block |
| Scheduling.EnterPass | ReWizardLib/source/Analysis/PassManager.cpp:23-31 | unregistered dependencies are passed over; repeated ones count as often as they are listed |
| Scheduling.BuildGraph | ReWizardLib/source/Analysis/PassManager.cpp:13-32 | in-degrees count registered dependencies, adjacency lists name each dependent as often |
| Scheduling.CollectRoots | ReWizardLib/source/Analysis/PassManager.cpp:34-39 | exactly the passes of in-degree 0, in any order, none twice |
| Scheduling.TakeNext | ReWizardLib/source/Analysis/PassManager.cpp:44-49 | the pass taken off the queue has all its dependencies in front of it |
| Scheduling.ReleaseOne | ReWizardLib/source/Analysis/PassManager.cpp:49-54 | telling one dependent keeps the count of open dependencies; it is queued when the count is zero, once |
| Scheduling.Release | ReWizardLib/source/Analysis/PassManager.cpp:49-54 | so for all dependents |
| Scheduling.StuckReachesCycle | ReWizardLib/source/Analysis/PassManager.cpp:57-59 | if each of a set of passes depends on one of the set, chains from them run into a cycle |
| Scheduling.OrderedReachesNoCycle | ReWizardLib/source/Analysis/PassManager.cpp:57-59 | an ordered pass reaches no cycle |
| Scheduling.MissingReachesCycle | ReWizardLib/source/Analysis/PassManager.cpp:57-59 | when the queue is empty: ordered if and only if no chain of dependencies reaches a cycle |
| Scheduling.TopologicalSort | ReWizardLib/source/Analysis/PassManager.cpp:10-62 | for every initial order of the queue: no pass twice, each behind its registered dependencies, and exactly the passes that reach no cycle |
| Scheduling.AllOrderedIffAcyclic | ReWizardLib/source/Analysis/PassManager.cpp:57-59 | the size check reports a cycle if and only if some pass reaches one |
| Scheduling.RunAll | ReWizardLib/source/Analysis/PassManager.cpp:64-83 | the phases are called in order up to the first that fails: each Run directly behind the PreRun of its pass, each PostRun directly behind the Run, each PreRun first or directly behind a PostRun, and each of these returned true; true if and only if there were passes and all phases succeeded |
| Scheduling.FollowsStaged | ReWizardLib/source/Analysis/PassManager.cpp:73-80 | that is so of every log that calls the three phases of each pass in order |
| Scheduling.DependenciesFinished | ReWizardLib/source/Analysis/PassManager.cpp:68-81 | no pass starts before every registered dependency has finished successfully |
| Relocations.ToFromBytes | ReWizardLib/source/FileLoader/FileLoader.cpp:196-215 | a little-endian field is determined by its value |
| Relocations.FromToBytes | ReWizardLib/source/FileLoader/FileLoader.cpp:196-215 | and a value that fits by its field |
| Relocations.LittleEndian | ReWizardLib/source/FileLoader/FileLoader.cpp:196-215 | the byte at offset k of a field is the one of weight 256^k |
| Relocations.PatchHigh | ReWizardLib/source/FileLoader/FileLoader.cpp:206-211 | HIGH gains bits 16 to 31 of the distance, modulo 2^16 |
| Relocations.PatchUndone | ReWizardLib/source/FileLoader/FileLoader.cpp:195-220 | the opposite distance undoes a patch if and only if it is not HIGH or the distance has no lower half |
| Relocations.ApplyAllRelocates | ReWizardLib/source/FileLoader/FileLoader.cpp:184-222 | for fields that share no byte: each is patched from its original value and no other byte changes |
| Relocations.RelocatedUnique | ReWizardLib/source/FileLoader/FileLoader.cpp:184-222 | that determines the image |
| Relocations.RelocationMoves | ReWizardLib/source/FileLoader/FileLoader.cpp:182-222 | for fields that share no byte: a field with an effect that held preferred base + x, modulo 2^64, 2^32 or 2^16 by kind, holds actual base + x afterwards; a HIGH field that held the upper half of preferred base + x modulo 2^32, where the lower half of that is zero, holds the upper half of actual base + x |
| Relocations.OrderDoesNotMatter | ReWizardLib/source/FileLoader/FileLoader.cpp:184-222 | lists with the same entries give the same image |
| Relocations.RelocatingBack | ReWizardLib/source/FileLoader/FileLoader.cpp:182-222 | relocating by the opposite distance restores every image if and only if the distance is a multiple of 2^16 or no HIGH entry has an effect |
| Relocations.Load | ReWizardLib/source/FileLoader/FileLoader.cpp:197-198 | reads a little-endian field |
| Relocations.Store | ReWizardLib/source/FileLoader/FileLoader.cpp:197-198 | writes one and nothing else |
| Relocations.StaysInsideExact | ReWizardLib/source/FileLoader/FileLoader.cpp:188-205 | writes reach at most four bytes behind the mapping, and every write stays inside it if and only if no DIR64 entry with an effect begins in its last seven bytes |
| Relocations.PatchedExact | ReWizardLib/source/FileLoader/FileLoader.cpp:188-216 | a field wholly in the mapping is relocated, whatever the bytes and the distance, if and only if there are four bytes from where it begins |
| Relocations.ApplyEntry | ReWizardLib/source/FileLoader/FileLoader.cpp:187-220 | one entry in place: the field is patched, behind the end of the mapping too, and nothing else changes; without effect if it is padding, unknown or past the end |
| Relocations.ApplyRelocations | ReWizardLib/source/FileLoader/FileLoader.cpp:177-222 | the memory after all entries, in order; unchanged at the preferred base; where fields share no byte, every pointer is moved from the preferred base to the actual one |
| Xrefs.EmplacedIndexes | ReWizardLib/source/Analysis/Units/XrefManager.cpp:8-11 | adding a new reference to set and multimap keeps the multimap an index: each member exactly once under its own key, and nothing else |
| Xrefs.ErasedIndexes | ReWizardLib/source/Analysis/Units/XrefManager.cpp:19-33 | erasing the first entry found by other side and kind removes exactly the reference itself |
| Xrefs.BucketLists | ReWizardLib/source/Analysis/Units/XrefManager.cpp:42-58 | the entries under a key are the filter of the set, each once, so counts agree |
| Xrefs.EraseOne | ReWizardLib/source/Analysis/Units/XrefManager.cpp:19-33 | the loop that looks for the entry changes only this key |
| Xrefs.XrefManager.AddXref | ReWizardLib/source/Analysis/Units/XrefManager.cpp:6-12 | the set gains the reference, the indexes agree with it, duplicates change nothing |
| Xrefs.XrefManager.RemoveXref | ReWizardLib/source/Analysis/Units/XrefManager.cpp:14-34 | the set loses it, the indexes agree, an absent one changes nothing |
| Xrefs.XrefManager.Clear | ReWizardLib/source/Analysis/Units/XrefManager.cpp:36-40 | all three are empty |
| Xrefs.XrefManager.GetXrefs | ReWizardLib/source/Analysis/Units/XrefManager.cpp:42-58 | lists exactly the references to or from the address, each once |
| Xrefs.XrefManager.GetXrefsOfKind | ReWizardLib/source/Analysis/Units/XrefManager.cpp:60-113 | the same for calls, jumps or data references |
| Xrefs.XrefManager.GetXrefCount | ReWizardLib/source/Analysis/Units/XrefManager.cpp:115-121 | their number |
| Xrefs.XrefManager.HasXrefs | ReWizardLib/source/Analysis/Units/XrefManager.cpp:123-129 | whether there are any |

## Left out

- Layout.LaidComplete: between its two conditions, where a jump from elsewhere leads to the next address behind an instruction that does not end a block, the outcome depends on the order of visits, and nothing is claimed.
- Layout.NormalisedTails: claimed where decoded instructions do not overlap and no successor leads into the middle of one; otherwise a block may be cut inside an instruction. The same holds of what is said of control paths and executions.
- Executions.PruningKeepsExecution: the function has no results from an earlier pass. Nothing is said of an execution behind a point where it has left the function other than by a call that comes back, or taken an indirect jump.
- ControlFlow.EdgeOrCut: one direction; on the list that is normalised, that no block has two entries strictly inside it is sufficient for exact predecessor lists and not necessary, since two cuts in ascending order leave none behind.
- Relocations.ApplyRelocations: the pages of entries are one list of offsets, and at least four bytes behind the mapping are taken to be there.
- Records.ProcessedAccounted: a call-site target of 0 stands for one that is not known, as in the code, so a call to address 0 is not accounted for.
- Functions keep snapshots of their blocks once recorded; call sites that constant tracking adds later are not fed back into the exploration.
- Both queues of the explorer are first in, first out, as in the source, but of the order in which work is taken up no more is stated than that the entry's block comes first in a function and that the function at the head of the queue is analysed first.
- The `reAnalyzeAll` parameter, which no caller sets, and how entry points and executable sections are found in PE and ELF files; both are parameters.
- Recording cross-references during exploration, indirect flags, marks for hybrid analysis, names of blocks and functions, addresses of last instructions, counters of stack instructions, and log output.
- `GetIndirectInstructions`, the disassembly text and the GraphViz dump of a function: walks over normalised blocks, whose lookups `LookupsAreStable` shows to split nothing.
- Sub-register aliasing (EAX inside RAX), which the analyses do not implement either.
- `Interval::Xor`, which the pass never calls.
- Lifting to LLVM, optimisation, emulation, hybrid analysis, symbol tables, the database, the command line and the user interface.
