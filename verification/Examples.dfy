/** Small programs for which an expected property fails. */
module Examples {
  import opened Blocks
  import opened ControlFlow
  import opened Options
  import opened Words
  import opened Instructions
  import opened Image
  import opened Layout
  import opened Functions
  import opened Explorer
  import Records
  import opened Machine
  import opened Tours
  import opened Intervals
  import opened AbstractInterpretation
  import opened BranchVerdicts
  import opened OpaquePredicates
  import opened ControlPaths
  import opened Executions
  import DataFlow

  /** A program as a binary: size bytes from base on, all of them executable. */
  function Program(code: Code, base: Address, size: nat): Binary {
    Binary(base, size, [(base, base + size)], (a: Address) => if a in code then Some(code[a]) else None)
  }

  function Loaded(code: Code, size: nat): Scope {
    Scope(Program(code, 0x1000, size), map[], {}, 0x1000)
  }

  lemma ProgramValid(code: Code, base: Address, size: nat)
    requires WellAddressed(code) && 0 < size && base + size + MAX_INSTRUCTION_LENGTH <= ADDRESS_SPACE
    requires forall a :: a in code ==> code[a].length <= MAX_INSTRUCTION_LENGTH
    ensures Program(code, base, size).Valid() && Sees(code, Program(code, base, size))
  {
  }

  function TestItself(a: Address, r: Register): Instruction {
    Instruction(a, 2, TEST, General, [RegOp(r, false, false), RegOp(r, false, false)])
  }

  function JumpIfZero(a: Address, distance: Word): Instruction {
    Instruction(a, 2, JZ, CondBranch, [ImmOp(distance)])
  }

  function Clear(a: Address, r: Register): Instruction {
    Instruction(a, 2, XOR, General, [RegOp(r, false, true), RegOp(r, false, false)])
  }

  function Ret(a: Address): Instruction {
    Instruction(a, 1, OTHER, Return, [])
  }

  function Nop(a: Address): Instruction {
    Instruction(a, 1, OTHER, General, [])
  }

  /** All registers are 0 but one, which is 1. */
  function OneIn(r: Register, zf: bool): State {
    State((q: Register) => if q == r then 1 else 0, zf, false)
  }

  lemma TestOne(a: Address, r: Register, zf: bool, preserved: set<Register>)
    ensures Steps(TestItself(a, r), OneIn(r, zf), OneIn(r, false), preserved)
  {
    WordAndSelf(1);
    hide WordAnd;
    assert Executes(TestItself(a, r), OneIn(r, zf), OneIn(r, false), 0, 0, preserved);
  }

  lemma TestZero(a: Address, r: Register, q: Register, zf: bool, preserved: set<Register>)
    requires q != r
    ensures Steps(TestItself(a, r), OneIn(q, zf), OneIn(q, true), preserved)
  {
    WordAndSelf(0);
    hide WordAnd;
    assert Executes(TestItself(a, r), OneIn(q, zf), OneIn(q, true), 0, 0, preserved);
  }

  lemma JumpKeeps(a: Address, distance: Word, s: State, preserved: set<Register>)
    ensures Steps(JumpIfZero(a, distance), s, s, preserved)
  {
    assert Executes(JumpIfZero(a, distance), s, s, 0, 0, preserved);
  }

  // ----- Domains handed on in the order of the list -----

  /** test ecx, ecx; jz L; xor eax, eax; ret; L: test eax, eax; jz to the beginning; ret */
  function SkippedCode(): Code {
    map[0x1000 := TestItself(0x1000, ECX), 0x1002 := JumpIfZero(0x1002, 3),
        0x1004 := Clear(0x1004, EAX), 0x1006 := Ret(0x1006),
        0x1007 := TestItself(0x1007, EAX), 0x1009 := JumpIfZero(0x1009, -0xB),
        0x100B := Ret(0x100B)]
  }

  /** Its blocks, as the explorer closes them. */
  const SKIPPED_BLOCKS: seq<Block> := [
    Block(0x1000, 0x1004, [0x1007, 0x1004], []),
    Block(0x1004, 0x1007, [], []),
    Block(0x1007, 0x100B, [0x1000, 0x100B], []),
    Block(0x100B, 0x100C, [], [])
  ]

  /** A block of one instruction, which ends it. */
  lemma OneClosed(c: Scope, last: Address, b: Block)
    requires c.bin.Decodes(last) && c.bin.decode(last).value.length > 0 && c.bin.decode(last).value.EndsBlock()
    requires b.start == last && b.end == c.bin.Next(last) && b.succs == c.SuccessorsAfter(last)
    ensures ClosedAt(c, b, last) && Insns(c.bin, b.start, b.end) == {last}
  {
    assert Straight(c.bin, last, last);
    assert Insns(c.bin, b.end, b.end) == {};
  }

  /** A block of two instructions, of which only the second one ends it. */
  lemma TwoClosed(c: Scope, lo: Address, last: Address, b: Block)
    requires c.bin.Decodes(lo) && c.bin.decode(lo).value.length > 0 && !c.bin.decode(lo).value.EndsBlock()
    requires c.bin.Decodes(last) && c.bin.decode(last).value.length > 0 && c.bin.decode(last).value.EndsBlock()
    requires last == c.bin.Next(lo)
    requires b.start == lo && b.end == c.bin.Next(last) && b.succs == c.SuccessorsAfter(last)
    ensures ClosedAt(c, b, last)
    ensures Insns(c.bin, b.start, b.end) == {lo, last}
  {
    assert Straight(c.bin, last, last) && Straight(c.bin, lo, last);
    assert Insns(c.bin, b.end, b.end) == {} && Insns(c.bin, last, b.end) == {last};
  }

  /** One more instruction in front of a closed block. */
  lemma OneInFront(c: Scope, b: Block, last: Address, lo: Address)
    requires ClosedAt(c, b, last) && c.bin.Decodes(lo) && c.bin.decode(lo).value.length > 0
    requires c.bin.Next(lo) == b.start && !c.bin.decode(lo).value.EndsBlock()
    ensures ClosedAt(c, b.(start := lo), last) && Insns(c.bin, lo, b.end) == {lo} + Insns(c.bin, b.start, b.end)
  {
    StraightBounds(c.bin, b.start, last);
  }

  /** A conditional jump whose target lies in the program. */
  lemma JumpSuccessors(c: Scope, code: Code, size: nat, a: Address, target: Address)
    requires c.bin == Program(code, 0x1000, size) && a in code && code[a].category.CondBranch? && code[a].Op(0).ImmOp?
    requires target == (a + code[a].length + code[a].Op(0).value) % ADDRESS_SPACE && 0x1000 <= target < 0x1000 + size
    ensures c.bin.CodeTarget(a) == Some(target)
    ensures c.SuccessorsAfter(a) == [target, a + code[a].length]
  {
    assert c.bin.sections[0].0 <= target < c.bin.sections[0].1;
    assert c.bin.IsExecutableAddress(target);
  }

  lemma SkippedClosed()
    ensures var c := Loaded(SkippedCode(), 0xC);
            && Sees(SkippedCode(), c.bin)
            && ClosedAt(c, SKIPPED_BLOCKS[0], 0x1002) && ClosedAt(c, SKIPPED_BLOCKS[1], 0x1006)
            && ClosedAt(c, SKIPPED_BLOCKS[2], 0x1009) && ClosedAt(c, SKIPPED_BLOCKS[3], 0x100B)
    ensures EndsInBranch(SKIPPED_BLOCKS, SkippedCode(), Loaded(SkippedCode(), 0xC), 2, 0x1009)
  {
    var code := SkippedCode();
    ProgramValid(code, 0x1000, 0xC);
    JumpSuccessors(Loaded(code, 0xC), code, 0xC, 0x1002, 0x1007);
    JumpSuccessors(Loaded(code, 0xC), code, 0xC, 0x1009, 0x1000);
    hide ClosedAt, Insns;
    TwoClosed(Loaded(code, 0xC), 0x1000, 0x1002, SKIPPED_BLOCKS[0]);
    TwoClosed(Loaded(code, 0xC), 0x1004, 0x1006, SKIPPED_BLOCKS[1]);
    TwoClosed(Loaded(code, 0xC), 0x1007, 0x1009, SKIPPED_BLOCKS[2]);
    OneClosed(Loaded(code, 0xC), 0x100B, SKIPPED_BLOCKS[3]);
  }

  lemma TwoInsns(code: Code, lo: Address, mid: Address, hi: Address)
    requires lo in code && mid in code && code[lo].length >= 1 && code[mid].length >= 1
    requires mid == lo + code[lo].length && hi == mid + code[mid].length
    ensures InsnsFrom(code, lo, hi) == [code[lo], code[mid]]
  {
    assert InsnsFrom(code, mid, hi) == [code[mid]] + InsnsFrom(code, hi, hi);
    assert InsnsFrom(code, lo, hi) == [code[lo]] + InsnsFrom(code, mid, hi);
  }

  lemma SkippedInsns()
    ensures var code := SkippedCode();
            && InsnsOf(code, SKIPPED_BLOCKS[0]) == [code[0x1000], code[0x1002]]
            && InsnsOf(code, SKIPPED_BLOCKS[1]) == [code[0x1004], code[0x1006]]
            && InsnsOf(code, SKIPPED_BLOCKS[2]) == [code[0x1007], code[0x1009]]
  {
    TwoInsns(SkippedCode(), 0x1000, 0x1002, 0x1004);
    TwoInsns(SkippedCode(), 0x1004, 0x1006, 0x1007);
    TwoInsns(SkippedCode(), 0x1007, 0x1009, 0x100B);
  }

  lemma DomainAfterTwo(d: Domain, i: Instruction, j: Instruction)
    ensures DomainAfter(d, [i, j]) == Applied(j, Applied(i, d)) && DomainAfter(d, [i]) == Applied(i, d)
  {
    assert [i, j][..1] == [i] && [i][..0] == [];
    assert DomainAfter(d, []) == d;
  }

  /** The third block is analysed with the zero that the second one left. */
  lemma SkippedDomains()
    ensures DomainBefore(SKIPPED_BLOCKS, SkippedCode(), 1) == map[]
    ensures DomainBefore(SKIPPED_BLOCKS, SkippedCode(), 2) == map[EAX := Constant(0)]
  {
    var code := SkippedCode();
    SkippedInsns();
    assert DomainBefore(SKIPPED_BLOCKS, code, 0) == map[];
    DomainAfterTwo(map[], code[0x1000], code[0x1002]);
    assert Applied(code[0x1002], Applied(code[0x1000], map[])) == map[];
    DomainAfterTwo(map[], code[0x1004], code[0x1006]);
    assert !code[0x1006].MayWrite(EAX);
    assert Applied(code[0x1006], Applied(code[0x1004], map[])) == map[EAX := Constant(0)];
  }

  /** The tour that jumps over the second block, with 1 in eax. */
  function SkippingTour(): Tour {
    Tour([0, 2], [[OneIn(EAX, false), OneIn(EAX, true), OneIn(EAX, true)],
                  [OneIn(EAX, true), OneIn(EAX, false), OneIn(EAX, false)]])
  }

  lemma TwoSteps(i: Instruction, j: Instruction, s: State, t: State, u: State, preserved: set<Register>)
    requires Steps(i, s, t, preserved) && Steps(j, t, u, preserved)
    ensures IsRun([i, j], [s, t, u], preserved)
  {
    hide Steps;
  }

  lemma SkippingRuns(preserved: set<Register>)
    ensures RunsThrough(SKIPPED_BLOCKS, SkippedCode(), SkippingTour(), preserved, 0)
    ensures RunsThrough(SKIPPED_BLOCKS, SkippedCode(), SkippingTour(), preserved, 1)
  {
    var code := SkippedCode();
    SkippedInsns();
    TestZero(0x1000, ECX, EAX, false, preserved);
    JumpKeeps(0x1002, 3, OneIn(EAX, true), preserved);
    TestOne(0x1007, EAX, true, preserved);
    JumpKeeps(0x1009, -0xB, OneIn(EAX, false), preserved);
    hide Steps, IsRun, InsnsOf;
    TwoSteps(code[0x1000], code[0x1002], OneIn(EAX, false), OneIn(EAX, true), OneIn(EAX, true), preserved);
    TwoSteps(code[0x1007], code[0x1009], OneIn(EAX, true), OneIn(EAX, false), OneIn(EAX, false), preserved);
  }

  lemma SkippingIsTour(preserved: set<Register>)
    ensures IsTour(SKIPPED_BLOCKS, SkippedCode(), SkippingTour(), preserved) && Edge(SKIPPED_BLOCKS, 0, 2)
  {
    SkippingRuns(preserved);
    hide RunsThrough;
    assert Lookup(SKIPPED_BLOCKS, 0x1007) == 2;
    assert GoesOn(SKIPPED_BLOCKS, SkippedCode(), SkippingTour(), 0);
  }

  lemma SkippedVerdict()
    ensures var bs, code := SKIPPED_BLOCKS, SkippedCode();
            VerdictAt(DomainBefore(bs, code, 2), InsnsOf(code, bs[2]), 1).AlwaysTrue?
  {
    var code := SkippedCode();
    SkippedInsns();
    SkippedDomains();
    hide DomainBefore, InsnsOf;
    DomainAfterTwo(map[EAX := Constant(0)], code[0x1007], code[0x1009]);
    assert [code[0x1007], code[0x1009]][..1] == [code[0x1007]];
  }

  lemma SkippedHandOver()
    ensures !HandsOnTo(SKIPPED_BLOCKS, SkippedCode(), 0, 2)
  {
    SkippedDomains();
    hide DomainBefore;
    assert EAX in map[EAX := Constant(0)];
  }

  /** The blocks after the interval pass went through them and the dead edges were removed. */
  ghost function AfterPruning(bs: seq<Block>, code: Code): seq<Block> {
    var results := FunctionResults(bs, code, |bs|, map[]);
    Pruned(bs, results.Keys, results)
  }

  /** Behind a branch that is said always to be taken, the fall-through is pruned. */
  lemma TakenIsKept(bs: seq<Block>, code: Code, c: Scope, k: nat, last: Address)
    requires EndsInBranch(bs, code, c, k, last) && c.bin.CodeTarget(last).value != c.bin.Next(last)
    requires InsnsOf(code, bs[k]) != []
    requires VerdictAt(DomainBefore(bs, code, k), InsnsOf(code, bs[k]), |InsnsOf(code, bs[k])| - 1).AlwaysTrue?
    ensures |AfterPruning(bs, code)| == |bs| && AfterPruning(bs, code)[k].succs == [c.bin.CodeTarget(last).value]
  {
    BranchBlock(bs, code, c, k, last);
    BranchResult(bs, code, c, k, last);
    hide VerdictAt, FunctionResults, Pruned, PruneSuccessors, EndsInBranch;
    var results := FunctionResults(bs, code, |bs|, map[]);
    PrunedBlock(bs, results.Keys, results, k, last);
    OneIsLeft(c.bin.CodeTarget(last).value, c.bin.Next(last), true);
  }

  /** Where the target is all that pruning leaves, the edge to the block at the fall-through is lost. */
  lemma EdgeIsLost(bs: seq<Block>, code: Code, k: nat, j: nat, fallThrough: Address, target: Address)
    requires k < |bs| && j < |bs| && bs[k].succs == [target, fallThrough]
    requires Lookup(bs, fallThrough) == j && Lookup(bs, target) != j
    requires |AfterPruning(bs, code)| == |bs| && AfterPruning(bs, code)[k].succs == [target]
    ensures Edge(bs, k, j) && !Edge(AfterPruning(bs, code), k, j)
  {
    var results := FunctionResults(bs, code, |bs|, map[]);
    hide FunctionResults, Pruned;
    PrunedSameRanges(bs, results.Keys, results);
    LookupSameRanges(bs, AfterPruning(bs, code), target);
    assert bs[k].succs[1] == fallThrough;
  }

  lemma SkippedPruned()
    ensures Edge(SKIPPED_BLOCKS, 2, 3) && !Edge(AfterPruning(SKIPPED_BLOCKS, SkippedCode()), 2, 3)
  {
    hide EndsInBranch, AfterPruning, VerdictAt, DomainBefore, InsnsOf, ClosedAt, Sees;
    SkippedClosed();
    SkippedInsns();
    SkippedVerdict();
    JumpSuccessors(Loaded(SkippedCode(), 0xC), SkippedCode(), 0xC, 0x1009, 0x1000);
    TakenIsKept(SKIPPED_BLOCKS, SkippedCode(), Loaded(SkippedCode(), 0xC), 2, 0x1009);
    EdgeIsLost(SKIPPED_BLOCKS, SkippedCode(), 2, 3, 0x100B, 0x1000);
  }

  /** The domain that block 0 leaves does not hand on to what block 2 is analysed in. Its branch is
      said always to be taken, the edge behind it is pruned, and the tour goes there. */
  lemma ListOrderLosesLiveEdge(preserved: set<Register>)
    ensures var bs, code, t := SKIPPED_BLOCKS, SkippedCode(), SkippingTour();
            && IsTour(bs, code, t, preserved) && !HandsOnTo(bs, code, 0, 2)
            && !Taken(JZ, t.runs[1][1]) && Edge(bs, 2, 3) && !Edge(AfterPruning(bs, code), 2, 3)
  {
    SkippedHandOver();
    SkippingIsTour(preserved);
    hide IsTour, AfterPruning, HandsOnTo, Edge;
    SkippedPruned();
  }

  // ----- A call in between -----

  function CallCode(): Code {
    map[0x1000 := CALL_BLOCK[0], 0x1002 := CALL_BLOCK[1], 0x1007 := CALL_BLOCK[2], 0x1009 := CALL_BLOCK[3],
        0x100B := Ret(0x100B)]
  }

  const CALL_BLOCKS: seq<Block> := [Block(0x1000, 0x100B, [0x102B, 0x100B], []), Block(0x100B, 0x100C, [], [])]

  lemma CallInsns()
    ensures InsnsOf(CallCode(), CALL_BLOCKS[0]) == CALL_BLOCK
  {
    var code := CallCode();
    TwoInsns(code, 0x1007, 0x1009, 0x100B);
    assert InsnsFrom(code, 0x1002, 0x100B) == [CALL_BLOCK[1]] + InsnsFrom(code, 0x1007, 0x100B);
    assert InsnsFrom(code, 0x1000, 0x100B) == [CALL_BLOCK[0]] + InsnsFrom(code, 0x1002, 0x100B);
  }

  lemma CallTour(preserved: set<Register>)
    requires EAX !in preserved
    ensures IsTour(CALL_BLOCKS, CallCode(), Tour([0], [CallStates()]), preserved)
    ensures VerdictAt(DomainBefore(CALL_BLOCKS, CallCode(), 0), InsnsOf(CallCode(), CALL_BLOCKS[0]), 3).AlwaysTrue?
  {
    CallInsns();
    CallBreaksVerdict(preserved);
    hide IsRun, VerdictAt, InsnsOf;
    assert RunsThrough(CALL_BLOCKS, CallCode(), Tour([0], [CallStates()]), preserved, 0);
    assert DomainBefore(CALL_BLOCKS, CallCode(), 0) == map[];
  }

  lemma CallEnds()
    ensures EndsInBranch(CALL_BLOCKS, CallCode(), Loaded(CallCode(), 0x100), 0, 0x1009)
  {
    var code, c := CallCode(), Loaded(CallCode(), 0x100);
    ProgramValid(code, 0x1000, 0x100);
    JumpSuccessors(Loaded(code, 0x100), code, 0x100, 0x1009, 0x102B);
    var b := CALL_BLOCKS[0];
    hide ClosedAt, Insns;
    TwoClosed(Loaded(code, 0x100), 0x1007, 0x1009, b.(start := 0x1007));
    OneInFront(c, b.(start := 0x1007), 0x1009, 0x1002);
    OneInFront(c, b.(start := 0x1002), 0x1009, 0x1000);
  }

  lemma CallPruned(preserved: set<Register>)
    requires EAX !in preserved
    ensures Edge(CALL_BLOCKS, 0, 1) && !Edge(AfterPruning(CALL_BLOCKS, CallCode()), 0, 1)
  {
    CallInsns();
    CallEnds();
    CallTour(preserved);
    JumpSuccessors(Loaded(CallCode(), 0x100), CallCode(), 0x100, 0x1009, 0x102B);
    hide EndsInBranch, AfterPruning, VerdictAt, DomainBefore, InsnsOf, IsRun, IsTour, Edge, ClosedAt, Executes;
    TakenIsKept(CALL_BLOCKS, CallCode(), Loaded(CallCode(), 0x100), 0, 0x1009);
    EdgeIsLost(CALL_BLOCKS, CallCode(), 0, 1, 0x100B, 0x102B);
  }

  /** Across a call the live edge is lost: the pass says that the branch is always taken and prunes
      the fall-through, where the tour goes on in which the called function returns 1. */
  lemma CallLosesLiveEdge(preserved: set<Register>)
    requires EAX !in preserved
    ensures var bs, code, t, c := CALL_BLOCKS, CallCode(), Tour([0], [CallStates()]), Loaded(CallCode(), 0x100);
            && EndsInBranch(bs, code, c, 0, 0x1009) && IsTour(bs, code, t, preserved)
            && !Taken(JZ, t.runs[0][3]) && Edge(bs, 0, 1) && !Edge(AfterPruning(bs, code), 0, 1)
  {
    CallEnds();
    CallTour(preserved);
    hide EndsInBranch, AfterPruning, IsTour, Edge;
    CallPruned(preserved);
  }

  // ----- A jump to the next instruction -----

  /** xor eax, eax; test eax, eax; jz to the next instruction; ret */
  function NextCode(): Code {
    map[0x1000 := Clear(0x1000, EAX), 0x1002 := TestItself(0x1002, EAX), 0x1004 := JumpIfZero(0x1004, 0),
        0x1006 := Ret(0x1006)]
  }

  const NEXT_BLOCKS: seq<Block> := [Block(0x1000, 0x1006, [0x1006, 0x1006], []), Block(0x1006, 0x1007, [], [])]

  lemma NextEnds()
    ensures EndsInBranch(NEXT_BLOCKS, NextCode(), Loaded(NextCode(), 0x10), 0, 0x1004)
    ensures InsnsOf(NextCode(), NEXT_BLOCKS[0]) == [NextCode()[0x1000], NextCode()[0x1002], NextCode()[0x1004]]
  {
    var code, c, b := NextCode(), Loaded(NextCode(), 0x10), NEXT_BLOCKS[0];
    ProgramValid(code, 0x1000, 0x10);
    JumpSuccessors(Loaded(code, 0x10), code, 0x10, 0x1004, 0x1006);
    TwoInsns(code, 0x1002, 0x1004, 0x1006);
    assert InsnsFrom(code, 0x1000, 0x1006) == [code[0x1000]] + InsnsFrom(code, 0x1002, 0x1006);
    hide ClosedAt, Insns, InsnsFrom;
    TwoClosed(Loaded(code, 0x10), 0x1002, 0x1004, b.(start := 0x1002));
    OneInFront(c, b.(start := 0x1002), 0x1004, 0x1000);
  }

  lemma NextVerdict()
    ensures VerdictAt(map[], InsnsOf(NextCode(), NEXT_BLOCKS[0]), 2).AlwaysTrue?
  {
    var code := NextCode();
    NextEnds();
    hide InsnsOf;
    var insns := [code[0x1000], code[0x1002], code[0x1004]];
    assert insns[..2] == [code[0x1000], code[0x1002]];
    DomainAfterTwo(map[], code[0x1000], code[0x1002]);
    assert Applied(code[0x1002], Applied(code[0x1000], map[])) == map[EAX := Constant(0)];
  }

  /** When the target is the next instruction, pruning the dead edge takes the live one along. */
  lemma NextLosesBothEdges()
    ensures var bs, code, c := NEXT_BLOCKS, NextCode(), Loaded(NextCode(), 0x10);
            && EndsInBranch(bs, code, c, 0, 0x1004) && Edge(bs, 0, 1)
            && |AfterPruning(bs, code)| == |bs| && AfterPruning(bs, code)[0].succs == []
  {
    var bs, code, c := NEXT_BLOCKS, NextCode(), Loaded(NextCode(), 0x10);
    assert Lookup(bs, 0x1006) == 1;
    NextEnds();
    NextVerdict();
    JumpSuccessors(Loaded(code, 0x10), code, 0x10, 0x1004, 0x1006);
    assert DomainBefore(bs, code, 0) == map[];
    hide EndsInBranch, FunctionResults, Pruned, VerdictAt, DomainBefore, InsnsOf, PruneSuccessors;
    BranchResult(bs, code, c, 0, 0x1004);
    var results := FunctionResults(bs, code, |bs|, map[]);
    PrunedBlock(bs, results.Keys, results, 0, 0x1004);
    OneIsLeft(0x1006, 0x1006, true);
  }

  // ----- Registers handed on in the order of the list -----

  /** test ecx, ecx; jz L; mov rax, 0x401000; ret; L: jmp rax */
  function LoadedCode(): Code {
    map[0x1000 := TestItself(0x1000, ECX), 0x1002 := JumpIfZero(0x1002, 8),
        0x1004 := Instruction(0x1004, 7, MOV, General, [RegOp(RAX, false, true), ImmOp(0x401000)]),
        0x100B := Ret(0x100B),
        0x100C := Instruction(0x100C, 2, OTHER, UncondBranch, [RegOp(RAX, false, false)])]
  }

  const LOADED_BLOCKS: seq<Block> := [
    Block(0x1000, 0x1004, [0x100C, 0x1004], []),
    Block(0x1004, 0x100C, [], []),
    Block(0x100C, 0x100E, [], [])
  ]

  lemma LoadedClosed()
    ensures var c := Loaded(LoadedCode(), 0xE);
            && Sees(LoadedCode(), c.bin)
            && ClosedAt(c, LOADED_BLOCKS[0], 0x1002) && ClosedAt(c, LOADED_BLOCKS[1], 0x100B)
            && ClosedAt(c, LOADED_BLOCKS[2], 0x100C)
  {
    var code, c := LoadedCode(), Loaded(LoadedCode(), 0xE);
    ProgramValid(code, 0x1000, 0xE);
    JumpSuccessors(Loaded(code, 0xE), code, 0xE, 0x1002, 0x100C);
    assert ClosedAt(c, LOADED_BLOCKS[2], 0x100C) by {
      assert Straight(c.bin, 0x100C, 0x100C);
    }
    hide ClosedAt, Insns;
    TwoClosed(Loaded(code, 0xE), 0x1000, 0x1002, LOADED_BLOCKS[0]);
    TwoClosed(Loaded(code, 0xE), 0x1004, 0x100B, LOADED_BLOCKS[1]);
  }

  lemma LoadedInsns()
    ensures var code := LoadedCode();
            && InsnsOf(code, LOADED_BLOCKS[0]) == [code[0x1000], code[0x1002]]
            && InsnsOf(code, LOADED_BLOCKS[1]) == [code[0x1004], code[0x100B]]
            && InsnsOf(code, LOADED_BLOCKS[2]) == [code[0x100C]]
  {
    var code := LoadedCode();
    TwoInsns(code, 0x1000, 0x1002, 0x1004);
    TwoInsns(code, 0x1004, 0x100B, 0x100C);
    assert InsnsFrom(code, 0x100C, 0x100E) == [code[0x100C]] + InsnsFrom(code, 0x100E, 0x100E);
  }

  lemma RegistersAfterTwo(regs: DataFlow.RegisterFile, i: Instruction, j: Instruction)
    ensures DataFlow.RegistersAfter(regs, [i, j]) == DataFlow.Applied(j, DataFlow.Applied(i, regs))
  {
    assert [i, j][..1] == [i] && [i][..0] == [];
    assert DataFlow.RegistersAfter(regs, []) == regs;
    assert DataFlow.RegistersAfter(regs, [i]) == DataFlow.Applied(i, regs);
  }

  lemma LoadedRegisters()
    ensures DataFlow.RegistersBefore(LOADED_BLOCKS, LoadedCode(), 1) == map[]
    ensures DataFlow.RegistersBefore(LOADED_BLOCKS, LoadedCode(), 2) ==
            map[RAX := DataFlow.RegisterState(0x1004, 0x401000, true)]
  {
    var code := LoadedCode();
    LoadedInsns();
    assert DataFlow.RegistersBefore(LOADED_BLOCKS, code, 0) == map[];
    RegistersAfterTwo(map[], code[0x1000], code[0x1002]);
    assert DataFlow.Applied(code[0x1002], DataFlow.Applied(code[0x1000], map[])) == map[];
    RegistersAfterTwo(map[], code[0x1004], code[0x100B]);
    assert DataFlow.Applied(code[0x1004], map[]) == map[RAX := DataFlow.RegisterState(0x1004, 0x401000, true)];
    assert !code[0x100B].MayWrite(RAX);
  }

  /** The tour that jumps over the load, with 1 in rax. */
  function UnloadedTour(): Tour {
    Tour([0, 2], [[OneIn(RAX, false), OneIn(RAX, true), OneIn(RAX, true)], [OneIn(RAX, true), OneIn(RAX, true)]])
  }

  lemma UnloadedRuns(preserved: set<Register>)
    ensures RunsThrough(LOADED_BLOCKS, LoadedCode(), UnloadedTour(), preserved, 0)
    ensures RunsThrough(LOADED_BLOCKS, LoadedCode(), UnloadedTour(), preserved, 1)
  {
    var code := LoadedCode();
    LoadedInsns();
    TestZero(0x1000, ECX, RAX, false, preserved);
    JumpKeeps(0x1002, 8, OneIn(RAX, true), preserved);
    assert Executes(code[0x100C], OneIn(RAX, true), OneIn(RAX, true), 0, 0, preserved);
    assert Steps(code[0x100C], OneIn(RAX, true), OneIn(RAX, true), preserved);
    hide Steps, InsnsOf;
    TwoSteps(code[0x1000], code[0x1002], OneIn(RAX, false), OneIn(RAX, true), OneIn(RAX, true), preserved);
  }

  lemma UnloadedIsTour(preserved: set<Register>)
    ensures IsTour(LOADED_BLOCKS, LoadedCode(), UnloadedTour(), preserved)
  {
    UnloadedRuns(preserved);
    hide RunsThrough;
    assert Lookup(LOADED_BLOCKS, 0x100C) == 2;
    assert Edge(LOADED_BLOCKS, 0, 2) && GoesOn(LOADED_BLOCKS, LoadedCode(), UnloadedTour(), 0);
  }

  lemma LoadedHandOver()
    ensures !DataFlow.HandsOnTo(LOADED_BLOCKS, LoadedCode(), 0, 2)
  {
    LoadedRegisters();
    hide DataFlow.RegistersBefore;
    assert RAX in map[RAX := DataFlow.RegisterState(0x1004, 0x401000, true)];
  }

  lemma LoadedSite()
    ensures (0x100C, 0x401000) in DataFlow.FunctionSites(LOADED_BLOCKS, LoadedCode(), |LOADED_BLOCKS|, {})
  {
    var bs, code := LOADED_BLOCKS, LoadedCode();
    LoadedInsns();
    LoadedRegisters();
    hide DataFlow.RegistersBefore, InsnsOf;
    assert [code[0x100C]][..0] == [];
    var sites := DataFlow.FunctionSites(bs, code, 2, {});
    assert DataFlow.RegistersAfter(DataFlow.RegistersBefore(bs, code, 2), []) == DataFlow.RegistersBefore(bs, code, 2);
    assert DataFlow.SitesAfter(DataFlow.RegistersBefore(bs, code, 2), [code[0x100C]], 1, sites) ==
           sites - {(0x100C, 0)} + {(0x100C, 0x401000)};
  }

  /** Block 0 does not hand on what block 2 is analysed with: the jump is resolved to the address
      that was loaded in a block which the tour does not go through. */
  lemma ListOrderBreaksTarget(preserved: set<Register>)
    ensures var bs, code, t := LOADED_BLOCKS, LoadedCode(), UnloadedTour();
            && IsTour(bs, code, t, preserved) && !DataFlow.HandsOnTo(bs, code, 0, 2)
            && (0x100C, 0x401000) in DataFlow.FunctionSites(bs, code, |bs|, {})
            && t.runs[1][0].regs(RAX) == 1
  {
    hide IsTour, DataFlow.HandsOnTo, DataFlow.FunctionSites;
    UnloadedIsTour(preserved);
    LoadedHandOver();
    LoadedSite();
  }

  // ----- Blocks that are abandoned -----

  /** One mapped byte, which is an instruction that does not end a block. */
  function EdgeScope(): Scope {
    Loaded(map[0x1000 := Nop(0x1000)], 1)
  }

  lemma EdgeAbandons(visited: set<Address>, bs: seq<Block>)
    requires Laid(EdgeScope(), visited, bs, {}) && VisitedReached(EdgeScope(), visited)
    ensures !AllInClosed(EdgeScope(), visited, bs)
  {
    var c := EdgeScope();
    ProgramValid(map[0x1000 := Nop(0x1000)], 0x1000, 1);
    assert c.Open(0x1000);
    ReachedEntry(c);
    assert c.bin.Next(0x1000) == 0x1001 && !c.bin.decode(0x1000).value.EndsBlock();
    hide Laid, AllInClosed;
    LaidComplete(c, visited, bs);
  }

  /** One call of the explorer, and what the lemmas here take from its contract. */
  method Analyse(explorer: StaticPathExplorer, entry: Address) returns (fn: Function, ghost raw: seq<Block>)
    requires explorer.bin.Valid() && forall x :: x in explorer.visited ==> explorer.bin.Decodes(x)
    modifies explorer`visited, explorer`functionWork
    ensures fn.Valid() && Refines(raw, fn.Views(), EntrySet(raw))
    ensures fn.startAddress == entry && fn.endAddress == LastEnd(entry, raw)
    ensures var c := Scope(explorer.bin, explorer.functionByStart, old(explorer.visited), entry);
            Laid(c, explorer.visited, raw, {}) && VisitedReached(c, explorer.visited)
  {
    hide Laid, Refines, EntrySet, LastEnd, Normalised, PredsComplete, PredsSound, WellFormed, NoOverlap;
    hide EntriesAmong, TailsClosed, Records.SitesRight, Records.QueueGrows, Unvisited, Function.GraphExact;
    fn := new Function(entry);
    raw := explorer.AnalyzeFunction(fn, entry);
  }

  /** The explorer runs past the end of the mapping and leaves the block open. */
  method ExploreEdge() returns (fn: Function, ghost visited: set<Address>, ghost raw: seq<Block>)
    ensures fn.Valid() && Refines(raw, fn.Views(), EntrySet(raw))
    ensures VisitedReached(EdgeScope(), visited) && !AllInClosed(EdgeScope(), visited, raw)
  {
    hide Laid, AllInClosed, Refines, EntrySet, LastEnd, VisitedReached;
    ProgramValid(map[0x1000 := Nop(0x1000)], 0x1000, 1);
    var explorer := new StaticPathExplorer(EdgeScope().bin);
    fn, raw := Analyse(explorer, 0x1000);
    visited := explorer.visited;
    EdgeAbandons(visited, raw);
  }

  /** Two mapped bytes, of which the second one belongs to a function that was analysed before. */
  function MetCode(): Code {
    map[0x1000 := Nop(0x1000), 0x1001 := Nop(0x1001)]
  }

  function MetScope(before: set<Address>, entry: Address): Scope {
    Scope(Program(MetCode(), 0x1000, 2), map[], before, entry)
  }

  lemma MetFirst(visited: set<Address>)
    requires VisitedReached(MetScope({}, 0x1001), visited)
    ensures visited == {0x1001}
  {
    var c := MetScope({}, 0x1001);
    assert c.Open(0x1001);
    ReachedEntry(c);
    assert forall y :: c.Leads(0x1001, y) ==> !c.Open(y);
    forall x | c.Reached(x) ensures x == 0x1001 {
      var p :| c.IsTrail(p, x);
      TrailGoesOn(c, p, x);
    }
  }

  lemma MetAbandons(visited: set<Address>, bs: seq<Block>)
    requires Laid(MetScope({0x1001}, 0x1000), visited, bs, {}) && VisitedReached(MetScope({0x1001}, 0x1000), visited)
    ensures !AllInClosed(MetScope({0x1001}, 0x1000), visited, bs)
  {
    var c := MetScope({0x1001}, 0x1000);
    assert c.Open(0x1000);
    ReachedEntry(c);
    assert c.bin.Next(0x1000) == 0x1001 && !c.bin.decode(0x1000).value.EndsBlock();
    hide Laid, AllInClosed;
    LaidComplete(c, visited, bs);
  }

  /** The explorer runs into what it visited for another function and leaves the block open. */
  method ExploreIntoVisited() returns (fn: Function, ghost visited: set<Address>, ghost raw: seq<Block>)
    ensures fn.Valid() && Refines(raw, fn.Views(), EntrySet(raw))
    ensures VisitedReached(MetScope({0x1001}, 0x1000), visited)
    ensures !AllInClosed(MetScope({0x1001}, 0x1000), visited, raw)
  {
    ProgramValid(MetCode(), 0x1000, 2);
    hide Laid, AllInClosed, Refines, EntrySet, LastEnd, VisitedReached;
    var explorer := new StaticPathExplorer(Program(MetCode(), 0x1000, 2));
    var other, otherRaw := Analyse(explorer, 0x1001);
    MetFirst(explorer.visited);
    fn, raw := Analyse(explorer, 0x1000);
    visited := explorer.visited;
    MetAbandons(visited, raw);
  }

  // ----- A function whose range does not hold its blocks -----

  /** ret; a gap; the entry, jz to the beginning; ret */
  function BackCode(): Code {
    map[0x1000 := Ret(0x1000), 0x1002 := JumpIfZero(0x1002, -4), 0x1004 := Ret(0x1004)]
  }

  function BackScope(): Scope {
    Scope(Program(BackCode(), 0x1000, 5), map[], {}, 0x1002)
  }

  lemma BackReached()
    ensures BackScope().Reached(0x1000)
  {
    var c := BackScope();
    assert c.Open(0x1002) && c.Open(0x1000);
    ReachedEntry(c);
    assert c.bin.sections[0].0 <= 0x1000 < c.bin.sections[0].1;
    assert c.Leads(0x1002, 0x1000);
    ReachedStep(c, 0x1002, 0x1000);
  }

  lemma LaidBlock(c: Scope, visited: set<Address>, raw: seq<Block>, i: nat)
    requires Laid(c, visited, raw, {}) && i < |raw| && !Abandoned(raw[i])
    ensures Closed(c, raw[i])
  {
  }

  lemma BackOutside(visited: set<Address>, raw: seq<Block>)
    requires Laid(BackScope(), visited, raw, {}) && VisitedReached(BackScope(), visited)
    ensures Covered(raw, 0x1000)
  {
    var c := BackScope();
    BackReached();
    assert forall x :: c.bin.Decodes(x) ==> c.bin.decode(x).value.EndsBlock();
    hide Laid, Own, Closed;
    LaidComplete(c, visited, raw);
    var i :| 0 <= i < |raw| && !Abandoned(raw[i]) && 0x1000 in Own(c.bin, raw[i]);
    assert Closed(c, raw[i]) by {
      LaidBlock(c, visited, raw, i);
    }
    OwnHeld(c, raw[i], 0x1000);
  }

  /** A jump back leads in front of the entry, and the function begins at the entry. */
  method ExploreBack() returns (fn: Function, ghost raw: seq<Block>)
    ensures fn.Valid() && Refines(raw, fn.Views(), EntrySet(raw))
    ensures Covered(raw, 0x1000) && fn.startAddress == 0x1002 && !RangeCovers(fn.startAddress, fn.endAddress, raw)
  {
    ProgramValid(BackCode(), 0x1000, 5);
    hide Laid, Refines, EntrySet, LastEnd, VisitedReached;
    var explorer := new StaticPathExplorer(BackScope().bin);
    fn, raw := Analyse(explorer, 0x1002);
    BackOutside(explorer.visited, raw);
  }

  // ----- A predecessor that is left behind -----

  /** jz B; jz A; test ecx, ecx; A: test eax, eax; B: ret */
  function CutCode(): Code {
    map[0x1000 := JumpIfZero(0x1000, 6), 0x1002 := JumpIfZero(0x1002, 2), 0x1004 := TestItself(0x1004, ECX),
        0x1006 := TestItself(0x1006, EAX), 0x1008 := Ret(0x1008)]
  }

  /** Its blocks, as the explorer closes them. */
  const UNCUT_BLOCKS: seq<Block> := [
    Block(0x1000, 0x1002, [0x1008, 0x1002], []),
    Block(0x1002, 0x1004, [0x1006, 0x1004], []),
    Block(0x1004, 0x1009, [], [])
  ]

  lemma UncutClosed()
    ensures var c := Loaded(CutCode(), 9);
            && ClosedAt(c, UNCUT_BLOCKS[0], 0x1000) && ClosedAt(c, UNCUT_BLOCKS[1], 0x1002)
            && ClosedAt(c, UNCUT_BLOCKS[2], 0x1008)
  {
    var code, c := CutCode(), Loaded(CutCode(), 9);
    JumpSuccessors(c, code, 9, 0x1000, 0x1008);
    JumpSuccessors(c, code, 9, 0x1002, 0x1006);
    hide ClosedAt, Insns;
    OneClosed(c, 0x1000, UNCUT_BLOCKS[0]);
    OneClosed(c, 0x1002, UNCUT_BLOCKS[1]);
    var b := UNCUT_BLOCKS[2];
    TwoClosed(c, 0x1006, 0x1008, b.(start := 0x1006));
    OneInFront(c, b.(start := 0x1006), 0x1008, 0x1004);
  }

  /** After both cuts. */
  const CUT_BLOCKS: seq<Block> := [
    Block(0x1000, 0x1002, [0x1008, 0x1002], []),
    Block(0x1002, 0x1004, [0x1006, 0x1004], [0x1000]),
    Block(0x1004, 0x1006, [0x1006], []),
    Block(0x1008, 0x1009, [], [0x1004, 0x1000, 0x1000]),
    Block(0x1006, 0x1008, [0x1008], [0x1004, 0x1002])
  ]

  /** The first pass cuts the third block for the first successor of the first one, and starts again.
      The second pass records both successors of the first block and cuts the third one again, in
      front of the first cut, for that of the second block. */
  function TwoPasses(bs: seq<Block>): seq<Block>
    requires |bs| >= 2
  {
    var again := AfterRecord(bs, 0, 0x1008);
    if |again| < 2 then again
    else
      var first := AfterRecord(again, 0, 0x1008);
      if |first| < 2 then first
      else
        var second := AfterRecord(first, 0, 0x1002);
        if |second| < 2 then second else AfterRecord(second, 1, 0x1006)
  }

  /** The list after the first cut. */
  const CUT_ONCE: seq<Block> := [
    Block(0x1000, 0x1002, [0x1008, 0x1002], []),
    Block(0x1002, 0x1004, [0x1006, 0x1004], []),
    Block(0x1004, 0x1008, [0x1008], []),
    Block(0x1008, 0x1009, [], [0x1004, 0x1000])
  ]

  lemma FirstCut()
    ensures AfterRecord(UNCUT_BLOCKS, 0, 0x1008) == CUT_ONCE
  {
    RecordedAtCut(UNCUT_BLOCKS, 0, 0x1008, 2);
  }

  lemma NoCut()
    ensures AfterRecord(CUT_ONCE, 0, 0x1008) == CUT_ONCE[3 := CUT_BLOCKS[3]]
  {
    RecordedInPlace(CUT_ONCE, 0, 0x1008, 3);
    assert [0x1004, 0x1000] + [0x1000] == [0x1004, 0x1000, 0x1000];
  }

  lemma NoCutEither()
    ensures AfterRecord(CUT_ONCE[3 := CUT_BLOCKS[3]], 0, 0x1002) == CUT_ONCE[3 := CUT_BLOCKS[3]][1 := CUT_BLOCKS[1]]
  {
    RecordedInPlace(CUT_ONCE[3 := CUT_BLOCKS[3]], 0, 0x1002, 1);
    assert [] + [0x1000] == [0x1000];
  }

  lemma SecondCut()
    ensures AfterRecord(CUT_ONCE[3 := CUT_BLOCKS[3]][1 := CUT_BLOCKS[1]], 1, 0x1006) == CUT_BLOCKS
  {
    var bs := CUT_ONCE[3 := CUT_BLOCKS[3]][1 := CUT_BLOCKS[1]];
    assert bs == [CUT_BLOCKS[0], CUT_BLOCKS[1], CUT_ONCE[2], CUT_BLOCKS[3]];
    assert Hits(bs[2], 0x1006) && !Hits(bs[0], 0x1006) && !Hits(bs[1], 0x1006);
    RecordedAtCut(bs, 1, 0x1006, 2);
  }

  lemma CutTwice()
    ensures TwoPasses(UNCUT_BLOCKS) == CUT_BLOCKS
  {
    hide AfterRecord;
    FirstCut();
    NoCut();
    NoCutEither();
    SecondCut();
  }

  lemma CutTwiceIsOver(x: Address)
    requires IsStart(UNCUT_BLOCKS, x) || IsSuccessor(UNCUT_BLOCKS, x)
    ensures !Splits(CUT_BLOCKS, x)
  {
    assert x in {0x1000, 0x1002, 0x1004, 0x1008, 0x1006};
    var k := if x == 0x1000 then 0 else if x == 0x1002 then 1
             else if x == 0x1004 then 2 else if x == 0x1008 then 3 else 4;
    assert CUT_BLOCKS[k].start == x;
    assert forall i :: 0 <= i < |CUT_BLOCKS| ==> (Hits(CUT_BLOCKS[i], x) <==> i == k);
  }

  /** Then nothing is split any more, and the block at 0x1008 still records the one at 0x1004, which
      has no edge to it. */
  lemma PredecessorLeftBehind()
    ensures var bs, cs := UNCUT_BLOCKS, TwoPasses(UNCUT_BLOCKS);
            && Separate(bs) && (forall x :: IsStart(bs, x) || IsSuccessor(bs, x) ==> !Splits(cs, x))
            && |cs| == 5 && cs[3].start == 0x1008 && 0x1004 in cs[3].preds && !HasEdge(cs, 0x1004, 0x1008)
  {
    CutTwice();
    hide TwoPasses, IsStart, IsSuccessor, Splits;
    forall x | IsStart(UNCUT_BLOCKS, x) || IsSuccessor(UNCUT_BLOCKS, x) ensures !Splits(CUT_BLOCKS, x) {
      CutTwiceIsOver(x);
    }
  }

  // ----- An execution through an abandoned block -----

  /** P: mov eax, 1; L: test eax, eax; jz M; ret; M: ret;
      the entry: xor eax, eax; test ecx, ecx; jz L; jmp P */
  function LostCode(): Code {
    map[0x1000 := Instruction(0x1000, 5, MOV, General, [RegOp(EAX, false, true), ImmOp(1)]),
        0x1005 := TestItself(0x1005, EAX), 0x1007 := JumpIfZero(0x1007, 1),
        0x1009 := Ret(0x1009), 0x100A := Ret(0x100A),
        0x100B := Clear(0x100B, EAX), 0x100D := TestItself(0x100D, ECX), 0x100F := JumpIfZero(0x100F, -0xC),
        0x1011 := Instruction(0x1011, 2, OTHER, UncondBranch, [ImmOp(-0x13)])]
  }

  function LostScope(): Scope {
    Scope(Program(LostCode(), 0x1000, 0x13), map[], {}, 0x100B)
  }

  /** L is visited as the target of the branch before P is, whose block is abandoned when it gets
      there. */
  const LOST_BLOCKS: seq<Block> := [
    Block(0x100B, 0x1011, [0x1005, 0x1011], []),
    Block(0x1011, 0x1013, [0x1000], []),
    Block(0x1005, 0x1009, [0x100A, 0x1009], []),
    Block(0x1009, 0x100A, [], []),
    Block(0x1000, 0, [], []),
    Block(0x100A, 0x100B, [], [])
  ]

  lemma LostSuccessors()
    ensures var c := LostScope();
            && c.SuccessorsAfter(0x100F) == [0x1005, 0x1011] && c.SuccessorsAfter(0x1011) == [0x1000]
            && c.SuccessorsAfter(0x1007) == [0x100A, 0x1009] && c.bin.CodeTarget(0x1007) == Some(0x100A)
            && c.SuccessorsAfter(0x1009) == c.SuccessorsAfter(0x100A) == []
  {
    var code, c := LostCode(), LostScope();
    JumpSuccessors(c, code, 0x13, 0x100F, 0x1005);
    JumpSuccessors(c, code, 0x13, 0x1007, 0x100A);
    assert c.bin.sections[0].0 <= 0x1000 < c.bin.sections[0].1;
    assert c.bin.IsExecutableAddress(0x1000);
  }

  lemma LostClosed()
    ensures var c := LostScope();
            && Abandoned(LOST_BLOCKS[4])
            && ClosedAt(c, LOST_BLOCKS[0], 0x100F) && ClosedAt(c, LOST_BLOCKS[1], 0x1011)
            && ClosedAt(c, LOST_BLOCKS[2], 0x1007) && ClosedAt(c, LOST_BLOCKS[3], 0x1009)
            && ClosedAt(c, LOST_BLOCKS[5], 0x100A)
    ensures Insns(LostScope().bin, 0x1005, 0x1009) == {0x1005, 0x1007}
  {
    LostSuccessors();
    hide ClosedAt, Insns, Scope.SuccessorsAfter;
    var c, b := LostScope(), LOST_BLOCKS[0];
    TwoClosed(c, 0x100D, 0x100F, b.(start := 0x100D));
    OneInFront(c, b.(start := 0x100D), 0x100F, 0x100B);
    OneClosed(c, 0x1011, LOST_BLOCKS[1]);
    TwoClosed(c, 0x1005, 0x1007, LOST_BLOCKS[2]);
    OneClosed(c, 0x1009, LOST_BLOCKS[3]);
    OneClosed(c, 0x100A, LOST_BLOCKS[5]);
  }

  lemma LostEnds()
    ensures EndsInBranch(LOST_BLOCKS, LostCode(), LostScope(), 2, 0x1007)
  {
    hide ClosedAt, Insns;
    LostClosed();
    LostSuccessors();
    ProgramValid(LostCode(), 0x1000, 0x13);
  }

  lemma OneInsn(code: Code, lo: Address, hi: Address)
    requires lo in code && code[lo].length >= 1 && hi == lo + code[lo].length
    ensures InsnsFrom(code, lo, hi) == [code[lo]]
  {
    assert InsnsFrom(code, lo, hi) == [code[lo]] + InsnsFrom(code, hi, hi);
  }

  lemma LostInsns()
    ensures var code, bs := LostCode(), LOST_BLOCKS;
            && InsnsOf(code, bs[0]) == [code[0x100B], code[0x100D], code[0x100F]]
            && InsnsOf(code, bs[1]) == [code[0x1011]] && InsnsOf(code, bs[2]) == [code[0x1005], code[0x1007]]
            && InsnsOf(code, bs[3]) == [code[0x1009]] && InsnsOf(code, bs[4]) == []
            && InsnsOf(code, bs[5]) == [code[0x100A]]
  {
    var code := LostCode();
    TwoInsns(code, 0x100D, 0x100F, 0x1011);
    assert InsnsFrom(code, 0x100B, 0x1011) == [code[0x100B]] + InsnsFrom(code, 0x100D, 0x1011);
    TwoInsns(code, 0x1005, 0x1007, 0x1009);
    OneInsn(code, 0x1011, 0x1013);
    OneInsn(code, 0x1009, 0x100A);
    OneInsn(code, 0x100A, 0x100B);
  }

  /** What is known behind the entry block, and stays known behind all others. */
  const ZERO: Domain := map[EAX := Constant(0)]

  lemma KeepsZero(i: Instruction)
    requires i.mnemonic in {TEST, JZ, OTHER} && forall k :: 0 <= k < |i.operands| ==> !i.Writes(k)
    ensures Applied(i, ZERO) == ZERO
  {
    assert !i.MayWrite(EAX);
  }

  lemma DomainAfterOne(d: Domain, i: Instruction)
    ensures DomainAfter(d, [i]) == Applied(i, d) && DomainAfter(d, []) == d
  {
    DomainAfterTwo(d, i, i);
    assert [i][..0] == [];
  }

  lemma LostEntryDomain()
    ensures DomainAfter(map[], InsnsOf(LostCode(), LOST_BLOCKS[0])) == ZERO
  {
    var code := LostCode();
    LostInsns();
    hide InsnsOf;
    var insns := [code[0x100B], code[0x100D], code[0x100F]];
    DomainAfterTwo(map[], code[0x100B], code[0x100D]);
    assert insns[..2] == [code[0x100B], code[0x100D]];
    assert Applied(code[0x100B], map[]) == ZERO;
    hide Applied;
    KeepsZero(code[0x100D]);
    KeepsZero(code[0x100F]);
  }

  lemma LostBlockKeepsZero(k: nat)
    requires 0 < k < 6
    ensures DomainAfter(ZERO, InsnsOf(LostCode(), LOST_BLOCKS[k])) == ZERO
  {
    var code := LostCode();
    LostInsns();
    hide InsnsOf, Applied;
    if k == 2 {
      DomainAfterTwo(ZERO, code[0x1005], code[0x1007]);
      KeepsZero(code[0x1005]);
      KeepsZero(code[0x1007]);
    } else {
      var a := if k == 1 then 0x1011 else if k == 3 then 0x1009 else 0x100A;
      DomainAfterOne(ZERO, code[a]);
      KeepsZero(code[a]);
    }
  }

  lemma {:induction false} LostDomains(k: nat)
    requires k <= 6
    ensures DomainBefore(LOST_BLOCKS, LostCode(), k) == if k == 0 then map[] else ZERO
  {
    hide InsnsOf, DomainAfter;
    if k == 1 {
      LostEntryDomain();
      assert DomainBefore(LOST_BLOCKS, LostCode(), 0) == map[];
    } else if k > 1 {
      LostDomains(k - 1);
      LostBlockKeepsZero(k - 1);
    }
  }

  lemma NothingStale(i: Instruction, d: Domain, preserved: set<Register>)
    requires i.Listed()
    requires i.mnemonic in {TEST, JZ}
             || (i.mnemonic.XOR? && i.Op(0).RegOp? && i.Op(1).RegOp? && i.Op(0).reg == i.Op(1).reg)
             || (i.mnemonic.OTHER? && !i.Leaves() && forall k :: 0 <= k < |i.operands| ==> !i.Writes(k))
    ensures Safe(i, d, preserved)
  {
  }

  lemma LostSafeAlong(k: nat, preserved: set<Register>)
    requires k < 6
    ensures SafeAlong(DomainBefore(LOST_BLOCKS, LostCode(), k), InsnsOf(LostCode(), LOST_BLOCKS[k]), preserved)
  {
    LostInsns();
    hide InsnsOf, DomainBefore, DomainAfter;
    var insns := InsnsOf(LostCode(), LOST_BLOCKS[k]);
    forall n | 0 <= n < |insns|
      ensures insns[n].Listed()
              && Safe(insns[n], DomainAfter(DomainBefore(LOST_BLOCKS, LostCode(), k), insns[..n]), preserved)
    {
      NothingStale(insns[n], DomainAfter(DomainBefore(LOST_BLOCKS, LostCode(), k), insns[..n]), preserved);
    }
  }

  /** Edges lead to blocks in front of which the zero is known, from blocks behind which it is. */
  lemma LostEdge(j: nat, k: nat)
    requires Edge(LOST_BLOCKS, j, k)
    ensures j < 5 && 0 < k < 6
  {
    var y :| y in LOST_BLOCKS[j].succs && Lookup(LOST_BLOCKS, y) == k;
    assert y in {0x1005, 0x1011, 0x1000, 0x100A, 0x1009};
    assert !LOST_BLOCKS[0].Holds(y);
  }

  /** Every guard on blocks and edges holds of the whole function. */
  lemma LostIsSafe(preserved: set<Register>)
    ensures SafeFunction(LOST_BLOCKS, LostCode(), preserved)
  {
    var bs, code := LOST_BLOCKS, LostCode();
    hide SafeAlong, DomainBefore, InsnsOf, Edge, BlockReach;
    forall j: nat | BlockReach(bs, 0, j) && j < |bs| ensures SafeBlock(bs, code, j, preserved) {
      LostSafeAlong(j, preserved);
    }
    forall j: nat, k: nat | BlockReach(bs, 0, j) && Edge(bs, j, k) ensures HandsOnTo(bs, code, j, k) {
      LostEdge(j, k);
      LostDomains(j + 1);
      LostDomains(k);
    }
  }

  lemma LostVerdict()
    ensures var insns := InsnsOf(LostCode(), LOST_BLOCKS[2]);
            |insns| == 2 && VerdictAt(DomainBefore(LOST_BLOCKS, LostCode(), 2), insns, 1).AlwaysTrue?
  {
    var code := LostCode();
    LostInsns();
    LostDomains(2);
    hide DomainBefore, InsnsOf;
    DomainAfterOne(ZERO, code[0x1005]);
    KeepsZero(code[0x1005]);
    assert [code[0x1005], code[0x1007]][..1] == [code[0x1005]];
  }

  lemma LostPruned()
    ensures Edge(LOST_BLOCKS, 2, 3) && !Edge(AfterPruning(LOST_BLOCKS, LostCode()), 2, 3)
  {
    hide EndsInBranch, AfterPruning, VerdictAt, DomainBefore, InsnsOf, ClosedAt, Sees;
    LostEnds();
    LostSuccessors();
    LostVerdict();
    TakenIsKept(LOST_BLOCKS, LostCode(), LostScope(), 2, 0x1007);
    EdgeIsLost(LOST_BLOCKS, LostCode(), 2, 3, 0x1009, 0x100A);
  }

  /** eax and ecx are 1. */
  function BothOne(): State {
    State((q: Register) => if q == EAX || q == ECX then 1 else 0, false, false)
  }

  /** From the entry with 1 in ecx, so that the jump to P is taken, which sets eax to 1. */
  function LostExecution(): seq<Point> {
    var s, t := OneIn(ECX, false), BothOne();
    [Point(0x100B, s), Point(0x100D, s), Point(0x100F, s), Point(0x1011, s),
     Point(0x1000, s), Point(0x1005, t), Point(0x1007, t), Point(0x1009, t)]
  }

  lemma ClearKeeps(a: Address, r: Register, s: State, preserved: set<Register>)
    requires s.regs(r) == 0
    ensures Steps(Clear(a, r), s, s, preserved)
  {
    WordXorSelf(0);
    hide WordXor;
    assert Executes(Clear(a, r), s, s, 0, 0, preserved);
  }

  lemma TestKeeps(a: Address, r: Register, s: State, preserved: set<Register>)
    requires s.regs(r) == 1 && !s.zf && !s.sf
    ensures Steps(TestItself(a, r), s, s, preserved)
  {
    WordAndSelf(1);
    hide WordAnd;
    assert Executes(TestItself(a, r), s, s, 0, 0, preserved);
  }

  lemma OtherKeeps(i: Instruction, s: State, preserved: set<Register>)
    requires i.mnemonic.OTHER?
    ensures Steps(i, s, s, preserved)
  {
    assert Executes(i, s, s, 0, 0, preserved);
  }

  lemma SetsOne(preserved: set<Register>)
    ensures Steps(LostCode()[0x1000], OneIn(ECX, false), BothOne(), preserved)
  {
    assert Executes(LostCode()[0x1000], OneIn(ECX, false), BothOne(), 0, 0, preserved);
  }

  lemma LostSteps(k: nat, preserved: set<Register>)
    requires k < 7
    ensures var e := LostExecution(); Steps(LostCode()[e[k].pc], e[k].state, e[k + 1].state, preserved)
  {
    hide Steps;
    var code, s, t := LostCode(), OneIn(ECX, false), BothOne();
    ClearKeeps(0x100B, EAX, s, preserved);
    TestKeeps(0x100D, ECX, s, preserved);
    JumpKeeps(0x100F, -0xC, s, preserved);
    TestKeeps(0x1005, EAX, t, preserved);
    JumpKeeps(0x1007, 1, t, preserved);
    OtherKeeps(code[0x1011], s, preserved);
    SetsOne(preserved);
  }

  /** Where control goes, and that the explorer follows it. */
  lemma LostWay(k: nat)
    requires k < 7
    ensures var c, x, y := LostScope(), LostExecution()[k].pc, LostExecution()[k + 1].pc;
            && x in LostCode() && y in LostCode() && Continues(c.bin, x, LostExecution()[k].state, y)
            && MovesDirectly(c.bin, x, y) && c.Leads(x, y) && c.Open(x) && c.Open(y)
  {
    LostSuccessors();
    var c, y := LostScope(), LostExecution()[k + 1].pc;
    assert c.bin.sections[0].0 <= y < c.bin.sections[0].1;
    assert c.bin.IsExecutableAddress(y);
  }

  lemma LostStep(k: nat, preserved: set<Register>)
    requires k < 7
    ensures MovesOn(LostScope().bin, LostExecution()[k], LostExecution()[k + 1], preserved)
  {
    LostSteps(k, preserved);
    LostWay(k);
    hide Steps, Continues;
  }

  lemma LostInside(visited: set<Address>, k: nat)
    requires (forall x :: x in visited <==> LostScope().Reached(x)) && k < 8
    ensures Inside(LostScope(), visited, LostExecution()[k].pc)
  {
    if k == 0 {
      LostWay(0);
      ReachedEntry(LostScope());
    } else {
      LostInside(visited, k - 1);
      LostWay(k - 1);
      ReachedStep(LostScope(), LostExecution()[k - 1].pc, LostExecution()[k].pc);
    }
  }

  /** Control comes back into the function from the abandoned block. No guard on blocks or edges fails,
      the branch at L is said always to be taken, and the edge that this execution takes is pruned. */
  lemma AbandonedLosesLiveEdge(visited: set<Address>, preserved: set<Register>)
    requires forall x :: x in visited <==> LostScope().Reached(x)
    ensures var bs, code, c, e := LOST_BLOCKS, LostCode(), LostScope(), LostExecution();
            && SafeFunction(bs, code, preserved) && IsExecution(c.bin, e, preserved) && e[0].pc == c.entry
            && (forall k :: 0 <= k < 8 ==> Inside(c, visited, e[k].pc))
            && (forall k :: 0 <= k < 7 ==> MovesDirectly(c.bin, e[k].pc, e[k + 1].pc))
            && Lookup(bs, e[6].pc) == 2 && Lookup(bs, e[7].pc) == 3
            && Edge(bs, 2, 3) && !Edge(AfterPruning(bs, code), 2, 3)
  {
    hide SafeFunction, MovesOn, Inside, MovesDirectly, Edge, AfterPruning;
    LostIsSafe(preserved);
    LostPruned();
    forall k | 0 <= k < 8 ensures Inside(LostScope(), visited, LostExecution()[k].pc) {
      LostInside(visited, k);
    }
    forall k | 0 <= k < 7
      ensures MovesOn(LostScope().bin, LostExecution()[k], LostExecution()[k + 1], preserved)
              && MovesDirectly(LostScope().bin, LostExecution()[k].pc, LostExecution()[k + 1].pc)
    {
      LostStep(k, preserved);
      LostWay(k);
    }
  }

  // ----- An execution that loses its edge -----

  const NEXT_INSNS: set<Address> := {0x1000, 0x1002, 0x1004, 0x1006}

  lemma NextLeads(x: Address, y: Address)
    requires x in NEXT_INSNS
    ensures Loaded(NextCode(), 0x10).Leads(x, y) <==> x != 0x1006 && y == x + 2
  {
    JumpSuccessors(Loaded(NextCode(), 0x10), NextCode(), 0x10, 0x1004, 0x1006);
  }

  lemma {:induction false} NextTrails(p: seq<Address>, x: Address)
    requires Loaded(NextCode(), 0x10).IsTrail(p, x)
    ensures x in NEXT_INSNS
    decreases |p|
  {
    var c := Loaded(NextCode(), 0x10);
    if |p| > 1 {
      var n := |p| - 2;
      var q := p[..n + 1];
      forall m | 0 <= m < |q| - 1 ensures c.Leads(q[m], q[m + 1]) {
        assert c.Leads(p[m], p[m + 1]);
      }
      assert c.IsTrail(q, p[n]);
      NextTrails(q, p[n]);
      assert c.Leads(p[n], p[n + 1]);
      NextLeads(p[n], x);
    }
  }

  lemma NextReached()
    ensures forall x :: x in NEXT_INSNS <==> Loaded(NextCode(), 0x10).Reached(x)
  {
    var c := Loaded(NextCode(), 0x10);
    ReachedEntry(c);
    NextLeads(0x1000, 0x1002);
    ReachedStep(c, 0x1000, 0x1002);
    NextLeads(0x1002, 0x1004);
    ReachedStep(c, 0x1002, 0x1004);
    NextLeads(0x1004, 0x1006);
    ReachedStep(c, 0x1004, 0x1006);
    forall x | c.Reached(x) ensures x in NEXT_INSNS {
      var p :| c.IsTrail(p, x);
      NextTrails(p, x);
    }
  }

  lemma NextOwn()
    ensures var c := Loaded(NextCode(), 0x10);
            && Closed(c, NEXT_BLOCKS[0]) && Own(c.bin, NEXT_BLOCKS[0]) == {0x1000, 0x1002, 0x1004}
            && Closed(c, NEXT_BLOCKS[1]) && Own(c.bin, NEXT_BLOCKS[1]) == {0x1006}
  {
    var code, c, b := NextCode(), Loaded(NextCode(), 0x10), NEXT_BLOCKS[0];
    JumpSuccessors(c, code, 0x10, 0x1004, 0x1006);
    hide ClosedAt, Insns;
    TwoClosed(c, 0x1002, 0x1004, b.(start := 0x1002));
    OneInFront(c, b.(start := 0x1002), 0x1004, 0x1000);
    OneClosed(c, 0x1006, NEXT_BLOCKS[1]);
  }

  /** Two closed blocks that share no instruction are laid. */
  lemma TwoLaid(c: Scope, visited: set<Address>, a: Block, b: Block)
    requires Closed(c, a) && Closed(c, b) && a.preds == b.preds == [] && a.end > 0 && b.end > 0
    requires visited == Own(c.bin, a) + Own(c.bin, b) && Own(c.bin, a) !! Own(c.bin, b)
    requires c.before == {} && a.start == c.entry
    ensures Laid(c, visited, [a, b], {}) && !AnyAbandoned([a, b])
  {
    hide Closed, Own, NextsBehind;
    var bs := [a, b];
    forall x | x in visited ensures Owned(c.bin, bs, x) {
      assert x in Own(c.bin, bs[if x in Own(c.bin, a) then 0 else 1]);
    }
  }

  lemma NextLaid()
    ensures Laid(Loaded(NextCode(), 0x10), NEXT_INSNS, NEXT_BLOCKS, {}) && !AnyAbandoned(NEXT_BLOCKS)
  {
    NextOwn();
    hide Closed, Own, Laid, AnyAbandoned;
    TwoLaid(Loaded(NextCode(), 0x10), NEXT_INSNS, NEXT_BLOCKS[0], NEXT_BLOCKS[1]);
    assert [NEXT_BLOCKS[0], NEXT_BLOCKS[1]] == NEXT_BLOCKS;
  }

  lemma NextEntries(e: Address)
    requires e in EntrySet(NEXT_BLOCKS)
    ensures e in {0x1000, 0x1006} && !IsStraddled(NEXT_BLOCKS, e)
  {
    var i :| 0 <= i < |NEXT_BLOCKS| && (NEXT_BLOCKS[i].start == e || e in NEXT_BLOCKS[i].succs);
  }

  lemma EntriesOf(bs: seq<Block>)
    ensures EntriesIn(bs, EntrySet(bs)) && forall x :: IsSuccessor(bs, x) ==> x in EntrySet(bs)
  {
  }

  lemma NoneStraddled(bs: seq<Block>, i: nat, e: Address)
    requires i < |bs| && !IsStraddled(bs, e)
    ensures !bs[i].Straddles(e)
  {
  }

  /** Separate blocks with no entry strictly inside one are what normalisation makes of them. */
  lemma NormalAlready(bs: seq<Block>, insns: set<Address>)
    requires Separate(bs) && forall e :: e in EntrySet(bs) ==> !IsStraddled(bs, e)
    ensures Refines(bs, bs, EntrySet(bs)) && Normalised(bs, bs) && EntriesAmong(bs, insns)
  {
    EntriesOf(bs);
    hide EntriesIn, EntrySet, NormalForm, Separate, Refines, IsStraddled, IsSuccessor, IsStart, CutCount;
    RefinesSelf(bs, EntrySet(bs));
    forall i, e | 0 <= i < |bs| && e in EntrySet(bs) ensures !bs[i].Straddles(e) {
      NoneStraddled(bs, i, e);
    }
    RefinesToNormalForm(bs, bs, EntrySet(bs));
  }

  lemma NextNormal()
    ensures Refines(NEXT_BLOCKS, NEXT_BLOCKS, EntrySet(NEXT_BLOCKS)) && Normalised(NEXT_BLOCKS, NEXT_BLOCKS)
    ensures EntriesAmong(NEXT_BLOCKS, NEXT_INSNS)
  {
    assert Separate(NEXT_BLOCKS);
    hide Refines, Normalised, EntriesAmong, EntrySet, IsStraddled, Separate;
    forall e | e in EntrySet(NEXT_BLOCKS) ensures !IsStraddled(NEXT_BLOCKS, e) {
      NextEntries(e);
    }
    NormalAlready(NEXT_BLOCKS, NEXT_INSNS);
  }

  lemma NextApart()
    ensures NoOverlap(Loaded(NextCode(), 0x10).bin, NEXT_INSNS)
  {
  }

  /** The premises of what is said of executions are met. */
  lemma NextCharted()
    ensures Charted(Loaded(NextCode(), 0x10), NEXT_INSNS, NEXT_BLOCKS, NEXT_BLOCKS) && !AnyAbandoned(NEXT_BLOCKS)
  {
    hide Laid, Refines, Normalised, EntriesAmong, NoOverlap, AnyAbandoned;
    NextReached();
    NextLaid();
    NextNormal();
    NextApart();
    assert NEXT_INSNS - Loaded(NextCode(), 0x10).before == NEXT_INSNS;
  }

  lemma NextKnows()
    ensures Knows(Loaded(NextCode(), 0x10), NEXT_INSNS, NextCode())
  {
    ProgramValid(NextCode(), 0x1000, 0x10);
  }

  /** All registers are 0. */
  function AllZero(zf: bool): State {
    State((q: Register) => 0, zf, false)
  }

  function NextExecution(): seq<Point> {
    [Point(0x1000, AllZero(false)), Point(0x1002, AllZero(false)),
     Point(0x1004, AllZero(true)), Point(0x1006, AllZero(true))]
  }

  lemma NextSteps(preserved: set<Register>)
    ensures Steps(NextCode()[0x1000], AllZero(false), AllZero(false), preserved)
    ensures Steps(NextCode()[0x1002], AllZero(false), AllZero(true), preserved)
    ensures Steps(NextCode()[0x1004], AllZero(true), AllZero(true), preserved)
  {
    ClearKeeps(0x1000, EAX, AllZero(false), preserved);
    JumpKeeps(0x1004, 0, AllZero(true), preserved);
    WordAndSelf(0);
    hide WordAnd;
    assert Executes(NextCode()[0x1002], AllZero(false), AllZero(true), 0, 0, preserved);
  }

  lemma NextRuns(preserved: set<Register>)
    ensures RunsInside(Loaded(NextCode(), 0x10), NEXT_INSNS, NextExecution(), preserved)
  {
    var c, e := Loaded(NextCode(), 0x10), NextExecution();
    NextSteps(preserved);
    JumpSuccessors(c, NextCode(), 0x10, 0x1004, 0x1006);
    hide Steps;
    forall k | 0 <= k < 3 ensures MovesOn(c.bin, e[k], e[k + 1], preserved) && LeavesRecorded(c, e[k].pc, e[k + 1].pc) {
    }
  }

  lemma NextDomains()
    ensures DomainBefore(NEXT_BLOCKS, NextCode(), 0) == map[] && DomainBefore(NEXT_BLOCKS, NextCode(), 1) == ZERO
    ensures InsnsOf(NextCode(), NEXT_BLOCKS[1]) == [NextCode()[0x1006]]
  {
    var code := NextCode();
    NextEnds();
    OneInsn(code, 0x1006, 0x1007);
    assert DomainBefore(NEXT_BLOCKS, code, 0) == map[];
    hide InsnsOf;
    var insns := [code[0x1000], code[0x1002], code[0x1004]];
    assert insns[..2] == [code[0x1000], code[0x1002]];
    DomainAfterTwo(map[], code[0x1000], code[0x1002]);
    assert Applied(code[0x1000], map[]) == ZERO;
    hide Applied;
    KeepsZero(code[0x1002]);
    KeepsZero(code[0x1004]);
  }

  lemma NextSafe(preserved: set<Register>)
    ensures SafeFunction(NEXT_BLOCKS, NextCode(), preserved)
  {
    var bs, code := NEXT_BLOCKS, NextCode();
    NextEnds();
    NextDomains();
    hide DomainBefore, InsnsOf, DomainAfter, BlockReach, EndsInBranch;
    forall j: nat | j < 2 ensures SafeBlock(bs, code, j, preserved) {
      var insns := InsnsOf(code, bs[j]);
      forall n | 0 <= n < |insns|
        ensures insns[n].Listed() && Safe(insns[n], DomainAfter(DomainBefore(bs, code, j), insns[..n]), preserved)
      {
        NothingStale(insns[n], DomainAfter(DomainBefore(bs, code, j), insns[..n]), preserved);
      }
    }
    forall j: nat, k: nat | Edge(bs, j, k) ensures HandsOnTo(bs, code, j, k) {
      var y :| y in bs[j].succs && Lookup(bs, y) == k;
      assert y == 0x1006 && j == 0 && k == 1;
    }
  }

  lemma NextFits()
    ensures VerdictsFit(NEXT_BLOCKS, NextCode())
  {
    NextEnds();
    NextDomains();
    hide DomainBefore, InsnsOf, EndsInBranch, BlockReach, DomainAfter;
  }

  /** An execution for which all guards hold, and which is no path of the graph after pruning, since
      its branch leads to the next instruction. */
  lemma NextLosesExecution(preserved: set<Register>)
    ensures RunsInside(Loaded(NextCode(), 0x10), NEXT_INSNS, NextExecution(), preserved)
    ensures var c, pruned := Loaded(NextCode(), 0x10), AfterPruning(NEXT_BLOCKS, NextCode());
            !IsGraphPath(c.bin, pruned, Addresses(NextExecution()))
  {
    var bs, code, c, e := NEXT_BLOCKS, NextCode(), Loaded(NextCode(), 0x10), NextExecution();
    JumpSuccessors(c, code, 0x10, 0x1004, 0x1006);
    assert SameWays(c.bin, e[2].pc);
    hide Charted, AnyAbandoned, Knows, RunsInside, SafeFunction, VerdictsFit, IsGraphPath, SameWays;
    hide EndsInBranch, FunctionResults, Pruned, VerdictAt, InsnsOf;
    NextCharted();
    NextKnows();
    NextRuns(preserved);
    NextSafe(preserved);
    NextFits();
    NextEnds();
    NextVerdict();
    BranchResult(bs, code, c, 0, 0x1004);
    PruningKeepsExecution(c, NEXT_INSNS, bs, bs, code, e, preserved);
  }
}
