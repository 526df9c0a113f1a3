/** The interval pass over a block: the domain after every prefix, and the verdicts on its
    conditional branches, against the machine. */
module BranchVerdicts {
  import opened Blocks
  import opened ControlFlow
  import opened Tours
  import opened Words
  import opened Options
  import opened Instructions
  import opened Intervals
  import opened Machine
  import opened AbstractInterpretation
  import opened Functions

  // ----- The verdict on one branch -----

  predicate IsFlagBranch(m: Mnemonic) {
    m in {JZ, JNZ, JS, JNS}
  }

  /** Whether the branch is taken after a comparison whose result is v. */
  predicate TakenOn(m: Mnemonic, v: int)
    requires IsFlagBranch(m)
  {
    match m
    case JZ => v == 0
    case JNZ => v != 0
    case JS => v < 0
    case JNS => v >= 0
  }

  predicate IsTestOfRegister(i: Instruction) {
    i.mnemonic.TEST? && i.Op(0).RegOp? && i.Op(1).RegOp? && i.Op(0).reg == i.Op(1).reg
  }

  predicate IsCompareWithImmediate(i: Instruction) {
    i.mnemonic.CMP? && i.Op(0).RegOp? && i.Op(1).ImmOp?
  }

  function EvaluateBranch(branch: Mnemonic, prev: Option<Instruction>, d: Domain): PredicateResult {
    if prev.None? || !(IsTestOfRegister(prev.value) || IsCompareWithImmediate(prev.value)) then Unknown
    else
      var known := GetRegisterInterval(d, prev.value.Op(0).reg);
      if !known.IsConstant() || !IsFlagBranch(branch) then Unknown
      else if TakenOn(branch, known.lo) then AlwaysTrue else AlwaysFalse
  }

  /** The word whose sign and zeroness the flags tell, if the register holds v. */
  function Compared(prev: Instruction, v: Word): Word {
    if prev.mnemonic.CMP? && prev.Op(1).ImmOp? then Wrap(v - prev.Op(1).value) else v
  }

  /** The flags behind such a comparison; the registers are as before. */
  lemma ComparisonSetsFlags(prev: Instruction, s: State, t: State, preserved: set<Register>)
    requires IsTestOfRegister(prev) || IsCompareWithImmediate(prev)
    requires Steps(prev, s, t, preserved)
    ensures var v := Compared(prev, t.regs(prev.Op(0).reg)); t.zf == (v == 0) && t.sf == (v < 0)
  {
    WordAndSelf(s.regs(prev.Op(0).reg));
  }

  /** The guard of a verdict. It takes the register for what was compared, so behind CMP its
      answer must be the same for both. */
  predicate VerdictFits(branch: Mnemonic, prev: Instruction, d: Domain)
    requires IsFlagBranch(branch)
  {
    IsCompareWithImmediate(prev) && GetRegisterInterval(d, prev.Op(0).reg).IsConstant() ==>
      var v := GetRegisterInterval(d, prev.Op(0).reg).lo;
      TakenOn(branch, v) == TakenOn(branch, Compared(prev, v))
  }

  /** Under the guard, a verdict agrees with what the machine does. */
  lemma VerdictRight(branch: Mnemonic, prev: Instruction, d: Domain, s: State, t: State, preserved: set<Register>)
    requires IsFlagBranch(branch) && VerdictFits(branch, prev, d)
    requires Steps(prev, s, t, preserved) && Covers(d, t)
    ensures EvaluateBranch(branch, Some(prev), d).AlwaysTrue? ==> Taken(branch, t)
    ensures EvaluateBranch(branch, Some(prev), d).AlwaysFalse? ==> !Taken(branch, t)
  {
    if IsTestOfRegister(prev) || IsCompareWithImmediate(prev) {
      ComparisonSetsFlags(prev, s, t, preserved);
      hide Steps;
      assert Taken(branch, t) == TakenOn(branch, Compared(prev, t.regs(prev.Op(0).reg)));
    }
  }

  /** TEST of a register with itself, or CMP of it with an immediate. */
  predicate Compares(prev: Instruction, r: Register) {
    && prev.Op(0).RegOp? && prev.Op(0).reg == r
    && ((prev.mnemonic.TEST? && prev.Op(1).RegOp? && prev.Op(1).reg == r) || (prev.mnemonic.CMP? && prev.Op(1).ImmOp?))
  }

  /** The verdict agrees with the machine, wherever control comes from. */
  ghost predicate VerdictAgrees(branch: Mnemonic, prev: Instruction, d: Domain, preserved: set<Register>)
    requires IsFlagBranch(branch)
  {
    forall s, t :: Steps(prev, s, t, preserved) && Covers(d, t)
      ==> Taken(branch, t) == EvaluateBranch(branch, Some(prev), d).AlwaysTrue?
  }

  /** A state in the domain that the comparison leads to. */
  function ComparedState(prev: Instruction, d: Domain): State
    requires prev.Op(0).RegOp?
  {
    var s := StateWith(d, 0, if 0 in d then d[0].lo else 0, 0, if 0 in d then d[0].lo else 0);
    var v := Compared(prev, s.regs(prev.Op(0).reg));
    s.(zf := v == 0, sf := v < 0)
  }

  /** There is such a state behind the comparison, and the branch does the same in all of them. */
  lemma ComparedIsCovered(prev: Instruction, d: Domain, r: Register, preserved: set<Register>)
    requires Compares(prev, r) && AllInhabited(d)
    ensures Steps(prev, ComparedState(prev, d), ComparedState(prev, d), preserved) && Covers(d, ComparedState(prev, d))
  {
    var t := ComparedState(prev, d);
    WordAndSelf(t.regs(r));
    hide WordAnd;
    assert Executes(prev, t, t, 0, 0, preserved);
  }

  /** The states behind the comparison, where control gets from covered ones. */
  ghost predicate Behind(prev: Instruction, d: Domain, t: State, preserved: set<Register>) {
    Covers(d, t) && exists s :: Steps(prev, s, t, preserved)
  }

  /** Behind a comparison of a register for which the domain knows one word, there is a verdict, and
      both of them are told: always, if every state takes the branch, and never, if none does. */
  lemma VerdictGiven(branch: Mnemonic, prev: Instruction, d: Domain, r: Register, v: Word, preserved: set<Register>)
    requires branch in {JZ, JNZ, JS, JNS} && Compares(prev, r) && VerdictFits(branch, prev, d)
    requires AllInhabited(d) && KnowsWord(d, r, v)
    ensures EvaluateBranch(branch, Some(prev), d).AlwaysTrue? <==>
            forall t :: Behind(prev, d, t, preserved) ==> Taken(branch, t)
    ensures EvaluateBranch(branch, Some(prev), d).AlwaysFalse? <==>
            forall t :: Behind(prev, d, t, preserved) ==> !Taken(branch, t)
    ensures !EvaluateBranch(branch, Some(prev), d).Unknown?
  {
    WordIsConstant(d, r, v);
    ComparedIsCovered(prev, d, r, preserved);
    assert Behind(prev, d, ComparedState(prev, d), preserved);
    forall t | Behind(prev, d, t, preserved)
      ensures EvaluateBranch(branch, Some(prev), d).AlwaysTrue? ==> Taken(branch, t)
      ensures EvaluateBranch(branch, Some(prev), d).AlwaysFalse? ==> !Taken(branch, t)
    {
      var s :| Steps(prev, s, t, preserved);
      VerdictRight(branch, prev, d, s, t, preserved);
    }
  }

  /** The immediate of CMP plays no part in the verdict on a known register. It is right
      exactly when the branch does the same for the register as for the difference. */
  lemma CompareVerdictExact(branch: Mnemonic, prev: Instruction, d: Domain, preserved: set<Register>)
    requires IsFlagBranch(branch) && IsCompareWithImmediate(prev) && AllInhabited(d)
    requires prev.Op(0).reg in d && d[prev.Op(0).reg].IsConstant()
    ensures VerdictAgrees(branch, prev, d, preserved) <==>
            var v := d[prev.Op(0).reg].lo; TakenOn(branch, v) == TakenOn(branch, Wrap(v - prev.Op(1).value))
  {
    if VerdictFits(branch, prev, d) {
      forall s, t | Steps(prev, s, t, preserved) && Covers(d, t)
        ensures Taken(branch, t) == EvaluateBranch(branch, Some(prev), d).AlwaysTrue?
      {
        VerdictRight(branch, prev, d, s, t, preserved);
      }
    } else {
      var t := ComparedState(prev, d);
      assert Executes(prev, t, t, 0, 0, preserved) && Steps(prev, t, t, preserved) && Covers(d, t);
    }
  }

  /** It is right for every value of the register exactly when the immediate is zero. */
  lemma CompareWithZeroOnly(branch: Mnemonic, c: Word)
    requires IsFlagBranch(branch)
    ensures (forall v: Word :: TakenOn(branch, v) == TakenOn(branch, Wrap(v - c))) <==> c == 0
  {
    if c != 0 {
      var v: Word := if branch in {JZ, JNZ} then c else if c > 0 then 0 else -1;
      assert TakenOn(branch, v) != TakenOn(branch, Wrap(v - c));
    }
  }

  /** A wrong verdict: behind CMP eax, 5, with 5 in eax, JZ is said never to be taken. */
  lemma CompareWithFive(preserved: set<Register>)
    ensures var prev := Instruction(0x1000, 3, CMP, General, [RegOp(EAX, false, false), ImmOp(5)]);
            var d := map[EAX := Constant(5)];
            && EvaluateBranch(JZ, Some(prev), d).AlwaysFalse?
            && exists s, t :: Steps(prev, s, t, preserved) && Covers(d, t) && Taken(JZ, t)
  {
    var prev := Instruction(0x1000, 3, CMP, General, [RegOp(EAX, false, false), ImmOp(5)]);
    var t := ComparedState(prev, map[EAX := Constant(5)]);
    assert Executes(prev, t, t, 0, 0, preserved) && Steps(prev, t, t, preserved);
  }

  // ----- The walk through a block -----

  ghost function DomainAfter(d: Domain, insns: seq<Instruction>): Domain {
    if insns == [] then d else Applied(insns[|insns| - 1], DomainAfter(d, insns[..|insns| - 1]))
  }

  /** The verdict on the k-th instruction, from the domain in front of it. */
  ghost function VerdictAt(d: Domain, insns: seq<Instruction>, k: nat): PredicateResult
    requires k < |insns|
  {
    if !insns[k].category.CondBranch? then Unknown
    else EvaluateBranch(insns[k].mnemonic, if k == 0 then None else Some(insns[k - 1]), DomainAfter(d, insns[..k]))
  }

  /** The results with the verdicts on the first n instructions entered. */
  ghost function ResultsAfter(d: Domain, insns: seq<Instruction>, n: nat, results: map<Address, bool>)
      : map<Address, bool>
    requires n <= |insns|
  {
    if n == 0 then results
    else
      var before := ResultsAfter(d, insns, n - 1, results);
      match VerdictAt(d, insns, n - 1)
      case Unknown => before
      case AlwaysTrue => before[insns[n - 1].address := true]
      case AlwaysFalse => before[insns[n - 1].address := false]
  }

  /** What is known of a register stays known as long as no instruction writes it. */
  lemma {:induction false} StaysKnown(d: Domain, insns: seq<Instruction>, j: nat, k: nat, r: Register, v: Word)
    requires j <= k <= |insns| && KnowsWord(DomainAfter(d, insns[..j]), r, v)
    requires forall n :: j <= n < k ==> insns[n].Listed() && !insns[n].MayWrite(r)
    ensures KnowsWord(DomainAfter(d, insns[..k]), r, v)
    decreases k
  {
    if j < k {
      StaysKnown(d, insns, j, k - 1, r, v);
      assert insns[..k][..k - 1] == insns[..k - 1];
      UnwrittenKept(insns[k - 1], DomainAfter(d, insns[..k - 1]), r);
    }
  }

  /** Every step along the way is safe. */
  ghost predicate SafeAlong(d: Domain, insns: seq<Instruction>, preserved: set<Register>) {
    forall k :: 0 <= k < |insns| ==> insns[k].Listed() && Safe(insns[k], DomainAfter(d, insns[..k]), preserved)
  }

  /** From a covered state, every prefix of the block leads to a covered state. */
  lemma {:induction false} PrefixCovered(d: Domain, insns: seq<Instruction>, states: seq<State>,
      preserved: set<Register>, k: nat)
    requires RunsInto(insns, states, preserved) && SafeAlong(d, insns, preserved)
    requires Covers(d, states[0]) && k < |states|
    ensures Covers(DomainAfter(d, insns[..k]), states[k])
  {
    if k > 0 {
      PrefixCovered(d, insns, states, preserved, k - 1);
      assert insns[..k][..k - 1] == insns[..k - 1];
      assert Steps(insns[k - 1], states[k - 1], states[k - 1 + 1], preserved);
      ApplySound(insns[k - 1], DomainAfter(d, insns[..k - 1]), states[k - 1], states[k], preserved);
    }
  }

  /** The verdict on the k-th instruction fits what is compared in front of it. */
  ghost predicate FitsAt(d: Domain, insns: seq<Instruction>, k: nat) {
    && k < |insns| && IsFlagBranch(insns[k].mnemonic)
    && (k > 0 ==> VerdictFits(insns[k].mnemonic, insns[k - 1], DomainAfter(d, insns[..k])))
  }

  /** Verdicts that fit agree with every run. */
  lemma BlockVerdictRight(d: Domain, insns: seq<Instruction>, states: seq<State>,
      preserved: set<Register>, k: nat)
    requires RunsInto(insns, states, preserved) && SafeAlong(d, insns, preserved)
    requires Covers(d, states[0]) && FitsAt(d, insns, k) && k < |states|
    ensures VerdictAt(d, insns, k).AlwaysTrue? ==> Taken(insns[k].mnemonic, states[k])
    ensures VerdictAt(d, insns, k).AlwaysFalse? ==> !Taken(insns[k].mnemonic, states[k])
  {
    PrefixCovered(d, insns, states, preserved, k);
    if k > 0 {
      assert Steps(insns[k - 1], states[k - 1], states[k - 1 + 1], preserved);
      VerdictRight(insns[k].mnemonic, insns[k - 1], DomainAfter(d, insns[..k]), states[k - 1], states[k], preserved);
    }
  }

  // ----- A call in between -----

  /** xor eax, eax; call f; test eax, eax; jz L */
  const CALL_BLOCK: seq<Instruction> := [
    Instruction(0x1000, 2, XOR, General, [RegOp(EAX, false, true), RegOp(EAX, false, false)]),
    Instruction(0x1002, 5, OTHER, Call, [ImmOp(0x100)]),
    Instruction(0x1007, 2, TEST, General, [RegOp(EAX, false, false), RegOp(EAX, false, false)]),
    Instruction(0x1009, 2, JZ, CondBranch, [ImmOp(0x20)])
  ]

  /** The run in which f returns 1. */
  function CallStates(): seq<State> {
    var zero := State((r: Register) => 0, true, false);
    var one := State((r: Register) => if r == EAX then 1 else 0, false, false);
    [zero, zero, one, one, one]
  }

  lemma CallBlockDomain(k: nat)
    requires 1 <= k <= 3
    ensures DomainAfter(map[], CALL_BLOCK[..k]) == map[EAX := Constant(0)]
  {
    var insns := CALL_BLOCK[..k];
    assert insns[..k - 1] == CALL_BLOCK[..k - 1];
    if k == 1 {
      assert DomainAfter(map[], insns[..0]) == map[];
    } else {
      CallBlockDomain(k - 1);
      assert !insns[k - 1].MayWrite(EAX);
    }
  }

  lemma CallStep(k: nat, preserved: set<Register>)
    requires k < 4 && EAX !in preserved
    ensures Steps(CALL_BLOCK[k], CallStates()[k], CallStates()[k + 1], preserved)
  {
    hide WordAnd, WordXor;
    var i, s, t := CALL_BLOCK[k], CallStates()[k], CallStates()[k + 1];
    if k == 0 {
      WordXorSelf(0);
    } else if k == 1 {
      assert i.MayChange(EAX, preserved);
    } else {
      WordAndSelf(1);
    }
    assert Executes(i, s, t, 0, 0, preserved);
  }

  /** A wrong verdict across a call: the branch is said always to be taken, although f may
      return something else than 0. The call is not safe. */
  lemma CallBreaksVerdict(preserved: set<Register>)
    requires EAX !in preserved
    ensures VerdictAt(map[], CALL_BLOCK, 3).AlwaysTrue?
    ensures IsRun(CALL_BLOCK, CallStates(), preserved) && !Taken(JZ, CallStates()[3])
    ensures !Safe(CALL_BLOCK[1], DomainAfter(map[], CALL_BLOCK[..1]), preserved)
  {
    forall k | 0 <= k < 4 ensures Steps(CALL_BLOCK[k], CallStates()[k], CallStates()[k + 1], preserved) {
      CallStep(k, preserved);
    }
    assert IsRun(CALL_BLOCK, CallStates(), preserved);
    CallBlockDomain(1);
    CallBlockDomain(3);
    hide IsRun, DomainAfter;
    assert CALL_BLOCK[1].MayChange(EAX, preserved) && EAX in Applied(CALL_BLOCK[1], map[EAX := Constant(0)]);
  }

  // ----- The walk as a loop -----

  /** Some branch among the first n instructions got a verdict. */
  ghost predicate AnyVerdict(d: Domain, insns: seq<Instruction>, n: nat)
    requires n <= |insns|
  {
    exists k :: 0 <= k < n && !VerdictAt(d, insns, k).Unknown?
  }

  lemma WalkBegin(d: Domain, insns: seq<Instruction>, results: map<Address, bool>)
    ensures !AnyVerdict(d, insns, 0) && ResultsAfter(d, insns, 0, results) == results
    ensures DomainAfter(d, insns[..0]) == d
  {
    assert insns[..0] == [];
  }

  lemma WalkNext(code: Code, lo: Address, hi: Address, d: Domain, insns: seq<Instruction>, n: nat,
      results: map<Address, bool>)
    requires n <= |insns| && insns[n..] == InsnsFrom(code, lo, hi)
    requires lo < hi && lo in code && code[lo].length >= 1
    ensures n < |insns| && insns[n] == code[lo] && insns[n + 1..] == InsnsFrom(code, lo + code[lo].length, hi)
    ensures DomainAfter(d, insns[..n + 1]) == Applied(insns[n], DomainAfter(d, insns[..n]))
    ensures VerdictAt(d, insns, n) ==
              if !insns[n].category.CondBranch? then Unknown
              else EvaluateBranch(insns[n].mnemonic, if n == 0 then None else Some(insns[n - 1]),
                                  DomainAfter(d, insns[..n]))
    ensures ResultsAfter(d, insns, n + 1, results) ==
              var before := ResultsAfter(d, insns, n, results);
              var v := VerdictAt(d, insns, n);
              if v.Unknown? then before else before[insns[n].address := v.AlwaysTrue?]
    ensures AnyVerdict(d, insns, n + 1) == (AnyVerdict(d, insns, n) || !VerdictAt(d, insns, n).Unknown?)
  {
    assert insns[n..][0] == insns[n] && insns[n..][1..] == insns[n + 1..];
    assert insns[..n + 1][..n] == insns[..n];
  }

  /** The addresses are those of the results, and the flag tells whether there are any. */
  ghost predicate Flagged(fn: Function)
    reads fn`hasOpaquePredicates, fn`opaquePredicateAddresses, fn`opaquePredicateResults
  {
    && fn.opaquePredicateAddresses == fn.opaquePredicateResults.Keys
    && (fn.hasOpaquePredicates <==> fn.opaquePredicateResults != map[])
  }

  method EnterVerdict(fn: Function, a: Address, pred: PredicateResult)
    modifies fn`hasOpaquePredicates, fn`opaquePredicateAddresses, fn`opaquePredicateResults
    ensures fn.hasOpaquePredicates == (old(fn.hasOpaquePredicates) || !pred.Unknown?)
    ensures fn.opaquePredicateAddresses == old(fn.opaquePredicateAddresses) + if pred.Unknown? then {} else {a}
    ensures fn.opaquePredicateResults ==
            if pred.Unknown? then old(fn.opaquePredicateResults)
            else old(fn.opaquePredicateResults)[a := pred.AlwaysTrue?]
    ensures old(Flagged(fn)) ==> Flagged(fn)
  {
    if pred.AlwaysTrue? || pred.AlwaysFalse? {
      fn.hasOpaquePredicates := true;
      fn.opaquePredicateAddresses := fn.opaquePredicateAddresses + {a};
      fn.opaquePredicateResults := fn.opaquePredicateResults[a := pred.AlwaysTrue?];
    }
  }

  /** Analyses one block from an incoming domain and enters its verdicts in the function. */
  method AnalyzeBasicBlock(bb: BasicBlock, fn: Function, code: Code, incoming: Domain) returns (domain: Domain)
    requires WellAddressed(code)
    modifies fn`hasOpaquePredicates, fn`opaquePredicateAddresses, fn`opaquePredicateResults
    ensures var insns := InsnsFrom(code, bb.startAddress, bb.endAddress);
            && domain == DomainAfter(incoming, insns)
            && fn.opaquePredicateResults == ResultsAfter(incoming, insns, |insns|, old(fn.opaquePredicateResults))
            && fn.hasOpaquePredicates == (old(fn.hasOpaquePredicates) || AnyVerdict(incoming, insns, |insns|))
    ensures old(Flagged(fn)) ==> Flagged(fn)
  {
    domain := incoming;
    var addr, end := bb.startAddress, bb.endAddress;
    var prev: Option<Instruction> := None;
    hide AnyVerdict, Applied, EvaluateBranch, ResultsAfter, VerdictAt, DomainAfter, Flagged;
    ghost var insns, n := InsnsFrom(code, addr, end), 0;
    WalkBegin(incoming, insns, fn.opaquePredicateResults);
    while addr < end && addr in code
      invariant n <= |insns| && insns[n..] == InsnsFrom(code, addr, end)
      invariant prev == if n == 0 then None else Some(insns[n - 1])
      invariant domain == DomainAfter(incoming, insns[..n])
      invariant fn.opaquePredicateResults == ResultsAfter(incoming, insns, n, old(fn.opaquePredicateResults))
      invariant fn.hasOpaquePredicates == (old(fn.hasOpaquePredicates) || AnyVerdict(incoming, insns, n))
      invariant old(Flagged(fn)) ==> Flagged(fn)
      decreases end - addr
    {
      var insn := code[addr];
      WalkNext(code, addr, end, incoming, insns, n, old(fn.opaquePredicateResults));
      if insn.category.CondBranch? {
        EnterVerdict(fn, insn.address, EvaluateBranch(insn.mnemonic, prev, domain));
      }
      domain := ApplyInstruction(insn, domain);
      prev := Some(insn);
      addr := addr + insn.length;
      n := n + 1;
    }
    assert n == |insns| && insns[..n] == insns;
  }

  // ----- All blocks of a function -----

  /** The domain in which block k is analysed: what the blocks before it in the list left. */
  ghost function DomainBefore(bs: seq<Block>, code: Code, k: nat): Domain
    requires k <= |bs|
  {
    if k == 0 then map[] else DomainAfter(DomainBefore(bs, code, k - 1), InsnsOf(code, bs[k - 1]))
  }

  /** The results with those of the first n blocks entered. */
  ghost function FunctionResults(bs: seq<Block>, code: Code, n: nat, results: map<Address, bool>): map<Address, bool>
    requires n <= |bs|
  {
    if n == 0 then results
    else
      var insns := InsnsOf(code, bs[n - 1]);
      ResultsAfter(DomainBefore(bs, code, n - 1), insns, |insns|, FunctionResults(bs, code, n - 1, results))
  }

  ghost predicate AnyVerdictIn(bs: seq<Block>, code: Code, n: nat)
    requires n <= |bs|
  {
    exists k :: 0 <= k < n && AnyVerdict(DomainBefore(bs, code, k), InsnsOf(code, bs[k]), |InsnsOf(code, bs[k])|)
  }

  lemma NoneBefore(bs: seq<Block>, code: Code, results: map<Address, bool>)
    ensures DomainBefore(bs, code, 0) == map[] && FunctionResults(bs, code, 0, results) == results
    ensures !AnyVerdictIn(bs, code, 0)
  {
  }

  /** What block n adds, when the blocks before it have been analysed. */
  lemma BlockNext(bs: seq<Block>, code: Code, n: nat, results: map<Address, bool>)
    requires n < |bs|
    ensures var d, insns := DomainBefore(bs, code, n), InsnsFrom(code, bs[n].start, bs[n].end);
            && DomainBefore(bs, code, n + 1) == DomainAfter(d, insns)
            && FunctionResults(bs, code, n + 1, results)
               == ResultsAfter(d, insns, |insns|, FunctionResults(bs, code, n, results))
            && (AnyVerdictIn(bs, code, n + 1) <==> AnyVerdictIn(bs, code, n) || AnyVerdict(d, insns, |insns|))
  {
    hide AnyVerdict, DomainAfter, ResultsAfter, InsnsFrom;
  }

  /** Analyses the blocks in the order of the list, each in the domain that the one before it
      left. */
  method AnalyzeFunction(fn: Function, code: Code)
    requires WellAddressed(code)
    modifies fn`hasOpaquePredicates, fn`opaquePredicateAddresses, fn`opaquePredicateResults
    ensures var bs := fn.Views();
            && fn.opaquePredicateResults == FunctionResults(bs, code, |bs|, old(fn.opaquePredicateResults))
            && fn.hasOpaquePredicates == (old(fn.hasOpaquePredicates) || AnyVerdictIn(bs, code, |bs|))
    ensures old(Flagged(fn)) ==> Flagged(fn)
  {
    hide AnyVerdict, ResultsAfter, DomainAfter, Flagged, InsnsFrom, WellAddressed;
    hide AnyVerdictIn, DomainBefore, FunctionResults;
    var currentDomain := map[];
    ghost var bs := fn.Views();
    NoneBefore(bs, code, fn.opaquePredicateResults);
    for i := 0 to |fn.basicBlocks|
      invariant fn.Views() == bs
      invariant currentDomain == DomainBefore(bs, code, i)
      invariant fn.opaquePredicateResults == FunctionResults(bs, code, i, old(fn.opaquePredicateResults))
      invariant fn.hasOpaquePredicates == (old(fn.hasOpaquePredicates) || AnyVerdictIn(bs, code, i))
      invariant old(Flagged(fn)) ==> Flagged(fn)
    {
      assert bs[i] == fn.basicBlocks[i].View();
      BlockNext(bs, code, i, old(fn.opaquePredicateResults));
      currentDomain := AnalyzeBasicBlock(fn.basicBlocks[i], fn, code, currentDomain);
    }
  }

  // ----- Where the results come from -----

  /** The walk through a block changes the result at an address only by a verdict there. */
  lemma {:induction false} ResultElsewhere(d: Domain, insns: seq<Instruction>, n: nat,
      results: map<Address, bool>, a: Address)
    requires n <= |insns|
    requires forall k :: 0 <= k < n && insns[k].address == a ==> VerdictAt(d, insns, k).Unknown?
    ensures a in ResultsAfter(d, insns, n, results) <==> a in results
    ensures a in results ==> ResultsAfter(d, insns, n, results)[a] == results[a]
  {
    hide VerdictAt;
    if n > 0 {
      ResultElsewhere(d, insns, n - 1, results, a);
    }
  }

  /** With distinct addresses, each verdict of the walk is the result at its address. */
  lemma {:induction false} ResultEntered(d: Domain, insns: seq<Instruction>, n: nat,
      results: map<Address, bool>, k: nat)
    requires k < n <= |insns| && !VerdictAt(d, insns, k).Unknown?
    requires forall j :: k < j < |insns| ==> insns[k].address < insns[j].address
    ensures insns[k].address in ResultsAfter(d, insns, n, results)
    ensures ResultsAfter(d, insns, n, results)[insns[k].address] == VerdictAt(d, insns, k).AlwaysTrue?
  {
    hide VerdictAt;
    if k < n - 1 {
      ResultEntered(d, insns, n - 1, results, k);
    }
  }

  /** Other blocks have no say at an address in block k. */
  lemma {:induction false} OtherBlocks(bs: seq<Block>, code: Code, m: nat, n: nat,
      results: map<Address, bool>, k: nat, a: Address)
    requires Separate(bs) && WellAddressed(code)
    requires k < |bs| && bs[k].Holds(a) && m <= n <= |bs| && (n <= k || k < m)
    ensures var before, after := FunctionResults(bs, code, m, results), FunctionResults(bs, code, n, results);
            (a in after <==> a in before) && (a in before ==> after[a] == before[a])
    decreases n
  {
    hide ResultsAfter, DomainBefore;
    if m < n {
      OtherBlocks(bs, code, m, n - 1, results, k, a);
      var insns := InsnsOf(code, bs[n - 1]);
      InsnsAscend(code, bs[n - 1].start, bs[n - 1].end);
      assert !bs[n - 1].Holds(a);
      ResultElsewhere(DomainBefore(bs, code, n - 1), insns, |insns|, FunctionResults(bs, code, n - 1, results), a);
    }
  }

  /** A block whose only conditional branch is its last instruction has at most one result
      after the whole analysis: the verdict on that branch, if there is one. */
  lemma OneResult(bs: seq<Block>, code: Code, k: nat, a: Address)
    requires Separate(bs) && WellAddressed(code) && k < |bs| && bs[k].Holds(a)
    requires var insns := InsnsOf(code, bs[k]);
             insns != [] && forall i :: 0 <= i < |insns| - 1 ==> !insns[i].category.CondBranch?
    ensures var insns, d := InsnsOf(code, bs[k]), DomainBefore(bs, code, k);
            var results := FunctionResults(bs, code, |bs|, map[]);
            var verdict := VerdictAt(d, insns, |insns| - 1);
            && (a in results <==> a == insns[|insns| - 1].address && !verdict.Unknown?)
            && (a in results ==> results[a] == verdict.AlwaysTrue?)
  {
    hide DomainAfter, EvaluateBranch, ResultsAfter;
    var insns, d := InsnsOf(code, bs[k]), DomainBefore(bs, code, k);
    InsnsAscend(code, bs[k].start, bs[k].end);
    OtherBlocks(bs, code, 0, k, map[], k, a);
    OtherBlocks(bs, code, k + 1, |bs|, map[], k, a);
    var n := |insns| - 1;
    var before := FunctionResults(bs, code, k, map[]);
    if a == insns[n].address && !VerdictAt(d, insns, n).Unknown? {
      ResultEntered(d, insns, |insns|, before, n);
    } else {
      ResultElsewhere(d, insns, |insns|, before, a);
    }
  }

  /** So such a branch at the end of a separate block has a result, whatever else is analysed. */
  lemma ResultGiven(bs: seq<Block>, code: Code, k: nat, r: Register, v: Word, preserved: set<Register>)
    requires Separate(bs) && WellAddressed(code) && k < |bs|
    requires var insns := InsnsOf(code, bs[k]);
             && |insns| >= 2 && insns[|insns| - 1].category.CondBranch?
             && insns[|insns| - 1].mnemonic in {JZ, JNZ, JS, JNS}
             && forall i :: 0 <= i < |insns| - 1 ==> !insns[i].category.CondBranch?
    requires var insns := InsnsOf(code, bs[k]);
             var n := |insns| - 1;
             var d := DomainAfter(DomainBefore(bs, code, k), insns[..n]);
             && Compares(insns[n - 1], r) && VerdictFits(insns[n].mnemonic, insns[n - 1], d)
             && AllInhabited(d) && KnowsWord(d, r, v)
    ensures var insns, results := InsnsOf(code, bs[k]), FunctionResults(bs, code, |bs|, map[]);
            var n := |insns| - 1;
            var x, d := insns[n].address, DomainAfter(DomainBefore(bs, code, k), insns[..n]);
            && x in results
            && (results[x] <==> forall t :: Behind(insns[n - 1], d, t, preserved) ==> Taken(insns[n].mnemonic, t))
  {
    var insns := InsnsOf(code, bs[k]);
    var n := |insns| - 1;
    var d := DomainAfter(DomainBefore(bs, code, k), insns[..n]);
    VerdictGiven(insns[n].mnemonic, insns[n - 1], d, r, v, preserved);
    InsnsAscend(code, bs[k].start, bs[k].end);
    OneResult(bs, code, k, insns[n].address);
  }

  // ----- Tours through the function -----

  ghost predicate SafeBlock(bs: seq<Block>, code: Code, j: nat, preserved: set<Register>) {
    j < |bs| && SafeAlong(DomainBefore(bs, code, j), InsnsOf(code, bs[j]), preserved)
  }

  /** The domain behind block j, which is the one in front of the next block of the list, hands on
      to the one in front of block k. */
  ghost predicate HandsOnTo(bs: seq<Block>, code: Code, j: nat, k: nat) {
    j < |bs| && k < |bs| && HandsOn(DomainBefore(bs, code, j + 1), DomainBefore(bs, code, k))
  }

  /** On the way of a tour every step is safe, and every block that is left for another one hands
      on what the other one is analysed in. */
  ghost predicate SafeTour(bs: seq<Block>, code: Code, t: Tour, preserved: set<Register>)
    requires IsTour(bs, code, t, preserved)
  {
    && (forall i :: 0 <= i < |t.walk| ==> SafeBlock(bs, code, t.walk[i], preserved))
    && (forall i :: 0 <= i < |t.walk| - 1 ==> HandsOnTo(bs, code, t.walk[i], t.walk[i + 1]))
  }

  /** The same for all blocks that the entry block reaches, and all edges between them. */
  ghost predicate SafeFunction(bs: seq<Block>, code: Code, preserved: set<Register>) {
    && (forall j: nat :: BlockReach(bs, 0, j) && j < |bs| ==> SafeBlock(bs, code, j, preserved))
    && (forall j, k: nat :: BlockReach(bs, 0, j) && Edge(bs, j, k) ==> HandsOnTo(bs, code, j, k))
  }

  lemma SafeFunctionTours(bs: seq<Block>, code: Code, t: Tour, preserved: set<Register>)
    requires SafeFunction(bs, code, preserved) && IsTour(bs, code, t, preserved)
    ensures SafeTour(bs, code, t, preserved)
  {
    hide SafeBlock, HandsOnTo;
    forall i | 0 <= i < |t.walk| ensures SafeBlock(bs, code, t.walk[i], preserved) {
      assert RunsThrough(bs, code, t, preserved, i);
      TourReaches(bs, code, t, preserved, i);
    }
    forall i | 0 <= i < |t.walk| - 1 ensures HandsOnTo(bs, code, t.walk[i], t.walk[i + 1]) {
      assert GoesOn(bs, code, t, i);
      TourReaches(bs, code, t, preserved, i);
    }
  }

  /** On such a tour every block is entered in a state that the domain in front of it covers. */
  lemma {:induction false} TourCovered(bs: seq<Block>, code: Code, t: Tour, preserved: set<Register>, i: nat)
    requires IsTour(bs, code, t, preserved) && SafeTour(bs, code, t, preserved) && i < |t.walk|
    ensures t.walk[i] < |bs| && t.runs[i] != [] && Covers(DomainBefore(bs, code, t.walk[i]), t.runs[i][0])
  {
    assert RunsThrough(bs, code, t, preserved, i);
    if i > 0 {
      var j, run := t.walk[i - 1], t.runs[i - 1];
      TourCovered(bs, code, t, preserved, i - 1);
      assert RunsThrough(bs, code, t, preserved, i - 1) && GoesOn(bs, code, t, i - 1);
      assert SafeBlock(bs, code, j, preserved) && HandsOnTo(bs, code, t.walk[i - 1], t.walk[i - 1 + 1]);
      var insns := InsnsOf(code, bs[j]);
      PrefixCovered(DomainBefore(bs, code, j), insns, run, preserved, |insns|);
      assert insns[..|insns|] == insns;
      HandsOnCovers(DomainBefore(bs, code, j + 1), DomainBefore(bs, code, t.walk[i]), t.runs[i][0]);
    }
  }

  /** So on every such tour, verdicts that fit agree with what is executed. */
  lemma TourVerdictRight(bs: seq<Block>, code: Code, t: Tour, preserved: set<Register>, i: nat, n: nat)
    requires IsTour(bs, code, t, preserved) && SafeTour(bs, code, t, preserved)
    requires i < |t.walk| && t.walk[i] < |bs| && n < |InsnsOf(code, bs[t.walk[i]])| && n < |t.runs[i]|
    requires FitsAt(DomainBefore(bs, code, t.walk[i]), InsnsOf(code, bs[t.walk[i]]), n)
    ensures var verdict := VerdictAt(DomainBefore(bs, code, t.walk[i]), InsnsOf(code, bs[t.walk[i]]), n);
            var branch, s := InsnsOf(code, bs[t.walk[i]])[n].mnemonic, t.runs[i][n];
            (verdict.AlwaysTrue? ==> Taken(branch, s)) && (verdict.AlwaysFalse? ==> !Taken(branch, s))
  {
    TourCovered(bs, code, t, preserved, i);
    assert RunsThrough(bs, code, t, preserved, i) && SafeBlock(bs, code, t.walk[i], preserved);
    hide IsTour, SafeTour, DomainBefore, VerdictAt, Taken, FitsAt;
    BlockVerdictRight(DomainBefore(bs, code, t.walk[i]), InsnsOf(code, bs[t.walk[i]]), t.runs[i], preserved, n);
  }
}
