/** Constant tracking of registers through a block, and the indirect calls and jumps it
    resolves. */
module DataFlow {
  import opened Blocks
  import opened ControlFlow
  import opened Options
  import opened Words
  import opened Instructions
  import opened Machine
  import opened Tours
  import opened Functions

  /** The unsigned reading of a word. */
  type UnsignedWord = x: int | 0 <= x < TWO64

  datatype RegisterState = RegisterState(defAddress: Address, knownValue: UnsignedWord, isKnown: bool)

  type RegisterFile = map<Register, RegisterState>

  // ----- Which instructions define a constant -----

  /** The constant that the instruction is known to put into its first operand, as an
      unsigned 64-bit value. Loads from memory are not among them: the branch for them
      stands behind one for the same mnemonic. */
  function DefinedConstant(i: Instruction): Option<UnsignedWord> {
    var dst, src := i.Op(0), i.Op(1);
    if !dst.RegOp? then None
    else match i.mnemonic
      case MOV => if src.ImmOp? then Some(Unsigned(src.value)) else None
      case LEA => if i.KnownAddress(src).Some? then Some(Unsigned(i.KnownAddress(src).value)) else None
      case XOR => if src.RegOp? && src.reg == dst.reg then Some(0) else None
      case _ => None
  }

  predicate Defines(i: Instruction, r: Register) {
    DefinedConstant(i).Some? && i.Op(0).reg == r
  }

  // ----- The transfer function -----

  function Define(i: Instruction, regs: RegisterFile): RegisterFile {
    var c := DefinedConstant(i);
    if c.Some? then regs[i.Op(0).reg := RegisterState(i.address, c.value, true)] else regs
  }

  /** A written register is forgotten unless its entry was made at this address. */
  ghost function Applied(i: Instruction, regs: RegisterFile): RegisterFile {
    var defined := Define(i, regs);
    map r | r in defined && (i.MayWrite(r) ==> defined[r].defAddress == i.address) :: defined[r]
  }

  method ApplyInstruction(i: Instruction, incoming: RegisterFile) returns (regs: RegisterFile)
    ensures regs == Applied(i, incoming)
  {
    var defined := Define(i, incoming);
    regs := defined;
    for k := 0 to |i.operands|
      invariant regs == map r | r in defined
                                && (i.WritesBefore(r, k) ==> defined[r].defAddress == i.address) :: defined[r]
    {
      if i.Writes(k) {
        var r := i.operands[k].reg;
        if r in regs && regs[r].defAddress != i.address {
          regs := regs - {r};
        }
      }
    }
  }

  // ----- Soundness -----

  /** Every entry was made by an instruction of the code that defines its register. */
  ghost predicate Traced(regs: RegisterFile, code: Code) {
    forall r :: r in regs ==> regs[r].defAddress in code && Defines(code[regs[r].defAddress], r)
  }

  /** Every known value is what the machine holds. */
  ghost predicate Matches(regs: RegisterFile, s: State) {
    forall r :: r in regs && regs[r].isKnown ==> regs[r].knownValue == Unsigned(s.regs(r))
  }

  lemma DefinedIsHeld(i: Instruction, s: State, t: State, preserved: set<Register>)
    requires Steps(i, s, t, preserved) && DefinedConstant(i).Some?
    ensures Unsigned(t.regs(i.Op(0).reg)) == DefinedConstant(i).value
    ensures SameButFor(s, t, i.Op(0).reg)
  {
    hide WordXor;
    WordXorSelf(s.regs(i.Op(0).reg));
  }

  /** An instruction changes only registers that it lists as written, or that what runs before
      control is back does not preserve. */
  lemma OnlyChanged(i: Instruction, s: State, t: State, r: Register, preserved: set<Register>)
    requires i.Listed() && Steps(i, s, t, preserved) && !i.MayChange(r, preserved)
    ensures t.regs(r) == s.regs(r)
  {
    hide Result;
    if i.mnemonic in {MOV, LEA, XOR, ADD, SUB, AND, SHL, SHR} && i.Op(0).RegOp? {
      assert i.Writes(0) && i.operands[0] == i.Op(0);
      assert r != i.Op(0).reg;
    }
  }

  /** The guard: no value is known in a register that a call, or a system call, need not
      preserve and does not list as written. */
  ghost predicate Keepable(i: Instruction, regs: RegisterFile, preserved: set<Register>) {
    i.Leaves() ==> forall r :: r in regs && regs[r].isKnown && !i.MayWrite(r) ==> r in preserved
  }

  /** One instruction of the code keeps both. No form of operand is excepted: what is not
      tracked is forgotten, and an entry survives its own register being written only if
      this very instruction defines it. */
  lemma ApplyKeeps(i: Instruction, regs: RegisterFile, code: Code, s: State, t: State, preserved: set<Register>)
    requires WellAddressed(code) && i.address in code && code[i.address] == i && i.Listed()
    requires Traced(regs, code) && Matches(regs, s) && Steps(i, s, t, preserved) && Keepable(i, regs, preserved)
    ensures Traced(Applied(i, regs), code) && Matches(Applied(i, regs), t)
  {
    hide Steps;
    var after := Applied(i, regs);
    forall r | r in after && after[r].isKnown ensures after[r].knownValue == Unsigned(t.regs(r)) {
      if Defines(i, r) {
        DefinedIsHeld(i, s, t, preserved);
      } else {
        // the entry is an older one, so it was not made at this address
        assert r in regs && after[r] == regs[r];
        assert Defines(code[regs[r].defAddress], r);
        OnlyChanged(i, s, t, r, preserved);
      }
    }
  }

  /** The instruction keeps every known value right. */
  ghost predicate KeepsMatching(i: Instruction, regs: RegisterFile, preserved: set<Register>) {
    forall s, t :: Matches(regs, s) && Steps(i, s, t, preserved) ==> Matches(Applied(i, regs), t)
  }

  function Signed(v: UnsignedWord): (w: Word)
    ensures Unsigned(w) == v
  {
    if v < TWO63 then v else v - TWO64
  }

  /** A state that the register file matches. */
  function MatchingState(regs: RegisterFile): State {
    State((r: Register) => if r in regs && regs[r].isKnown then Signed(regs[r].knownValue) else 0, false, false)
  }

  /** A value that is known in a register which need not be preserved may be wrong afterwards. */
  lemma KnownIsLost(i: Instruction, regs: RegisterFile, r: Register, preserved: set<Register>)
    requires i.Listed() && i.Leaves() && r in regs && regs[r].isKnown && !i.MayWrite(r) && r !in preserved
    ensures !KeepsMatching(i, regs, preserved)
  {
    var s := MatchingState(regs);
    var held: Register -> Word := s.regs;
    var v: Word := if held(r) == 0 then 1 else 0;
    var t := State((q: Register) => if q == r then v else held(q), false, false);
    assert i.MayChange(r, preserved);
    assert Matches(regs, s) && Executes(i, s, t, 0, 0, preserved) && Steps(i, s, t, preserved);
    assert DefinedConstant(i).None? && r in Applied(i, regs) && !Matches(Applied(i, regs), t);
  }

  /** The guard is exact: an instruction keeps the known values right exactly when it is none
      that control leaves at, or no value is known that it may lose. */
  lemma KeepsExact(i: Instruction, regs: RegisterFile, code: Code, preserved: set<Register>)
    requires WellAddressed(code) && i.address in code && code[i.address] == i && i.Listed() && Traced(regs, code)
    ensures KeepsMatching(i, regs, preserved) <==> Keepable(i, regs, preserved)
  {
    hide Steps, Matches;
    if Keepable(i, regs, preserved) {
      forall s, t | Matches(regs, s) && Steps(i, s, t, preserved) ensures Matches(Applied(i, regs), t) {
        ApplyKeeps(i, regs, code, s, t, preserved);
      }
    } else {
      var r :| r in regs && regs[r].isKnown && !i.MayWrite(r) && r !in preserved;
      KnownIsLost(i, regs, r, preserved);
    }
  }

  // ----- Handing a register file on -----

  /** Whatever is known in the second one is known to be the same in the first. */
  ghost predicate HandsOn(d: RegisterFile, e: RegisterFile) {
    forall r :: r in e && e[r].isKnown ==> r in d && d[r].isKnown && d[r].knownValue == e[r].knownValue
  }

  lemma HandsOnMatches(d: RegisterFile, e: RegisterFile, s: State)
    requires HandsOn(d, e) && Matches(d, s)
    ensures Matches(e, s)
  {
  }

  /** That is the exact condition under which a state that matches the first matches the second. */
  lemma HandsOnExact(d: RegisterFile, e: RegisterFile)
    ensures HandsOn(d, e) <==> forall s :: Matches(d, s) ==> Matches(e, s)
  {
    if HandsOn(d, e) {
      forall s | Matches(d, s) ensures Matches(e, s) {
        HandsOnMatches(d, e, s);
      }
    } else {
      var r :| r in e && e[r].isKnown && !(r in d && d[r].isKnown && d[r].knownValue == e[r].knownValue);
      var s := MatchingState(d);
      var held: Register -> Word := s.regs;
      var v: Word := if r in d && d[r].isKnown then held(r) else if e[r].knownValue == 0 then 1 else 0;
      var t := State((q: Register) => if q == r then v else held(q), false, false);
      assert Matches(d, t) && t.regs(r) == v;
      assert Unsigned(v) != e[r].knownValue && !Matches(e, t);
    }
  }

  // ----- Constants that are found -----

  /** After every step of the instruction, from whatever state, the register that it stores its result
      in holds this word. */
  ghost predicate Forces(i: Instruction, r: Register, v: Word) {
    && i.mnemonic in {MOV, LEA, XOR} && i.Op(0).RegOp? && i.Op(0).reg == r
    && forall s, t, preserved :: Steps(i, s, t, preserved) ==> t.regs(r) == v
  }

  lemma XorOther(y: Word, v: Word) returns (x: Word)
    ensures WordXor(x, y) != v
  {
    x := if v == 0 then -1 - y else y;
    WordXorNot(y);
    WordXorSelf(y);
    hide WordXor;
  }

  lemma OtherXor(i: Instruction, r: Register, v: Word, preserved: set<Register>) returns (s: State, t: State)
    requires i.mnemonic.XOR? && i.Op(0).RegOp? && i.Op(0).reg == r && !(i.Op(1).RegOp? && i.Op(1).reg == r)
    ensures Steps(i, s, t, preserved) && t.regs(r) != v
  {
    hide WordXor;
    var src := i.Op(1);
    var y: Word := if src.ImmOp? then src.value else 0;
    var x := XorOther(y, v);
    var q, w := if src.RegOp? then src.reg else r, WordXor(x, y);
    s, t := Holding(r, x, q, y), Holding(r, w, q, y);
    assert Value(src, s, y) == y && Result(XOR, x, y) == w;
    assert Executes(i, s, t, y, 0, preserved);
  }

  lemma OtherMove(i: Instruction, r: Register, v: Word, preserved: set<Register>) returns (s: State, t: State)
    requires i.mnemonic.MOV? && i.Op(0).RegOp? && i.Op(0).reg == r && !i.Op(1).ImmOp?
    ensures Steps(i, s, t, preserved) && t.regs(r) != v
  {
    var w: Word := if v == 0 then -1 else 0;
    var src := i.Op(1);
    s := if src.RegOp? then Holding(src.reg, w, src.reg, w) else Holding(r, 0, r, 0);
    t := if src.RegOp? then Holding(r, w, src.reg, w) else Holding(r, w, r, w);
    assert Executes(i, s, t, w, w, preserved);
  }

  lemma OtherAddress(i: Instruction, r: Register, v: Word, preserved: set<Register>) returns (s: State, t: State)
    requires i.mnemonic.LEA? && i.Op(0).RegOp? && i.Op(0).reg == r && i.KnownAddress(i.Op(1)).None?
    ensures Steps(i, s, t, preserved) && t.regs(r) != v
  {
    var w: Word := if v == 0 then -1 else 0;
    s := Holding(r, 0, r, 0);
    t := Holding(r, w, r, w);
    assert Executes(i, s, t, w, w, preserved);
  }

  /** Where no constant is defined, some step leaves another word. */
  lemma OtherWord(i: Instruction, r: Register, v: Word, preserved: set<Register>) returns (s: State, t: State)
    requires i.mnemonic in {MOV, LEA, XOR} && i.Op(0).RegOp? && i.Op(0).reg == r && DefinedConstant(i).None?
    ensures Steps(i, s, t, preserved) && t.regs(r) != v
  {
    hide Steps;
    if i.mnemonic.XOR? {
      s, t := OtherXor(i, r, v, preserved);
    } else if i.mnemonic.MOV? {
      s, t := OtherMove(i, r, v, preserved);
    } else {
      s, t := OtherAddress(i, r, v, preserved);
    }
  }

  lemma DefinedWord(i: Instruction, r: Register, preserved: set<Register>) returns (s: State, t: State)
    requires DefinedConstant(i).Some? && i.Op(0).reg == r
    ensures Steps(i, s, t, preserved)
  {
    s := Holding(r, 0, r, 0);
    WordXorSelf(0);
    hide WordXor;
    var src := i.Op(1);
    var v: Word := if i.mnemonic.MOV? then src.value else if i.mnemonic.LEA? then i.KnownAddress(src).value else 0;
    t := Holding(r, v, r, v);
    assert Executes(i, s, t, 0, 0, preserved);
  }

  /** A word that an instruction forces into a register is known afterwards. */
  lemma ForcedIsKnown(i: Instruction, regs: RegisterFile, r: Register, v: Word)
    requires i.Listed() && Forces(i, r, v)
    ensures r in Applied(i, regs) && Applied(i, regs)[r].isKnown && Applied(i, regs)[r].knownValue == Unsigned(v)
  {
    if DefinedConstant(i).None? {
      var s, t := OtherWord(i, r, v, {});
    } else {
      var s, t := DefinedWord(i, r, {});
      DefinedIsHeld(i, s, t, {});
    }
  }

  lemma DefinesWrites(i: Instruction, r: Register)
    requires i.Listed()
    ensures Defines(i, r) ==> i.MayWrite(r)
  {
    assert Defines(i, r) ==> i.Writes(0) && i.operands[0].reg == r;
  }

  /** What is known of a register that the instruction does not write stays. */
  lemma UnwrittenStays(i: Instruction, regs: RegisterFile, r: Register)
    requires i.Listed() && !i.MayWrite(r)
    ensures r in Applied(i, regs) <==> r in regs
    ensures r in regs ==> Applied(i, regs)[r] == regs[r]
  {
    DefinesWrites(i, r);
  }

  // ----- The walk through a block -----

  ghost function RegistersAfter(regs: RegisterFile, insns: seq<Instruction>): RegisterFile {
    if insns == [] then regs else Applied(insns[|insns| - 1], RegistersAfter(regs, insns[..|insns| - 1]))
  }

  /** The target found for an indirect call or jump through a register. */
  function ResolvedTarget(i: Instruction, regs: RegisterFile): Option<UnsignedWord> {
    if !(i.category.Call? || i.category.UncondBranch? || i.category.CondBranch?) || !i.Op(0).RegOp? then None
    else
      var r := i.Op(0).reg;
      if r in regs && regs[r].isKnown && regs[r].knownValue != 0 then Some(regs[r].knownValue) else None
  }

  ghost predicate InCode(insns: seq<Instruction>, code: Code) {
    forall k :: 0 <= k < |insns| ==> insns[k].address in code && code[insns[k].address] == insns[k] && insns[k].Listed()
  }

  lemma {:induction false} InsnsFromCode(code: Code, lo: Address, hi: Address)
    requires WellAddressed(code) && forall a :: a in code ==> code[a].Listed()
    ensures InCode(InsnsFrom(code, lo, hi), code)
    decreases hi - lo
  {
    if lo < hi && lo in code {
      InsnsFromCode(code, lo + code[lo].length, hi);
    }
  }

  lemma TracedKeeps(i: Instruction, regs: RegisterFile, code: Code)
    requires WellAddressed(code) && i.address in code && code[i.address] == i && Traced(regs, code)
    ensures Traced(Applied(i, regs), code)
  {
  }

  lemma {:induction false} TracedAfter(regs: RegisterFile, insns: seq<Instruction>, code: Code)
    requires WellAddressed(code) && InCode(insns, code) && Traced(regs, code)
    ensures Traced(RegistersAfter(regs, insns), code)
  {
    hide Traced;
    if insns != [] {
      var front, last := insns[..|insns| - 1], insns[|insns| - 1];
      TracedAfter(regs, front, code);
      TracedKeeps(last, RegistersAfter(regs, front), code);
    }
  }

  /** No call on the way loses a known value. */
  ghost predicate KeepableAlong(regs: RegisterFile, insns: seq<Instruction>, preserved: set<Register>) {
    forall k :: 0 <= k < |insns| ==> Keepable(insns[k], RegistersAfter(regs, insns[..k]), preserved)
  }

  /** From a register file that matches, every prefix of the block leads to one. */
  lemma {:induction false} PrefixMatches(regs: RegisterFile, insns: seq<Instruction>, code: Code, states: seq<State>,
      preserved: set<Register>, k: nat)
    requires WellAddressed(code) && InCode(insns, code) && RunsInto(insns, states, preserved) && k < |states|
    requires Traced(regs, code) && Matches(regs, states[0]) && KeepableAlong(regs, insns, preserved)
    ensures Traced(RegistersAfter(regs, insns[..k]), code) && Matches(RegistersAfter(regs, insns[..k]), states[k])
  {
    if k > 0 {
      PrefixMatches(regs, insns, code, states, preserved, k - 1);
      assert insns[..k][..k - 1] == insns[..k - 1];
      assert Steps(insns[k - 1], states[k - 1], states[k - 1 + 1], preserved);
      ApplyKeeps(insns[k - 1], RegistersAfter(regs, insns[..k - 1]), code, states[k - 1], states[k], preserved);
    }
  }

  /** A target that is resolved at some point of the block is the one the machine goes to. */
  lemma ResolvedIsTaken(regs: RegisterFile, insns: seq<Instruction>, code: Code, states: seq<State>,
      preserved: set<Register>, k: nat)
    requires WellAddressed(code) && InCode(insns, code) && RunsInto(insns, states, preserved)
    requires k < |insns| && k < |states|
    requires Traced(regs, code) && Matches(regs, states[0]) && KeepableAlong(regs, insns, preserved)
    requires ResolvedTarget(insns[k], RegistersAfter(regs, insns[..k])).Some?
    ensures insns[k].Op(0).RegOp?
    ensures ResolvedTarget(insns[k], RegistersAfter(regs, insns[..k])).value ==
            Unsigned(states[k].regs(insns[k].Op(0).reg))
  {
    PrefixMatches(regs, insns, code, states, preserved, k);
  }

  // ----- A call in between -----

  /** mov rax, 0x401000; call f; call rax */
  const CALL_BLOCK: seq<Instruction> := [
    Instruction(0x1000, 7, MOV, General, [RegOp(RAX, false, true), ImmOp(0x401000)]),
    Instruction(0x1007, 5, OTHER, Call, [ImmOp(0x100)]),
    Instruction(0x100C, 2, OTHER, Call, [RegOp(RAX, false, false)])
  ]

  /** The run in which f returns 1. */
  function CallStates(): seq<State> {
    var zero := State((r: Register) => 0, false, false);
    var loaded := State((r: Register) => if r == RAX then 0x401000 else 0, false, false);
    var one := State((r: Register) => if r == RAX then 1 else 0, false, false);
    [zero, loaded, one, one]
  }

  lemma CallStep(k: nat, preserved: set<Register>)
    requires k < 3 && RAX !in preserved
    ensures Steps(CALL_BLOCK[k], CallStates()[k], CallStates()[k + 1], preserved)
  {
    if k == 1 {
      assert CALL_BLOCK[1].MayChange(RAX, preserved);
    }
    assert Executes(CALL_BLOCK[k], CallStates()[k], CallStates()[k + 1], 0, 0, preserved);
  }

  /** A wrong target across a call: the second call is resolved to the address that was loaded,
      although f may return something else. Only the first call is to blame. */
  lemma CallBreaksTarget(preserved: set<Register>)
    requires RAX !in preserved
    ensures ResolvedTarget(CALL_BLOCK[2], RegistersAfter(map[], CALL_BLOCK[..2])) == Some(0x401000)
    ensures IsRun(CALL_BLOCK, CallStates(), preserved) && CallStates()[2].regs(RAX) == 1
    ensures !Keepable(CALL_BLOCK[1], RegistersAfter(map[], CALL_BLOCK[..1]), preserved)
  {
    var loaded := map[RAX := RegisterState(0x1000, 0x401000, true)];
    assert CALL_BLOCK[..0] == [] && CALL_BLOCK[..1][..0] == [];
    assert RegistersAfter(map[], CALL_BLOCK[..1]) == Applied(CALL_BLOCK[0], map[]) == loaded;
    assert CALL_BLOCK[..2][..1] == CALL_BLOCK[..1];
    assert RegistersAfter(map[], CALL_BLOCK[..2]) == Applied(CALL_BLOCK[1], loaded) == loaded;
    forall k | 0 <= k < 3 ensures Steps(CALL_BLOCK[k], CallStates()[k], CallStates()[k + 1], preserved) {
      CallStep(k, preserved);
    }
  }

  // ----- What is recorded -----

  /** The call sites with the targets resolved among the first n instructions: each takes
      the place of the unresolved entry of its instruction. */
  ghost function SitesAfter(regs: RegisterFile, insns: seq<Instruction>, n: nat, sites: set<(Address, Address)>)
      : set<(Address, Address)>
    requires n <= |insns|
  {
    if n == 0 then sites
    else
      var before := SitesAfter(regs, insns, n - 1, sites);
      var i := insns[n - 1];
      var target := ResolvedTarget(i, RegistersAfter(regs, insns[..n - 1]));
      if target.Some? then before - {(i.address, 0)} + {(i.address, target.value)} else before
  }

  /** The resolved targets that are stored in the instructions themselves. */
  ghost function IndirectAfter(regs: RegisterFile, insns: seq<Instruction>, n: nat,
      indirect: map<Address, UnsignedWord>): map<Address, UnsignedWord>
    requires n <= |insns|
  {
    if n == 0 then indirect
    else
      var before := IndirectAfter(regs, insns, n - 1, indirect);
      var i := insns[n - 1];
      var target := ResolvedTarget(i, RegistersAfter(regs, insns[..n - 1]));
      if target.Some? then before[i.address := target.value] else before
  }

  /** The instruction, executed in this state, goes to this address. */
  ghost predicate GoesTo(i: Instruction, s: State, target: Address) {
    i.Op(0).RegOp? && Unsigned(s.regs(i.Op(0).reg)) == target
  }

  /** A call site that was not there before was added by an instruction whose target was resolved. */
  lemma {:induction false} NewSite(regs: RegisterFile, insns: seq<Instruction>, n: nat, sites: set<(Address, Address)>,
                                   a: Address, target: Address)
      returns (k: nat)
    requires n <= |insns| && (a, target) in SitesAfter(regs, insns, n, sites) && (a, target) !in sites
    ensures k < n && insns[k].address == a && ResolvedTarget(insns[k], RegistersAfter(regs, insns[..k])) == Some(target)
  {
    hide ResolvedTarget;
    if (a, target) in SitesAfter(regs, insns, n - 1, sites) {
      k := NewSite(regs, insns, n - 1, sites, a, target);
    } else {
      k := n - 1;
    }
  }

  lemma {:induction false} NewTarget(regs: RegisterFile, insns: seq<Instruction>, n: nat,
                                     indirect: map<Address, UnsignedWord>, a: Address, target: UnsignedWord)
      returns (k: nat)
    requires n <= |insns| && (a, target) in IndirectAfter(regs, insns, n, indirect).Items
    requires (a, target) !in indirect.Items
    ensures k < n && insns[k].address == a && ResolvedTarget(insns[k], RegistersAfter(regs, insns[..k])) == Some(target)
  {
    hide ResolvedTarget;
    if (a, target) in IndirectAfter(regs, insns, n - 1, indirect).Items {
      k := NewTarget(regs, insns, n - 1, indirect, a, target);
    } else {
      k := n - 1;
    }
  }

  /** Instruction j is the last one in front of instruction n that writes the register, and it forces
      this word into it. */
  ghost predicate LastForces(insns: seq<Instruction>, j: nat, n: nat, r: Register, v: Word) {
    && j < n < |insns| && Forces(insns[j], r, v)
    && (forall k :: 0 <= k < |insns| ==> insns[k].Listed())
    && (forall k :: j < k < n ==> !insns[k].MayWrite(r))
  }

  lemma LastForcesBounds(insns: seq<Instruction>, j: nat, n: nat, r: Register, v: Word)
    requires LastForces(insns, j, n, r, v)
    ensures j < n < |insns|
  {
  }

  lemma {:induction false} StillKnown(regs: RegisterFile, insns: seq<Instruction>, j: nat, n: nat, k: nat, r: Register,
                                      v: Word)
    requires LastForces(insns, j, n, r, v) && j < k <= n
    ensures var after := RegistersAfter(regs, insns[..k]);
            r in after && after[r].isKnown && after[r].knownValue == Unsigned(v)
  {
    hide Forces, Applied;
    assert insns[..k][..k - 1] == insns[..k - 1];
    if k == j + 1 {
      ForcedIsKnown(insns[j], RegistersAfter(regs, insns[..j]), r, v);
    } else {
      StillKnown(regs, insns, j, n, k - 1, r, v);
      UnwrittenStays(insns[k - 1], RegistersAfter(regs, insns[..k - 1]), r);
    }
  }

  /** A call or jump through a register. */
  predicate GoesThrough(i: Instruction, r: Register) {
    i.category in {Call, UncondBranch, CondBranch} && i.Op(0).RegOp? && i.Op(0).reg == r
  }

  lemma {:induction false} SiteStays(regs: RegisterFile, insns: seq<Instruction>, k: nat, n: nat,
                                     sites: set<(Address, Address)>, a: Address, target: Address)
    requires k <= n <= |insns| && target != 0 && (a, target) in SitesAfter(regs, insns, k, sites)
    ensures (a, target) in SitesAfter(regs, insns, n, sites)
  {
    if k < n {
      SiteStays(regs, insns, k, n - 1, sites, a, target);
    }
  }

  lemma {:induction false} TargetStays(regs: RegisterFile, insns: seq<Instruction>, k: nat, n: nat,
                                       indirect: map<Address, UnsignedWord>, a: Address, target: UnsignedWord)
    requires k <= n <= |insns| && (a, target) in IndirectAfter(regs, insns, k, indirect).Items
    requires forall j :: k <= j < |insns| ==> insns[j].address != a
    ensures (a, target) in IndirectAfter(regs, insns, n, indirect).Items
  {
    if k < n {
      TargetStays(regs, insns, k, n - 1, indirect, a, target);
    }
  }

  /** A call or jump through a register, into which the last instruction that writes it forces a word,
      gets that for its target: as a call site and stored in the instruction, unless it is 0. */
  lemma ForcedIsResolved(regs: RegisterFile, insns: seq<Instruction>, j: nat, n: nat, r: Register, v: Word,
                         sites: set<(Address, Address)>, indirect: map<Address, UnsignedWord>)
    requires LastForces(insns, j, n, r, v) && GoesThrough(insns[n], r)
    requires forall k :: n < k < |insns| ==> insns[k].address != insns[n].address
    ensures ResolvedTarget(insns[n], RegistersAfter(regs, insns[..n])) == if v == 0 then None else Some(Unsigned(v))
    ensures v != 0 ==> (insns[n].address, Unsigned(v)) in SitesAfter(regs, insns, |insns|, sites)
    ensures v != 0 ==> (insns[n].address, Unsigned(v)) in IndirectAfter(regs, insns, |insns|, indirect).Items
  {
    hide Forces;
    StillKnown(regs, insns, j, n, n, r, v);
    if v != 0 {
      assert (insns[n].address, Unsigned(v)) in IndirectAfter(regs, insns, n + 1, indirect).Items;
      SiteStays(regs, insns, n + 1, |insns|, sites, insns[n].address, Unsigned(v));
      TargetStays(regs, insns, n + 1, |insns|, indirect, insns[n].address, Unsigned(v));
    }
  }

  ghost predicate HasTarget(sites: set<(Address, Address)>, a: Address) {
    exists t :: t != 0 && (a, t) in sites
  }

  /** From the first call sites to the second: only an unresolved one is gone, and then the
      instruction has a known target; what is new has one, and is no longer unresolved. */
  ghost predicate Resolves(sites: set<(Address, Address)>, sites': set<(Address, Address)>) {
    && (forall site :: site in sites ==> site in sites' || (site.1 == 0 && HasTarget(sites', site.0)))
    && (forall site :: site in sites' && site !in sites ==> site.1 != 0 && (site.0, 0) !in sites')
  }

  lemma ResolvesTrans(sites: set<(Address, Address)>, sites1: set<(Address, Address)>,
      sites2: set<(Address, Address)>)
    requires Resolves(sites, sites1) && Resolves(sites1, sites2)
    ensures Resolves(sites, sites2)
  {
    forall a: Address | HasTarget(sites1, a) ensures HasTarget(sites2, a) {
      var t :| t != 0 && (a, t) in sites1;
      assert (a, t) in sites2;
    }
    forall site | site in sites2 && site !in sites ensures site.1 != 0 && (site.0, 0) !in sites2 {
      assert (site.0, 0) in sites2 ==> (site.0, 0) in sites1;
    }
  }

  lemma OneResolves(sites: set<(Address, Address)>, a: Address, target: Address)
    requires target != 0
    ensures Resolves(sites, sites - {(a, 0)} + {(a, target)})
  {
    assert (a, target) in sites - {(a, 0)} + {(a, target)};
  }

  /** The analysis of a block does no more to the call sites than to resolve some. */
  lemma {:induction false} BlockResolves(regs: RegisterFile, insns: seq<Instruction>, n: nat,
                                         sites: set<(Address, Address)>)
    requires n <= |insns|
    ensures Resolves(sites, SitesAfter(regs, insns, n, sites))
  {
    if n > 0 {
      BlockResolves(regs, insns, n - 1, sites);
      hide Resolves;
      var before, i := SitesAfter(regs, insns, n - 1, sites), insns[n - 1];
      var target := ResolvedTarget(i, RegistersAfter(regs, insns[..n - 1]));
      if target.Some? {
        OneResolves(before, i.address, target.value);
        ResolvesTrans(sites, before, before - {(i.address, 0)} + {(i.address, target.value)});
      }
    }
  }

  /** Whatever call site the analysis of a block adds is an instruction of the block and, in every run
      that gets there from a state which the incoming registers match, its concrete target ... */
  lemma NewSitesAreTaken(regs: RegisterFile, insns: seq<Instruction>, code: Code, sites: set<(Address, Address)>,
                         a: Address, target: Address)
      returns (k: nat)
    requires WellAddressed(code) && InCode(insns, code) && Traced(regs, code)
    requires (a, target) in SitesAfter(regs, insns, |insns|, sites) && (a, target) !in sites
    ensures k < |insns| && insns[k].address == a
    ensures forall states, preserved :: RunsInto(insns, states, preserved) && k < |states|
              && Matches(regs, states[0]) && KeepableAlong(regs, insns, preserved)
              ==> GoesTo(insns[k], states[k], target)
  {
    hide KeepableAlong, RunsInto, Matches, Traced, ResolvedTarget;
    k := NewSite(regs, insns, |insns|, sites, a, target);
    forall states, preserved | RunsInto(insns, states, preserved) && k < |states|
        && Matches(regs, states[0]) && KeepableAlong(regs, insns, preserved)
      ensures GoesTo(insns[k], states[k], target)
    {
      ResolvedIsTaken(regs, insns, code, states, preserved, k);
    }
  }

  /** ... and so is whatever it stores in an instruction. */
  lemma NewTargetsAreTaken(regs: RegisterFile, insns: seq<Instruction>, code: Code,
                           indirect: map<Address, UnsignedWord>, a: Address, target: UnsignedWord)
      returns (k: nat)
    requires WellAddressed(code) && InCode(insns, code) && Traced(regs, code)
    requires (a, target) in IndirectAfter(regs, insns, |insns|, indirect).Items && (a, target) !in indirect.Items
    ensures k < |insns| && insns[k].address == a
    ensures forall states, preserved :: RunsInto(insns, states, preserved) && k < |states|
              && Matches(regs, states[0]) && KeepableAlong(regs, insns, preserved)
              ==> GoesTo(insns[k], states[k], target)
  {
    hide KeepableAlong, RunsInto, Matches, Traced, ResolvedTarget;
    k := NewTarget(regs, insns, |insns|, indirect, a, target);
    forall states, preserved | RunsInto(insns, states, preserved) && k < |states|
        && Matches(regs, states[0]) && KeepableAlong(regs, insns, preserved)
      ensures GoesTo(insns[k], states[k], target)
    {
      ResolvedIsTaken(regs, insns, code, states, preserved, k);
    }
  }

  lemma WalkNext(code: Code, lo: Address, hi: Address, regs: RegisterFile, insns: seq<Instruction>, n: nat,
      sites: set<(Address, Address)>, indirect: map<Address, UnsignedWord>)
    requires n <= |insns| && insns[n..] == InsnsFrom(code, lo, hi)
    requires lo < hi && lo in code && code[lo].length >= 1
    ensures n < |insns| && insns[n] == code[lo] && insns[n + 1..] == InsnsFrom(code, lo + code[lo].length, hi)
    ensures RegistersAfter(regs, insns[..n + 1]) == Applied(insns[n], RegistersAfter(regs, insns[..n]))
    ensures var target := ResolvedTarget(insns[n], RegistersAfter(regs, insns[..n]));
            var a, sites0 := insns[n].address, SitesAfter(regs, insns, n, sites);
            var indirect0 := IndirectAfter(regs, insns, n, indirect);
            && SitesAfter(regs, insns, n + 1, sites) ==
               (if target.Some? then sites0 - {(a, 0)} + {(a, target.value)} else sites0)
            && IndirectAfter(regs, insns, n + 1, indirect) ==
               if target.Some? then indirect0[a := target.value] else indirect0
  {
    assert insns[n..][0] == insns[n] && insns[n..][1..] == insns[n + 1..];
    assert insns[..n + 1][..n] == insns[..n];
  }

  /** Analyses one block; indirect calls and jumps are resolved from the registers in front
      of them, and their targets become call sites of the function and are stored in the
      instructions. */
  method AnalyzeBasicBlock(bb: BasicBlock, fn: Function, code: Code, incoming: RegisterFile,
      indirect0: map<Address, UnsignedWord>) returns (regs: RegisterFile, indirect: map<Address, UnsignedWord>)
    requires WellAddressed(code)
    modifies fn`callSites
    ensures var insns := InsnsFrom(code, bb.startAddress, bb.endAddress);
            && regs == RegistersAfter(incoming, insns)
            && fn.callSites == SitesAfter(incoming, insns, |insns|, old(fn.callSites))
            && indirect == IndirectAfter(incoming, insns, |insns|, indirect0)
  {
    regs, indirect := incoming, indirect0;
    var addr, end := bb.startAddress, bb.endAddress;
    ghost var insns, n := InsnsFrom(code, addr, end), 0;
    assert insns[..0] == [] && RegistersAfter(incoming, insns[..0]) == incoming;
    assert SitesAfter(incoming, insns, 0, fn.callSites) == fn.callSites;
    assert IndirectAfter(incoming, insns, 0, indirect) == indirect;
    hide Applied, ResolvedTarget, RegistersAfter, SitesAfter, IndirectAfter;
    while addr < end && addr in code
      invariant n <= |insns| && insns[n..] == InsnsFrom(code, addr, end)
      invariant regs == RegistersAfter(incoming, insns[..n])
      invariant fn.callSites == SitesAfter(incoming, insns, n, old(fn.callSites))
      invariant indirect == IndirectAfter(incoming, insns, n, indirect0)
      decreases end - addr
    {
      var insn := code[addr];
      WalkNext(code, addr, end, incoming, insns, n, old(fn.callSites), indirect0);
      var target := ResolvedTarget(insn, regs);
      if target.Some? {
        indirect := indirect[insn.address := target.value];
        fn.AddCallSite(insn.address, target.value);
      }
      regs := ApplyInstruction(insn, regs);
      addr := addr + insn.length;
      n := n + 1;
    }
    assert n == |insns| && insns[..n] == insns;
  }

  // ----- All blocks of a function -----

  /** The register file in which block k is analysed: what the blocks before it in the list left. */
  ghost function RegistersBefore(bs: seq<Block>, code: Code, k: nat): RegisterFile
    requires k <= |bs|
  {
    if k == 0 then map[] else RegistersAfter(RegistersBefore(bs, code, k - 1), InsnsOf(code, bs[k - 1]))
  }

  /** The call sites after the first n blocks. */
  ghost function FunctionSites(bs: seq<Block>, code: Code, n: nat, sites: set<(Address, Address)>)
    : set<(Address, Address)>
    requires n <= |bs|
  {
    if n == 0 then sites
    else
      var insns := InsnsOf(code, bs[n - 1]);
      SitesAfter(RegistersBefore(bs, code, n - 1), insns, |insns|, FunctionSites(bs, code, n - 1, sites))
  }

  /** The targets stored in instructions after the first n blocks. */
  ghost function FunctionTargets(bs: seq<Block>, code: Code, n: nat, indirect: map<Address, UnsignedWord>):
      map<Address, UnsignedWord>
    requires n <= |bs|
  {
    if n == 0 then indirect
    else
      var insns := InsnsOf(code, bs[n - 1]);
      IndirectAfter(RegistersBefore(bs, code, n - 1), insns, |insns|, FunctionTargets(bs, code, n - 1, indirect))
  }

  /** Analyses the blocks in the order of the list, each with the registers that the one before it
      left. */
  method AnalyzeFunction(fn: Function, code: Code, indirect0: map<Address, UnsignedWord>)
      returns (indirect: map<Address, UnsignedWord>)
    requires WellAddressed(code)
    modifies fn`callSites
    ensures fn.callSites == FunctionSites(fn.Views(), code, |fn.Views()|, old(fn.callSites))
    ensures indirect == FunctionTargets(fn.Views(), code, |fn.Views()|, indirect0)
  {
    hide RegistersAfter, SitesAfter, IndirectAfter;
    var currentRegs := map[];
    indirect := indirect0;
    ghost var bs := fn.Views();
    for i := 0 to |fn.basicBlocks|
      invariant fn.Views() == bs
      invariant currentRegs == RegistersBefore(bs, code, i)
      invariant fn.callSites == FunctionSites(bs, code, i, old(fn.callSites))
      invariant indirect == FunctionTargets(bs, code, i, indirect0)
    {
      assert bs[i] == fn.basicBlocks[i].View();
      currentRegs, indirect := AnalyzeBasicBlock(fn.basicBlocks[i], fn, code, currentRegs, indirect);
    }
  }

  lemma {:induction false} FunctionSiteStays(bs: seq<Block>, code: Code, k: nat, n: nat, sites: set<(Address, Address)>,
                                             a: Address, target: Address)
    requires k <= n <= |bs| && target != 0 && (a, target) in FunctionSites(bs, code, k, sites)
    ensures (a, target) in FunctionSites(bs, code, n, sites)
  {
    if k < n {
      FunctionSiteStays(bs, code, k, n - 1, sites, a, target);
      var insns := InsnsOf(code, bs[n - 1]);
      SiteStays(RegistersBefore(bs, code, n - 1), insns, 0, |insns|, FunctionSites(bs, code, n - 1, sites), a, target);
    }
  }

  lemma {:induction false} FunctionResolves(bs: seq<Block>, code: Code, n: nat, sites: set<(Address, Address)>)
    requires n <= |bs|
    ensures Resolves(sites, FunctionSites(bs, code, n, sites))
  {
    hide SitesAfter, RegistersBefore, InsnsOf;
    if n == 0 {
    } else {
      var insns, before := InsnsOf(code, bs[n - 1]), FunctionSites(bs, code, n - 1, sites);
      FunctionResolves(bs, code, n - 1, sites);
      BlockResolves(RegistersBefore(bs, code, n - 1), insns, |insns|, before);
      ResolvesTrans(sites, before, FunctionSites(bs, code, n, sites));
    }
  }

  lemma {:induction false} FunctionTargetStays(bs: seq<Block>, code: Code, k: nat, n: nat,
      indirect: map<Address, UnsignedWord>, a: Address, target: UnsignedWord)
    requires Separate(bs) && WellAddressed(code) && k < n <= |bs| && bs[k].Holds(a)
    requires (a, target) in FunctionTargets(bs, code, k + 1, indirect).Items
    ensures (a, target) in FunctionTargets(bs, code, n, indirect).Items
  {
    if k + 1 < n {
      FunctionTargetStays(bs, code, k, n - 1, indirect, a, target);
      var insns := InsnsOf(code, bs[n - 1]);
      InsnsAscend(code, bs[n - 1].start, bs[n - 1].end);
      assert !bs[n - 1].Holds(a);
      TargetStays(RegistersBefore(bs, code, n - 1), insns, 0, |insns|, FunctionTargets(bs, code, n - 1, indirect), a,
        target);
    }
  }

  /** So it is after the analysis of the whole function, whatever the other blocks are. */
  lemma FunctionForced(bs: seq<Block>, code: Code, k: nat, j: nat, n: nat, r: Register, v: Word,
                       sites: set<(Address, Address)>, indirect: map<Address, UnsignedWord>)
    requires Separate(bs) && WellAddressed(code) && k < |bs|
    requires LastForces(InsnsOf(code, bs[k]), j, n, r, v) && GoesThrough(InsnsOf(code, bs[k])[n], r) && v != 0
    ensures var a := InsnsOf(code, bs[k])[n].address;
            && (a, Unsigned(v)) in FunctionSites(bs, code, |bs|, sites)
            && (a, Unsigned(v)) in FunctionTargets(bs, code, |bs|, indirect).Items
  {
    hide LastForces, RegistersBefore, ResolvedTarget;
    var insns := InsnsOf(code, bs[k]);
    assert n < |insns| by {
      LastForcesBounds(insns, j, n, r, v);
    }
    InsnsAscend(code, bs[k].start, bs[k].end);
    ForcedIsResolved(RegistersBefore(bs, code, k), insns, j, n, r, v, FunctionSites(bs, code, k, sites),
      FunctionTargets(bs, code, k, indirect));
    FunctionSiteStays(bs, code, k + 1, |bs|, sites, insns[n].address, Unsigned(v));
    FunctionTargetStays(bs, code, k, |bs|, indirect, insns[n].address, Unsigned(v));
  }

  // ----- Tours through the function -----

  ghost predicate IsListed(code: Code) {
    WellAddressed(code) && forall a :: a in code ==> code[a].Listed()
  }

  lemma {:induction false} TracedBefore(bs: seq<Block>, code: Code, k: nat)
    requires IsListed(code) && k <= |bs|
    ensures Traced(RegistersBefore(bs, code, k), code)
  {
    if k > 0 {
      TracedBefore(bs, code, k - 1);
      InsnsFromCode(code, bs[k - 1].start, bs[k - 1].end);
      TracedAfter(RegistersBefore(bs, code, k - 1), InsnsOf(code, bs[k - 1]), code);
    }
  }

  ghost predicate KeepableBlock(bs: seq<Block>, code: Code, j: nat, preserved: set<Register>) {
    j < |bs| && KeepableAlong(RegistersBefore(bs, code, j), InsnsOf(code, bs[j]), preserved)
  }

  ghost predicate HandsOnTo(bs: seq<Block>, code: Code, j: nat, k: nat) {
    j < |bs| && k < |bs| && HandsOn(RegistersBefore(bs, code, j + 1), RegistersBefore(bs, code, k))
  }

  /** On the way of a tour no call loses a known value, and every block that is left for another one
      hands on what the other one is analysed with. */
  ghost predicate KeepableTour(bs: seq<Block>, code: Code, t: Tour, preserved: set<Register>)
    requires IsTour(bs, code, t, preserved)
  {
    && (forall i :: 0 <= i < |t.walk| ==> KeepableBlock(bs, code, t.walk[i], preserved))
    && (forall i :: 0 <= i < |t.walk| - 1 ==> HandsOnTo(bs, code, t.walk[i], t.walk[i + 1]))
  }

  /** On such a tour every block is entered in a state that matches the registers in front of it. */
  lemma {:induction false} TourMatches(bs: seq<Block>, code: Code, t: Tour, preserved: set<Register>, i: nat)
    requires IsListed(code) && IsTour(bs, code, t, preserved) && KeepableTour(bs, code, t, preserved) && i < |t.walk|
    ensures t.walk[i] < |bs| && t.runs[i] != [] && Matches(RegistersBefore(bs, code, t.walk[i]), t.runs[i][0])
  {
    assert RunsThrough(bs, code, t, preserved, i);
    if i > 0 {
      var j, run := t.walk[i - 1], t.runs[i - 1];
      TourMatches(bs, code, t, preserved, i - 1);
      assert RunsThrough(bs, code, t, preserved, i - 1) && GoesOn(bs, code, t, i - 1);
      assert KeepableBlock(bs, code, j, preserved) && HandsOnTo(bs, code, t.walk[i - 1], t.walk[i - 1 + 1]);
      var insns := InsnsOf(code, bs[j]);
      TracedBefore(bs, code, j);
      InsnsFromCode(code, bs[j].start, bs[j].end);
      PrefixMatches(RegistersBefore(bs, code, j), insns, code, run, preserved, |insns|);
      assert insns[..|insns|] == insns;
      HandsOnMatches(RegistersBefore(bs, code, j + 1), RegistersBefore(bs, code, t.walk[i]), t.runs[i][0]);
    }
  }

  /** The same for all blocks that the entry block reaches, and all edges between them. */
  ghost predicate KeepableFunction(bs: seq<Block>, code: Code, preserved: set<Register>) {
    && (forall j: nat :: BlockReach(bs, 0, j) && j < |bs| ==> KeepableBlock(bs, code, j, preserved))
    && (forall j, k: nat :: BlockReach(bs, 0, j) && Edge(bs, j, k) ==> HandsOnTo(bs, code, j, k))
  }

  lemma KeepableFunctionTours(bs: seq<Block>, code: Code, t: Tour, preserved: set<Register>)
    requires KeepableFunction(bs, code, preserved) && IsTour(bs, code, t, preserved)
    ensures KeepableTour(bs, code, t, preserved)
  {
    hide KeepableBlock, HandsOnTo;
    forall i | 0 <= i < |t.walk| ensures KeepableBlock(bs, code, t.walk[i], preserved) {
      assert RunsThrough(bs, code, t, preserved, i);
      TourReaches(bs, code, t, preserved, i);
    }
    forall i | 0 <= i < |t.walk| - 1 ensures HandsOnTo(bs, code, t.walk[i], t.walk[i + 1]) {
      assert GoesOn(bs, code, t, i);
      TourReaches(bs, code, t, preserved, i);
    }
  }

  /** If the run through the i-th block of the tour gets to the n-th instruction, that goes to this
      target. */
  ghost predicate TourGoesTo(bs: seq<Block>, code: Code, t: Tour, i: nat, n: nat, target: Address) {
    && i < |t.walk| && i < |t.runs| && t.walk[i] < |bs| && n < |InsnsOf(code, bs[t.walk[i]])|
    && (n < |t.runs[i]| ==> GoesTo(InsnsOf(code, bs[t.walk[i]])[n], t.runs[i][n], target))
  }

  /** Where every such tour goes from an instruction is its target, if that was resolved. */
  lemma TourResolvedTaken(bs: seq<Block>, code: Code, t: Tour, preserved: set<Register>, i: nat, n: nat,
                          target: Address)
    requires IsListed(code) && IsTour(bs, code, t, preserved) && KeepableTour(bs, code, t, preserved)
    requires i < |t.walk| && t.walk[i] < |bs| && n < |InsnsOf(code, bs[t.walk[i]])|
    requires var k := t.walk[i];
             var insns := InsnsOf(code, bs[k]);
             ResolvedTarget(insns[n], RegistersAfter(RegistersBefore(bs, code, k), insns[..n])) == Some(target)
    ensures TourGoesTo(bs, code, t, i, n, target)
  {
    var k := t.walk[i];
    var insns := InsnsOf(code, bs[k]);
    TourMatches(bs, code, t, preserved, i);
    assert RunsThrough(bs, code, t, preserved, i) && KeepableBlock(bs, code, k, preserved);
    TracedBefore(bs, code, k);
    InsnsFromCode(code, bs[k].start, bs[k].end);
    hide IsTour, KeepableTour, RegistersBefore, RegistersAfter, ResolvedTarget;
    if n < |t.runs[i]| {
      ResolvedIsTaken(RegistersBefore(bs, code, k), insns, code, t.runs[i], preserved, n);
    }
  }

  lemma {:induction false} SiteOfBlock(bs: seq<Block>, code: Code, n: nat, sites: set<(Address, Address)>,
                                       site: (Address, Address))
      returns (k: nat)
    requires n <= |bs| && site in FunctionSites(bs, code, n, sites) && site !in sites
    ensures k < n && site !in FunctionSites(bs, code, k, sites) && site in FunctionSites(bs, code, k + 1, sites)
  {
    if site in FunctionSites(bs, code, n - 1, sites) {
      k := SiteOfBlock(bs, code, n - 1, sites, site);
    } else {
      k := n - 1;
    }
  }

  /** Each call site that the analysis of a function adds is an instruction of a block, from which
      every tour on which no call loses a known value and every block hands on what is known
      goes to its target. */
  lemma FunctionSitesAreTaken(bs: seq<Block>, code: Code, sites: set<(Address, Address)>, a: Address, target: Address)
      returns (k: nat, n: nat)
    requires IsListed(code) && (a, target) in FunctionSites(bs, code, |bs|, sites) && (a, target) !in sites
    ensures k < |bs| && n < |InsnsOf(code, bs[k])| && InsnsOf(code, bs[k])[n].address == a
    ensures forall t, preserved, i ::
              IsTour(bs, code, t, preserved) && KeepableTour(bs, code, t, preserved) && 0 <= i < |t.walk|
              && t.walk[i] == k
              ==> TourGoesTo(bs, code, t, i, n, target)
  {
    hide KeepableTour, IsTour, TourGoesTo, InsnsOf;
    k := SiteOfBlock(bs, code, |bs|, sites, (a, target));
    var insns := InsnsOf(code, bs[k]);
    n := NewSite(RegistersBefore(bs, code, k), insns, |insns|, FunctionSites(bs, code, k, sites), a, target);
    forall t, preserved, i | IsTour(bs, code, t, preserved) && KeepableTour(bs, code, t, preserved)
        && 0 <= i < |t.walk| && t.walk[i] == k
      ensures TourGoesTo(bs, code, t, i, n, target)
    {
      TourResolvedTaken(bs, code, t, preserved, i, n, target);
    }
  }

  /** What is stored at an address in the end, if it was not before, was stored by some block. */
  lemma {:induction false} TargetOfBlock(bs: seq<Block>, code: Code, n: nat, indirect: map<Address, UnsignedWord>,
                                         a: Address, target: UnsignedWord)
      returns (k: nat)
    requires n <= |bs| && (a, target) in FunctionTargets(bs, code, n, indirect).Items
    requires (a, target) !in indirect.Items
    ensures k < n && (a, target) !in FunctionTargets(bs, code, k, indirect).Items
    ensures (a, target) in FunctionTargets(bs, code, k + 1, indirect).Items
  {
    if (a, target) in FunctionTargets(bs, code, n - 1, indirect).Items {
      k := TargetOfBlock(bs, code, n - 1, indirect, a, target);
    } else {
      k := n - 1;
    }
  }

  /** The same for each target that is stored in an instruction. */
  lemma FunctionTargetsAreTaken(bs: seq<Block>, code: Code, indirect: map<Address, UnsignedWord>, a: Address,
                                target: UnsignedWord)
      returns (k: nat, n: nat)
    requires IsListed(code) && (a, target) in FunctionTargets(bs, code, |bs|, indirect).Items
    requires (a, target) !in indirect.Items
    ensures k < |bs| && n < |InsnsOf(code, bs[k])| && InsnsOf(code, bs[k])[n].address == a
    ensures forall t, preserved, i ::
              IsTour(bs, code, t, preserved) && KeepableTour(bs, code, t, preserved) && 0 <= i < |t.walk|
              && t.walk[i] == k
              ==> TourGoesTo(bs, code, t, i, n, target)
  {
    hide KeepableTour, IsTour, TourGoesTo, InsnsOf;
    k := TargetOfBlock(bs, code, |bs|, indirect, a, target);
    var insns := InsnsOf(code, bs[k]);
    n := NewTarget(RegistersBefore(bs, code, k), insns, |insns|, FunctionTargets(bs, code, k, indirect), a, target);
    forall t, preserved, i | IsTour(bs, code, t, preserved) && KeepableTour(bs, code, t, preserved)
        && 0 <= i < |t.walk| && t.walk[i] == k
      ensures TourGoesTo(bs, code, t, i, n, target)
    {
      TourResolvedTaken(bs, code, t, preserved, i, n, target);
    }
  }
}
