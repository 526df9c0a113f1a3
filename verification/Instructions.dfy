/** Decoded x86 instructions, as the explorer and the register analyses see them. */
module Instructions {
  import opened Blocks
  import opened Options
  import opened Words

  type Register = nat

  const RAX: Register := 0
  const EAX: Register := 1
  const RCX: Register := 2
  const ECX: Register := 3
  const RDX: Register := 4
  const EDX: Register := 5
  const RBP: Register := 6
  const EBP: Register := 7
  const RSP: Register := 8
  const ESP: Register := 9

  datatype Mnemonic = MOV | LEA | XOR | ADD | SUB | AND | SHL | SHR | TEST | CMP | JZ | JNZ | JS | JNS | PUSH | OTHER

  /** System stands for system calls and software interrupts. */
  datatype Category = Call | CondBranch | UncondBranch | Return | System | General

  datatype Base = RIP | NoBase | BaseReg(reg: Register)

  /** An operand. An immediate is the signed reading of the decoded 64-bit value. A hidden
      register operand counts as written. */
  datatype Operand =
    | RegOp(reg: Register, hidden: bool, written: bool)
    | ImmOp(value: Word)
    | MemOp(base: Base, indexed: bool, disp: Word)
    | Unused

  datatype Instruction = Instruction(address: Address, length: nat, mnemonic: Mnemonic, category: Category,
      operands: seq<Operand>)
  {
    /** Operands beyond those of the instruction are zero-initialised. */
    function Op(k: nat): Operand {
      if k < |operands| then operands[k] else Unused
    }

    predicate IsRegister(k: nat, regs: set<Register>) {
      Op(k).RegOp? && Op(k).reg in regs
    }

    predicate EndsBlock() {
      category.CondBranch? || category.UncondBranch? || category.Return?
    }

    /** What a function is expected to begin with: a frame pointer that is saved or set up, or
        room made on the stack. */
    predicate IsPrologue() {
      match mnemonic
      case PUSH => IsRegister(0, {RBP, EBP})
      case MOV => IsRegister(0, {RBP, EBP}) && IsRegister(1, {RSP, ESP})
      case SUB => IsRegister(0, {RSP, ESP}) && Op(1).ImmOp?
      case _ => false
    }

    /** The k-th operand is a register that the instruction may write. */
    predicate Writes(k: nat) {
      k < |operands| && operands[k].RegOp? && (operands[k].hidden || operands[k].written)
    }

    /** One of the first n operands is this register, and may be written. */
    ghost predicate WritesBefore(r: Register, n: nat) {
      exists k :: 0 <= k < n && Writes(k) && operands[k].reg == r
    }

    ghost predicate MayWrite(r: Register) {
      WritesBefore(r, |operands|)
    }

    /** Control leaves the code at hand and comes back later. */
    predicate Leaves() {
      category.Call? || category.System?
    }

    /** The register may have another value behind the instruction: the instruction writes
        it, or what runs in between does not preserve it. */
    ghost predicate MayChange(r: Register, preserved: set<Register>) {
      MayWrite(r) || (Leaves() && r !in preserved)
    }

    /** Every effect of the instruction itself on a register is listed: one that stores its
        result in its first operand marks it as written. */
    ghost predicate Listed() {
      && (mnemonic in {MOV, LEA, XOR, ADD, SUB, AND, SHL, SHR} && Op(0).RegOp? ==> Writes(0))
      && (Leaves() ==> mnemonic.OTHER?)
    }

    /** The address that a memory operand stands for, if no register takes part in it. */
    function KnownAddress(op: Operand): Option<Word> {
      if op.MemOp? && !op.indexed && op.base.RIP? then Some(Wrap(address + length + op.disp))
      else if op.MemOp? && !op.indexed && op.base.NoBase? then Some(op.disp)
      else None
    }
  }

  /** A register may be written if it is an operand, hidden or marked as written. */
  lemma MayWriteExact(i: Instruction, r: Register)
    ensures i.MayWrite(r) <==> exists op :: op in i.operands && op.RegOp? && op.reg == r && (op.hidden || op.written)
  {
    if op :| op in i.operands && op.RegOp? && op.reg == r && (op.hidden || op.written) {
      var k :| 0 <= k < |i.operands| && i.operands[k] == op;
      assert i.Writes(k);
    }
  }

  // ----- The instructions of a block -----

  type Code = map<Address, Instruction>

  ghost predicate WellAddressed(code: Code) {
    forall a :: a in code ==> code[a].address == a && code[a].length >= 1
  }

  /** The instructions from lo on, one after the other, before hi or a gap. */
  function InsnsFrom(code: Code, lo: Address, hi: Address): seq<Instruction>
    decreases hi - lo
  {
    if lo < hi && lo in code && code[lo].length >= 1
    then [code[lo]] + InsnsFrom(code, lo + code[lo].length, hi) else []
  }

  function InsnsOf(code: Code, b: Block): seq<Instruction> {
    InsnsFrom(code, b.start, b.end)
  }

  /** The instructions lie in the range, at ascending addresses. */
  ghost predicate Ascending(insns: seq<Instruction>, lo: Address, hi: Address) {
    && (forall k :: 0 <= k < |insns| ==> lo <= insns[k].address < hi)
    && (forall j, k :: 0 <= j < k < |insns| ==> insns[j].address < insns[k].address)
  }

  lemma {:induction false} InsnsAscend(code: Code, lo: Address, hi: Address)
    requires WellAddressed(code)
    ensures Ascending(InsnsFrom(code, lo, hi), lo, hi)
    decreases hi - lo
  {
    if lo < hi && lo in code {
      var rest := InsnsFrom(code, lo + code[lo].length, hi);
      InsnsAscend(code, lo + code[lo].length, hi);
      assert InsnsFrom(code, lo, hi) == [code[lo]] + rest;
    }
  }
}
