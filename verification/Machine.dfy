/** What decoded x86 instructions do to a machine with 64-bit registers that do not alias. */
module Machine {
  import opened Instructions
  import opened Words

  /** Registers and the two flags that the branches read. */
  datatype State = State(regs: Register -> Word, zf: bool, sf: bool)

  /** The value of an operand; mem is what a memory operand yields. */
  function Value(op: Operand, s: State, mem: Word): Word {
    match op
    case RegOp(r, _, _) => s.regs(r)
    case ImmOp(v) => v
    case _ => mem
  }

  /** The result of a two-operand instruction that stores it in its first operand. */
  function Result(m: Mnemonic, x: Word, y: Word): Word {
    match m
    case XOR => WordXor(x, y)
    case ADD => Wrap(x + y)
    case SUB => Wrap(x - y)
    case AND => WordAnd(x, y)
    case SHL => WordShl(x, y)
    case SHR => WordShr(x, y)
    case _ => y
  }

  ghost predicate SameButFor(s: State, t: State, r: Register) {
    forall q :: q != r ==> t.regs(q) == s.regs(q)
  }

  ghost predicate SameRegisters(s: State, t: State) {
    forall q :: t.regs(q) == s.regs(q)
  }

  /** i takes s to t, if memory operands yield mem, and an address that depends on registers
      is other. Behind a call or a system call, where the called code has been in between,
      only what that code preserves is as before. */
  ghost predicate Executes(i: Instruction, s: State, t: State, mem: Word, other: Word, preserved: set<Register>) {
    match i.mnemonic
    case MOV | XOR | ADD | SUB | AND | SHL | SHR =>
      if i.Op(0).RegOp?
      then t.regs(i.Op(0).reg) == Result(i.mnemonic, s.regs(i.Op(0).reg), Value(i.Op(1), s, mem))
           && SameButFor(s, t, i.Op(0).reg)
      else SameRegisters(s, t)
    case LEA =>
      if i.Op(0).RegOp?
      then t.regs(i.Op(0).reg) == (if i.KnownAddress(i.Op(1)).Some? then i.KnownAddress(i.Op(1)).value else other)
           && SameButFor(s, t, i.Op(0).reg)
      else SameRegisters(s, t)
    case TEST =>
      var v := WordAnd(Value(i.Op(0), s, mem), Value(i.Op(1), s, mem));
      SameRegisters(s, t) && t.zf == (v == 0) && t.sf == (v < 0)
    case CMP =>
      var v := Wrap(Value(i.Op(0), s, mem) - Value(i.Op(1), s, mem));
      SameRegisters(s, t) && t.zf == (v == 0) && t.sf == (v < 0)
    case JZ | JNZ | JS | JNS => SameRegisters(s, t) && t.zf == s.zf && t.sf == s.sf
    case PUSH | OTHER => forall q :: !i.MayChange(q, preserved) ==> t.regs(q) == s.regs(q)
  }

  ghost predicate Steps(i: Instruction, s: State, t: State, preserved: set<Register>) {
    exists mem: Word, other: Word :: Executes(i, s, t, mem, other, preserved)
  }

  /** Whether the conditional branch is taken. */
  predicate Taken(m: Mnemonic, s: State)
    requires m in {JZ, JNZ, JS, JNS}
  {
    match m
    case JZ => s.zf
    case JNZ => !s.zf
    case JS => s.sf
    case JNS => !s.sf
  }

  /** A run into a sequence of instructions, which may stop in front of any of them. */
  ghost predicate RunsInto(insns: seq<Instruction>, states: seq<State>, preserved: set<Register>) {
    && 0 < |states| <= |insns| + 1
    && forall k :: 0 <= k < |states| - 1 ==> Steps(insns[k], states[k], states[k + 1], preserved)
  }

  /** A run through all of it. */
  ghost predicate IsRun(insns: seq<Instruction>, states: seq<State>, preserved: set<Register>) {
    |states| == |insns| + 1 && RunsInto(insns, states, preserved)
  }

  // ----- What a prologue does -----

  /** One register holds x, another one y, and all others 0. */
  function Holding(r: Register, x: Word, q: Register, y: Word): State {
    State((p: Register) => if p == r then x else if p == q then y else 0, false, false)
  }

  /** However the state is, the first register then holds what the second one held. */
  ghost predicate Copies(i: Instruction, r: Register, from: Register) {
    forall s, t :: Steps(i, s, t, {}) ==> t.regs(r) == s.regs(from)
  }

  /** However the state is, the register goes down by this distance. */
  ghost predicate Lowers(i: Instruction, r: Register, distance: Word) {
    forall s, t :: Steps(i, s, t, {}) ==> t.regs(r) == Wrap(s.regs(r) - distance)
  }

  /** However the state is, the operand is what the register holds. */
  ghost predicate IsValueOf(op: Operand, r: Register) {
    forall s, mem :: Value(op, s, mem) == s.regs(r)
  }

  lemma IsValueOfExact(op: Operand, r: Register)
    ensures IsValueOf(op, r) <==> op.RegOp? && op.reg == r
  {
    var s, t := Holding(r, 1, r, 1), Holding(r, 2, r, 2);
    if IsValueOf(op, r) {
      assert Value(op, s, 0) == 1 && Value(op, t, 0) == 2;
    }
  }

  lemma CopiesOnce(i: Instruction, r: Register, from: Register, x: Word)
    requires i.mnemonic.MOV? && r != from && Copies(i, r, from) && x != 0
    ensures i.Op(0).RegOp? && i.Op(0).reg == r && Value(i.Op(1), Holding(from, x, from, x), 0) == x
  {
    var s := Holding(from, x, from, x);
    var t := if i.Op(0).RegOp? then Holding(i.Op(0).reg, Value(i.Op(1), s, 0), from, x) else s;
    assert Executes(i, s, t, 0, 0, {}) && Steps(i, s, t, {});
  }

  lemma CopiesExact(i: Instruction, r: Register, from: Register)
    requires i.mnemonic.MOV? && r != from
    ensures Copies(i, r, from) <==> i.IsRegister(0, {r}) && i.IsRegister(1, {from})
  {
    if Copies(i, r, from) {
      CopiesOnce(i, r, from, 1);
      CopiesOnce(i, r, from, 2);
    }
  }

  lemma LowersOnce(i: Instruction, r: Register, distance: Word, y: Word)
    requires i.mnemonic.SUB? && i.IsRegister(0, {r}) && !i.Op(1).ImmOp? && Lowers(i, r, distance)
    ensures Wrap(y - distance) == 0 || Wrap(-(y as int)) == Wrap(-(distance as int))
  {
    var src := i.Op(1);
    var x: Word := if src.RegOp? && src.reg == r then y else 0;
    var q := if src.RegOp? then src.reg else r;
    var s, t := Holding(r, x, q, y), Holding(r, Wrap(x - y), q, y);
    assert Value(src, s, y) == y;
    assert Executes(i, s, t, y, 0, {}) && Steps(i, s, t, {});
  }

  lemma LowersExact(i: Instruction, r: Register)
    requires i.mnemonic.SUB? && i.IsRegister(0, {r})
    ensures (exists distance :: Lowers(i, r, distance)) <==> i.Op(1).ImmOp?
  {
    if i.Op(1).ImmOp? {
      assert Lowers(i, r, i.Op(1).value);
    } else if distance :| Lowers(i, r, distance) {
      LowersOnce(i, r, distance, 0);
      LowersOnce(i, r, distance, 1);
    }
  }

  /** The instruction saves a frame pointer, sets it up from the stack pointer, or lowers the stack
      pointer by a fixed distance. */
  ghost predicate BeginsFunction(i: Instruction) {
    || (i.mnemonic.PUSH? && exists r :: r in {RBP, EBP} && IsValueOf(i.Op(0), r))
    || (i.mnemonic.MOV? && exists r, from :: r in {RBP, EBP} && from in {RSP, ESP} && Copies(i, r, from))
    || (i.mnemonic.SUB? && exists r, distance :: r in {RSP, ESP} && i.IsRegister(0, {r}) && Lowers(i, r, distance))
  }

  /** That is what the sweep takes for the beginning of a function. */
  lemma PrologueExact(i: Instruction)
    ensures i.IsPrologue() <==> BeginsFunction(i)
  {
    hide Copies, Lowers, IsValueOf;
    forall r ensures IsValueOf(i.Op(0), r) <==> i.Op(0).RegOp? && i.Op(0).reg == r {
      IsValueOfExact(i.Op(0), r);
    }
    if i.mnemonic.MOV? {
      forall r, from | r != from
        ensures Copies(i, r, from) <==> i.IsRegister(0, {r}) && i.IsRegister(1, {from}) {
        CopiesExact(i, r, from);
      }
      assert i.IsPrologue() ==> Copies(i, i.Op(0).reg, i.Op(1).reg);
    } else if i.mnemonic.SUB? && i.Op(0).RegOp? {
      LowersExact(i, i.Op(0).reg);
      assert forall r :: i.IsRegister(0, {r}) <==> r == i.Op(0).reg;
    } else if i.mnemonic.PUSH? {
      assert i.IsPrologue() ==> IsValueOf(i.Op(0), i.Op(0).reg);
    }
  }
}
