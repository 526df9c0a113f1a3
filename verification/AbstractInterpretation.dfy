/** The interval pass: its transfer function, when that is sound for the machine, the
    verdict on a conditional branch, and the walk through a block. */
module AbstractInterpretation {
  import opened Words
  import opened Instructions
  import opened Intervals
  import opened Machine
  import opened Options

  type Domain = map<Register, Interval>

  datatype PredicateResult = Unknown | AlwaysTrue | AlwaysFalse

  // ----- The transfer function -----

  function GetRegisterInterval(d: Domain, r: Register): Interval {
    if r in d then d[r] else Top()
  }

  /** The interval of a source operand; a shift knows its count only from an immediate. */
  function SourceInterval(d: Domain, m: Mnemonic, op: Operand): Interval {
    match op
    case ImmOp(v) => Constant(v)
    case RegOp(r, _, _) => if m.SHL? || m.SHR? then Top() else GetRegisterInterval(d, r)
    case _ => Top()
  }

  predicate IsTracked(m: Mnemonic) {
    m in {MOV, XOR, ADD, SUB, AND, SHL, SHR}
  }

  function Operate(m: Mnemonic, a: Interval, b: Interval): Interval
    requires m in {ADD, SUB, AND, SHL, SHR}
  {
    match m
    case ADD => a.Add(b)
    case SUB => a.Sub(b)
    case AND => a.And(b)
    case SHL => a.Shl(b)
    case SHR => a.Shr(b)
  }

  /** What a tracked instruction makes of the domain. */
  function Transfer(i: Instruction, d: Domain): Domain {
    var dst, src := i.Op(0), i.Op(1);
    if !dst.RegOp? then d
    else match i.mnemonic
      case MOV => if src.ImmOp? then d[dst.reg := Constant(src.value)] else d
      case XOR => if src.RegOp? && src.reg == dst.reg then d[dst.reg := Constant(0)] else d
      case ADD | SUB | AND | SHL | SHR =>
        d[dst.reg := Operate(i.mnemonic, GetRegisterInterval(d, dst.reg), SourceInterval(d, i.mnemonic, src))]
      case _ => d
  }

  /** A zero in the A, C or D register, which is taken to come from the instruction itself. */
  predicate KeptZero(d: Domain, r: Register) {
    r in d && d[r].IsConstant() && d[r].lo == 0 && r in {RAX, EAX, RCX, ECX, RDX, EDX}
  }

  /** The domain after an instruction: any other instruction loses the registers it may
      write, but for kept zeros. */
  ghost function Applied(i: Instruction, d: Domain): Domain {
    if IsTracked(i.mnemonic) then Transfer(i, d)
    else map r | r in d && (i.MayWrite(r) ==> KeptZero(d, r)) :: d[r]
  }

  method ApplyInstruction(i: Instruction, d: Domain) returns (domain: Domain)
    ensures domain == Applied(i, d)
  {
    domain := Transfer(i, d);
    ghost var lost: set<Register> := {};
    for k := 0 to |i.operands|
      invariant IsTracked(i.mnemonic) ==> domain == Transfer(i, d)
      invariant !IsTracked(i.mnemonic) ==>
                  domain == map r | r in d && (i.WritesBefore(r, k) ==> KeptZero(d, r)) :: d[r]
    {
      if i.Writes(k) {
        var r := i.operands[k].reg;
        if r in domain && !KeptZero(domain, r) && !IsTracked(i.mnemonic) {
          domain := domain - {r};
        }
      }
    }
  }

  // ----- Soundness of the transfer function -----

  /** The state lies in the domain. */
  ghost predicate Covers(d: Domain, s: State) {
    forall r :: r in d ==> d[r].Contains(s.regs(r))
  }

  ghost predicate AllInhabited(d: Domain) {
    forall r :: r in d ==> d[r].Inhabited()
  }

  predicate Encloses(a: Interval, b: Interval) {
    a.lo <= b.lo && b.hi <= a.hi
  }

  /** The guard of an interval operation, on its operands. */
  predicate OperandsFit(m: Mnemonic, a: Interval, b: Interval)
    requires m in {ADD, SUB, AND, SHL, SHR}
  {
    match m
    case ADD => Window(a.lo + b.lo) == Window(a.hi + b.hi)
    case SUB => Window(a.lo - b.hi) == Window(a.hi - b.lo)
    case AND => (a.IsConstant() && b.IsConstant()) || a.lo >= 0 || b.lo >= 0
    case SHL =>
      if b.IsConstant()
      then a.IsConstant() || (Window(a.lo * Scale(b.lo)) == Window(a.hi * Scale(b.lo)) && Wrap(a.lo * Scale(b.lo)) >= 0)
      else a == Constant(0)
    case SHR =>
      if b.IsConstant()
      then a.lo >= 0 || (if a.IsConstant() then Scale(b.lo) == 1 else a.hi >= (TWO64 - 1) / Scale(b.lo))
      else a.lo >= 0
  }

  /** A shift by a register: the guard is about the interval that the domain has for the count,
      although the pass takes it to be unknown. */
  predicate CountFits(m: Mnemonic, a: Interval, count: Interval)
    requires m in {SHL, SHR}
  {
    if m.SHL? then ShlByFits(a, count) else ShrByFits(a, count)
  }

  predicate ItselfFits(m: Mnemonic, a: Interval)
    requires m in {SHL, SHR}
  {
    if m.SHL? then ShlByFits(a, a) else ShrItselfFits(a)
  }

  predicate ShiftFits(i: Instruction, d: Domain)
    requires i.mnemonic in {SHL, SHR} && i.Op(0).RegOp?
  {
    var a := GetRegisterInterval(d, i.Op(0).reg);
    if !i.Op(1).RegOp? then OperandsFit(i.mnemonic, a, SourceInterval(d, i.mnemonic, i.Op(1)))
    else if i.Op(1).reg == i.Op(0).reg then ItselfFits(i.mnemonic, a)
    else CountFits(i.mnemonic, a, GetRegisterInterval(d, i.Op(1).reg))
  }

  /** The instruction can be applied to the domain without losing a state: no bound leaves
      its window, and no interval is kept that the instruction, or what runs before control
      is back, makes stale. */
  ghost predicate Safe(i: Instruction, d: Domain, preserved: set<Register>) {
    var dst, src := i.Op(0), i.Op(1);
    match i.mnemonic
    case MOV => dst.RegOp? && !src.ImmOp? && dst.reg in d ==> Encloses(d[dst.reg], SourceInterval(d, MOV, src))
    case XOR =>
      dst.RegOp? && dst.reg in d ==>
        (src.RegOp? && src.reg == dst.reg) || XorStays(d[dst.reg], SourceInterval(d, XOR, src))
    case ADD | SUB | AND =>
      dst.RegOp? ==> OperandsFit(i.mnemonic, GetRegisterInterval(d, dst.reg), SourceInterval(d, i.mnemonic, src))
    case SHL | SHR => dst.RegOp? ==> ShiftFits(i, d)
    case LEA => dst.RegOp? && KeptZero(d, dst.reg) ==> i.KnownAddress(src) == Some(0)
    case PUSH | OTHER => forall r :: r in Applied(i, d) && i.MayChange(r, preserved) ==> Encloses(d[r], Top())
    case _ => true
  }

  ghost predicate SoundOperation(m: Mnemonic, a: Interval, b: Interval)
    requires m in {ADD, SUB, AND, SHL, SHR}
  {
    forall x: Word, y: Word :: a.Contains(x) && b.Contains(y) ==> Operate(m, a, b).Contains(Result(m, x, y))
  }

  /** The guard is exact for each operation, with the source intervals that occur. */
  lemma OperandsFitExact(m: Mnemonic, a: Interval, b: Interval)
    requires m in {ADD, SUB, AND, SHL, SHR}
    requires a.Inhabited() && b.Inhabited() && (m in {SHL, SHR} ==> b == Top() || b.IsConstant())
    ensures SoundOperation(m, a, b) <==> OperandsFit(m, a, b)
  {
    hide WordAnd, WordShl, WordShr, Wrap, Window, Scale;
    match m
    case ADD => AddExact(a, b); assert SoundOperation(m, a, b) <==> SoundAdd(a, b);
    case SUB => SubExact(a, b); assert SoundOperation(m, a, b) <==> SoundSub(a, b);
    case AND => AndExact(a, b); assert SoundOperation(m, a, b) <==> SoundAnd(a, b);
    case SHL =>
      if b.IsConstant() { ShlExact(a, b.lo); assert b == Constant(b.lo); } else { ShlTopExact(a); }
      assert SoundOperation(m, a, b) <==> SoundShl(a, b);
    case SHR =>
      if b.IsConstant() { ShrExact(a, b.lo); assert b == Constant(b.lo); } else { ShrTopExact(a); }
      assert SoundOperation(m, a, b) <==> SoundShr(a, b);
  }

  /** No words give no words. */
  lemma OperateStrict(m: Mnemonic, a: Interval, b: Interval)
    requires m in {ADD, SUB, AND, SHL, SHR} && (a.isBottom || b.isBottom)
    ensures forall z: Word :: !Operate(m, a, b).Contains(z)
  {
  }

  lemma SourceContains(d: Domain, s: State, m: Mnemonic, op: Operand, mem: Word)
    requires Covers(d, s)
    ensures SourceInterval(d, m, op).Contains(Value(op, s, mem))
  {
  }

  lemma OperationContains(m: Mnemonic, a: Interval, b: Interval, x: Word, y: Word)
    requires m in {ADD, SUB, AND, SHL, SHR} && OperandsFit(m, a, b)
    requires m in {SHL, SHR} ==> b == Top() || b.IsConstant()
    requires a.Contains(x) && b.Contains(y)
    ensures Operate(m, a, b).Contains(Result(m, x, y))
  {
    hide OperandsFit, Operate;
    OperandsFitExact(m, a, b);
  }

  lemma ResultOfMove(x: Word, y: Word)
    ensures Result(MOV, x, y) == y && Result(XOR, x, y) == WordXor(x, y)
  {
  }

  /** What a safe XOR leaves in its register is in the interval that the domain has for it. */
  lemma XorContains(i: Instruction, d: Domain, x: Word, y: Word)
    requires i.mnemonic.XOR? && i.Op(0).RegOp? && Safe(i, d, {})
    requires GetRegisterInterval(d, i.Op(0).reg).Contains(x) && SourceInterval(d, XOR, i.Op(1)).Contains(y)
    requires i.Op(1).RegOp? && i.Op(1).reg == i.Op(0).reg ==> x == y
    ensures i.Op(0).reg in Applied(i, d) ==> Applied(i, d)[i.Op(0).reg].Contains(Result(XOR, x, y))
  {
    hide WordXor, XorStays;
    ResultOfMove(x, y);
    var r := i.Op(0).reg;
    if i.Op(1).RegOp? && i.Op(1).reg == r {
      WordXorSelf(x);
    } else if r in d {
      XorStaysExact(d[r], SourceInterval(d, XOR, i.Op(1)));
    }
  }

  lemma CountExact(m: Mnemonic, a: Interval, b: Interval)
    requires m in {SHL, SHR} && a.Inhabited() && b.Inhabited()
    ensures CountFits(m, a, b) <==>
            forall x: Word, y: Word :: a.Contains(x) && b.Contains(y) ==> Operate(m, a, Top()).Contains(Result(m, x, y))
  {
    hide WordShl, WordShr, ShlByFits, ShrByFits;
    ShlByExact(a, b);
    ShrByExact(a, b);
  }

  lemma ItselfExact(m: Mnemonic, a: Interval)
    requires m in {SHL, SHR} && a.Inhabited()
    ensures ItselfFits(m, a) <==> forall x: Word :: a.Contains(x) ==> Operate(m, a, Top()).Contains(Result(m, x, x))
  {
    hide WordShl, WordShr, ShlByFits, ShrItselfFits;
    ShlItselfExact(a);
    ShrItselfExact(a);
  }

  /** What a shift that fits leaves in its register is in the interval that the pass computes. */
  lemma ShiftContains(i: Instruction, d: Domain, x: Word, y: Word)
    requires i.mnemonic in {SHL, SHR} && i.Op(0).RegOp? && ShiftFits(i, d)
    requires GetRegisterInterval(d, i.Op(0).reg).Contains(x)
    requires if i.Op(1).RegOp? then GetRegisterInterval(d, i.Op(1).reg).Contains(y)
             else SourceInterval(d, i.mnemonic, i.Op(1)).Contains(y)
    requires i.Op(1).RegOp? && i.Op(1).reg == i.Op(0).reg ==> x == y
    ensures Operate(i.mnemonic, GetRegisterInterval(d, i.Op(0).reg), SourceInterval(d, i.mnemonic, i.Op(1)))
              .Contains(Result(i.mnemonic, x, y))
  {
    var a := GetRegisterInterval(d, i.Op(0).reg);
    hide OperandsFit, WordShl, WordShr, ShlByFits, ShrByFits, ShrItselfFits;
    if !i.Op(1).RegOp? {
      hide Operate, Result;
      OperationContains(i.mnemonic, a, SourceInterval(d, i.mnemonic, i.Op(1)), x, y);
    } else if i.Op(1).reg == i.Op(0).reg {
      hide Operate, Result;
      ItselfExact(i.mnemonic, a);
    } else {
      hide Operate, Result;
      CountExact(i.mnemonic, a, GetRegisterInterval(d, i.Op(1).reg));
    }
  }

  /** A safe instruction takes every covered state to a covered state. */
  lemma ApplySound(i: Instruction, d: Domain, s: State, t: State, preserved: set<Register>)
    requires i.Listed() && Safe(i, d, preserved) && Covers(d, s) && Steps(i, s, t, preserved)
    ensures Covers(Applied(i, d), t)
  {
    var mem: Word, other: Word :| Executes(i, s, t, mem, other, preserved);
    var dst, src := i.Op(0), i.Op(1);
    SourceContains(d, s, i.mnemonic, src, mem);
    if dst.RegOp? {
      var x, y := s.regs(dst.reg), Value(src, s, mem);
      hide OperandsFit, ShiftFits, Operate, Result, WordXor, XorStays;
      if i.mnemonic in {SHL, SHR} {
        ShiftContains(i, d, x, y);
      } else if i.mnemonic in {ADD, SUB, AND} {
        OperationContains(i.mnemonic, GetRegisterInterval(d, dst.reg), SourceInterval(d, i.mnemonic, src), x, y);
      } else if i.mnemonic.XOR? {
        XorContains(i, d, x, y);
      } else if i.mnemonic.MOV? {
        assert Result(MOV, x, y) == y by { ResultOfMove(x, y); }
      } else if i.mnemonic.LEA? {
        assert i.Writes(0) && i.operands[0].reg == dst.reg;
        assert i.MayWrite(dst.reg);
      }
    }
  }

  // ----- What is known afterwards -----

  /** The domain knows one word for the register. */
  ghost predicate KnowsWord(d: Domain, r: Register, v: Word) {
    r in d && forall w: Word :: d[r].Contains(w) <==> w == v
  }

  lemma WordIsConstant(d: Domain, r: Register, v: Word)
    requires KnowsWord(d, r, v)
    ensures d[r].IsConstant() && d[r].lo == v
  {
    assert d[r].Contains(v);
    assert d[r].Contains(d[r].lo) && d[r].Contains(d[r].hi);
  }

  ghost predicate Known(d: Domain, r: Register) {
    exists v :: KnowsWord(d, r, v)
  }

  /** The instruction computes the word in its first operand from known ones: an immediate, a register
      with itself, or a known register and an immediate or, unless it is a count, another one. */
  ghost predicate FromKnown(i: Instruction, d: Domain) {
    && i.Op(0).RegOp?
    && match i.mnemonic
       case MOV => i.Op(1).ImmOp?
       case XOR => i.Op(1).RegOp? && i.Op(1).reg == i.Op(0).reg
       case ADD | SUB | AND =>
         Known(d, i.Op(0).reg) && (i.Op(1).ImmOp? || (i.Op(1).RegOp? && Known(d, i.Op(1).reg)))
       case SHL | SHR => Known(d, i.Op(0).reg) && i.Op(1).ImmOp?
       case _ => false
  }

  lemma KnownIsConstant(d: Domain, r: Register)
    requires Known(d, r)
    ensures r in d && d[r].IsConstant()
  {
    var v :| KnowsWord(d, r, v);
    WordIsConstant(d, r, v);
  }

  lemma OperateConstants(m: Mnemonic, a: Interval, b: Interval)
    requires m in {ADD, SUB, AND, SHL, SHR} && a.IsConstant() && b.IsConstant()
    ensures Operate(m, a, b).IsConstant()
  {
    hide WordAnd, WordShl, WordSar, Wrap;
  }

  lemma CoversRegister(d: Domain, s: State, r: Register)
    requires Covers(d, s) && r in d
    ensures d[r].Contains(s.regs(r))
  {
  }

  /** Where it is safe, the word is known: the one that the machine computes. */
  lemma KnownAfter(i: Instruction, d: Domain, preserved: set<Register>)
    requires i.Listed() && FromKnown(i, d) && Safe(i, d, preserved)
    ensures Known(Applied(i, d), i.Op(0).reg)
    ensures forall s, t :: Covers(d, s) && Steps(i, s, t, preserved) ==>
              KnowsWord(Applied(i, d), i.Op(0).reg, t.regs(i.Op(0).reg))
  {
    hide Safe, Covers, Steps, Operate;
    var r, after := i.Op(0).reg, Applied(i, d);
    if i.mnemonic in {ADD, SUB, AND, SHL, SHR} {
      KnownIsConstant(d, r);
      if i.Op(1).RegOp? {
        KnownIsConstant(d, i.Op(1).reg);
      }
      OperateConstants(i.mnemonic, GetRegisterInterval(d, r), SourceInterval(d, i.mnemonic, i.Op(1)));
    }
    assert r in after && after[r].IsConstant();
    assert KnowsWord(after, r, after[r].lo);
    forall s, t | Covers(d, s) && Steps(i, s, t, preserved) ensures KnowsWord(after, r, t.regs(r)) {
      ApplySound(i, d, s, t, preserved);
      assert Covers(after, t) ==> after[r].Contains(t.regs(r)) by {
        CoversRegister(after, t, r);
      }
    }
  }

  ghost predicate SameEntry(d: Domain, e: Domain, r: Register) {
    (r in d <==> r in e) && (r in d ==> e[r] == d[r])
  }

  /** A register that the instruction does not write keeps its interval. */
  lemma UnwrittenKept(i: Instruction, d: Domain, r: Register)
    requires i.Listed() && !i.MayWrite(r)
    ensures SameEntry(d, Applied(i, d), r)
  {
    if IsTracked(i.mnemonic) && i.Op(0).RegOp? {
      assert i.Writes(0) && i.operands[0].reg == i.Op(0).reg;
      assert i.WritesBefore(i.Op(0).reg, |i.operands|);
    }
  }

  lemma KeptZeroIs(d: Domain, r: Register)
    ensures KeptZero(d, r) <==> KnowsWord(d, r, 0) && r in {0, 1, 2, 3, 4, 5}
  {
    if KnowsWord(d, r, 0) {
      WordIsConstant(d, r, 0);
    }
  }

  /** A written one loses it, unless it is a zero in the A, C or D register, or the instruction is a
      tracked one with another destination. */
  lemma WrittenLost(i: Instruction, d: Domain, r: Register)
    requires i.MayWrite(r)
    ensures i.mnemonic in {MOV, XOR, ADD, SUB, AND, SHL, SHR} && !(i.Op(0).RegOp? && i.Op(0).reg == r) ==>
              SameEntry(d, Applied(i, d), r)
    ensures i.mnemonic in {LEA, TEST, CMP, JZ, JNZ, JS, JNS, PUSH, OTHER} ==>
              if KnowsWord(d, r, 0) && r in {0, 1, 2, 3, 4, 5} then SameEntry(d, Applied(i, d), r)
              else r !in Applied(i, d)
  {
    hide Operate;
    KeptZeroIs(d, r);
  }

  // ----- Handing a domain on -----

  /** A state that the first domain covers is covered by the second: what that knows of a
      register is no more than the first one does. */
  ghost predicate HandsOn(d: Domain, e: Domain) {
    forall r :: r in e ==> !e[r].isBottom && Encloses(e[r], GetRegisterInterval(d, r))
  }

  /** A covered state with given values in two registers. */
  function StateWith(d: Domain, r: Register, x: Word, q: Register, y: Word): State {
    State((p: Register) => if p == r then x else if p == q then y else if p in d then d[p].lo else 0, false, false)
  }

  lemma HandsOnCovers(d: Domain, e: Domain, s: State)
    requires HandsOn(d, e) && Covers(d, s)
    ensures Covers(e, s)
  {
  }

  /** That is the exact condition, for a domain without empty intervals. */
  lemma HandsOnExact(d: Domain, e: Domain)
    requires AllInhabited(d)
    ensures HandsOn(d, e) <==> forall s :: Covers(d, s) ==> Covers(e, s)
  {
    if HandsOn(d, e) {
      forall s | Covers(d, s) ensures Covers(e, s) {
        HandsOnCovers(d, e, s);
      }
    } else {
      var r :| r in e && !(!e[r].isBottom && Encloses(e[r], GetRegisterInterval(d, r)));
      var a := GetRegisterInterval(d, r);
      var s, t := StateWith(d, r, a.lo, r, a.lo), StateWith(d, r, a.hi, r, a.hi);
      assert Covers(d, s) && Covers(d, t);
      assert s.regs(r) == a.lo && t.regs(r) == a.hi;
      assert !Covers(e, s) || !Covers(e, t);
    }
  }

  // ----- The guard is exact -----

  /** The instruction loses no covered state. */
  ghost predicate SoundStep(i: Instruction, d: Domain, preserved: set<Register>) {
    forall s, t :: Covers(d, s) && Steps(i, s, t, preserved) ==> Covers(Applied(i, d), t)
  }

  function After(s: State, r: Register, v: Word): State {
    var regs: Register -> Word := s.regs;
    State((p: Register) => if p == r then v else regs(p), false, false)
  }

  /** A sound step with one pair of operand values: the result is in the new interval. */
  lemma ResultKept(i: Instruction, d: Domain, x: Word, y: Word, preserved: set<Register>)
    requires SoundStep(i, d, preserved) && AllInhabited(d) && i.Op(0).RegOp?
    requires i.mnemonic in {MOV, XOR, ADD, SUB, AND, SHL, SHR}
    requires GetRegisterInterval(d, i.Op(0).reg).Contains(x)
    requires if i.Op(1).RegOp? then GetRegisterInterval(d, i.Op(1).reg).Contains(y)
             else SourceInterval(d, i.mnemonic, i.Op(1)).Contains(y)
    requires i.Op(1).RegOp? && i.Op(1).reg == i.Op(0).reg ==> x == y
    ensures i.Op(0).reg in Applied(i, d) ==> Applied(i, d)[i.Op(0).reg].Contains(Result(i.mnemonic, x, y))
  {
    hide Result, Operate;
    var r, src := i.Op(0).reg, i.Op(1);
    var s := StateWith(d, r, x, if src.RegOp? then src.reg else r, y);
    var t := After(s, r, Result(i.mnemonic, x, y));
    assert Covers(d, s);
    assert Value(src, s, y) == y;
    assert Executes(i, s, t, y, 0, preserved);
    assert Steps(i, s, t, preserved);
  }

  lemma SoundOnOperands(i: Instruction, d: Domain, preserved: set<Register>)
    requires SoundStep(i, d, preserved) && AllInhabited(d) && i.Op(0).RegOp?
    requires i.mnemonic in {ADD, SUB, AND, SHL, SHR} && (i.Op(1).RegOp? ==> i.mnemonic in {ADD, SUB, AND})
    requires !(i.Op(1).RegOp? && i.Op(1).reg == i.Op(0).reg)
    ensures Safe(i, d, preserved)
  {
    hide SoundStep;
    var a, b := GetRegisterInterval(d, i.Op(0).reg), SourceInterval(d, i.mnemonic, i.Op(1));
    forall x: Word, y: Word | a.Contains(x) && b.Contains(y)
      ensures Operate(i.mnemonic, a, b).Contains(Result(i.mnemonic, x, y))
    {
      ResultKept(i, d, x, y, preserved);
    }
    OperandsFitExact(i.mnemonic, a, b);
  }

  lemma DoublesEscape(a: Interval) returns (x: Word)
    requires a.Inhabited() && Window(a.lo + a.lo) != Window(a.hi + a.hi)
    ensures a.Contains(x) && !a.Add(a).Contains(Wrap(x + x))
  {
    var b := BorderCrossed(a.lo, a.hi, 2);
    x := b + 1;
    assert Wrap(x as int + x as int) == MIN;
    if a.Add(a).Contains(MIN) {
      x := b;
    }
  }

  /** An operation of a register on itself sees equal operands only; the guard is still exact. */
  lemma FitsItself(m: Mnemonic, a: Interval)
    requires m in {ADD, SUB, AND} && a.Inhabited()
    requires forall x: Word :: a.Contains(x) ==> Operate(m, a, a).Contains(Result(m, x, x))
    ensures OperandsFit(m, a, a)
  {
    assert a.Contains(a.lo) && a.Contains(a.hi);
    match m
    case ADD =>
      if Window(a.lo + a.lo) != Window(a.hi + a.hi) {
        var x := DoublesEscape(a);
      }
    case SUB => assert a.Sub(a).Contains(0);
    case AND => WordAndSelf(a.lo);
  }

  lemma SoundOnItself(i: Instruction, d: Domain, preserved: set<Register>)
    requires SoundStep(i, d, preserved) && AllInhabited(d) && i.Op(0).RegOp?
    requires i.mnemonic in {ADD, SUB, AND}
    requires i.Op(1).RegOp? && i.Op(1).reg == i.Op(0).reg
    ensures Safe(i, d, preserved)
  {
    hide SoundStep, Operate, OperandsFit, Result;
    var a := GetRegisterInterval(d, i.Op(0).reg);
    forall x: Word | a.Contains(x) ensures Operate(i.mnemonic, a, a).Contains(Result(i.mnemonic, x, x)) {
      ResultKept(i, d, x, x, preserved);
    }
    FitsItself(i.mnemonic, a);
  }

  /** A sound shift by a register fits: its result is right for every pair of values, or for every
      one if the register is shifted by itself. */
  lemma SoundShift(i: Instruction, d: Domain, preserved: set<Register>)
    requires SoundStep(i, d, preserved) && AllInhabited(d) && i.mnemonic in {SHL, SHR}
    requires i.Op(0).RegOp? && i.Op(1).RegOp?
    ensures Safe(i, d, preserved)
  {
    hide SoundStep, WordShl, WordShr, ShlByFits, ShrByFits, ShrItselfFits;
    var a, b := GetRegisterInterval(d, i.Op(0).reg), GetRegisterInterval(d, i.Op(1).reg);
    if i.Op(1).reg == i.Op(0).reg {
      forall x: Word | a.Contains(x) ensures Operate(i.mnemonic, a, Top()).Contains(Result(i.mnemonic, x, x)) {
        ResultKept(i, d, x, x, preserved);
      }
      ItselfExact(i.mnemonic, a);
    } else {
      forall x: Word, y: Word | a.Contains(x) && b.Contains(y)
        ensures Operate(i.mnemonic, a, Top()).Contains(Result(i.mnemonic, x, y))
      {
        ResultKept(i, d, x, y, preserved);
      }
      CountExact(i.mnemonic, a, b);
    }
  }

  lemma SoundMove(i: Instruction, d: Domain, preserved: set<Register>)
    requires SoundStep(i, d, preserved) && AllInhabited(d) && i.mnemonic.MOV?
    ensures Safe(i, d, preserved)
  {
    hide SoundStep;
    if i.Op(0).RegOp? && i.Op(0).reg in d && !i.Op(1).ImmOp? && !(i.Op(1).RegOp? && i.Op(1).reg == i.Op(0).reg) {
      var a, b := d[i.Op(0).reg], SourceInterval(d, MOV, i.Op(1));
      ResultKept(i, d, a.lo, b.lo, preserved);
      ResultKept(i, d, a.lo, b.hi, preserved);
    }
  }

  lemma SoundXor(i: Instruction, d: Domain, preserved: set<Register>)
    requires SoundStep(i, d, preserved) && AllInhabited(d) && i.mnemonic.XOR?
    ensures Safe(i, d, preserved)
  {
    hide SoundStep, WordXor, XorStays;
    if i.Op(0).RegOp? && i.Op(0).reg in d && !(i.Op(1).RegOp? && i.Op(1).reg == i.Op(0).reg) {
      var a, b := d[i.Op(0).reg], SourceInterval(d, XOR, i.Op(1));
      forall x: Word, y: Word | a.Contains(x) && b.Contains(y) ensures a.Contains(WordXor(x, y)) {
        ResultKept(i, d, x, y, preserved);
        ResultOfMove(x, y);
      }
      XorStaysExact(a, b);
    }
  }

  lemma SoundAddress(i: Instruction, d: Domain, preserved: set<Register>)
    requires SoundStep(i, d, preserved) && AllInhabited(d) && i.mnemonic.LEA?
    ensures Safe(i, d, preserved)
  {
    if i.Op(0).RegOp? && KeptZero(d, i.Op(0).reg) {
      var r := i.Op(0).reg;
      var s := StateWith(d, r, 0, r, 0);
      var known := i.KnownAddress(i.Op(1));
      var t := After(s, r, if known.Some? then known.value else 1);
      assert Covers(d, s) && Executes(i, s, t, 0, 1, preserved) && Steps(i, s, t, preserved);
      assert r in Applied(i, d) && Applied(i, d)[r].Contains(t.regs(r));
    }
  }

  /** An interval that is kept for a register which may change, and does not hold every word,
      loses a state. */
  lemma KeptIsStale(i: Instruction, d: Domain, r: Register, preserved: set<Register>)
    requires AllInhabited(d) && (i.mnemonic.PUSH? || i.mnemonic.OTHER?)
    requires r in Applied(i, d) && i.MayChange(r, preserved) && !Encloses(d[r], Top())
    ensures !SoundStep(i, d, preserved)
  {
    var v := if d[r].hi < MAX then MAX else MIN;
    var s := StateWith(d, r, d[r].lo, r, d[r].lo);
    var t := After(s, r, v);
    assert Covers(d, s) && Executes(i, s, t, 0, 0, preserved) && Steps(i, s, t, preserved);
    assert !Applied(i, d)[r].Contains(t.regs(r));
  }

  lemma KeptZeroStale(i: Instruction, d: Domain, r: Register, preserved: set<Register>)
    requires AllInhabited(d) && (i.mnemonic.PUSH? || i.mnemonic.OTHER?) && i.MayWrite(r) && KeptZero(d, r)
    ensures !SoundStep(i, d, preserved)
  {
    KeptIsStale(i, d, r, preserved);
  }

  lemma SoundOther(i: Instruction, d: Domain, preserved: set<Register>)
    requires SoundStep(i, d, preserved) && AllInhabited(d) && (i.mnemonic.PUSH? || i.mnemonic.OTHER?)
    ensures Safe(i, d, preserved)
  {
    hide SoundStep;
    forall r | r in Applied(i, d) && i.MayChange(r, preserved) ensures Encloses(d[r], Top()) {
      if !Encloses(d[r], Top()) {
        KeptIsStale(i, d, r, preserved);
      }
    }
  }

  /** For every instruction, and every domain without empty intervals, the guard holds exactly
      when the instruction is sound. */
  lemma ApplyExact(i: Instruction, d: Domain, preserved: set<Register>)
    requires i.Listed() && AllInhabited(d)
    ensures SoundStep(i, d, preserved) <==> Safe(i, d, preserved)
  {
    if Safe(i, d, preserved) {
      forall s, t | Covers(d, s) && Steps(i, s, t, preserved) ensures Covers(Applied(i, d), t) {
        ApplySound(i, d, s, t, preserved);
      }
    }
    if SoundStep(i, d, preserved) {
      hide SoundStep;
      match i.mnemonic {
        case SHL | SHR =>
          if i.Op(0).RegOp? && i.Op(1).RegOp? {
            SoundShift(i, d, preserved);
          } else if i.Op(0).RegOp? {
            SoundOnOperands(i, d, preserved);
          }
        case ADD | SUB | AND =>
          if i.Op(0).RegOp? && i.Op(1).RegOp? && i.Op(1).reg == i.Op(0).reg {
            SoundOnItself(i, d, preserved);
          } else if i.Op(0).RegOp? {
            SoundOnOperands(i, d, preserved);
          }
        case MOV => SoundMove(i, d, preserved);
        case XOR => SoundXor(i, d, preserved);
        case LEA => SoundAddress(i, d, preserved);
        case PUSH | OTHER => SoundOther(i, d, preserved);
        case _ =>
      }
    }
  }

  /** A call, or a system call, is sound exactly when every interval that it leaves for a
      register which need not be preserved holds every word. */
  lemma CallExact(i: Instruction, d: Domain, preserved: set<Register>)
    requires i.Listed() && i.Leaves() && AllInhabited(d)
    ensures SoundStep(i, d, preserved) <==>
            forall r :: r in d && (if i.MayWrite(r) then KeptZero(d, r) else r !in preserved) ==> Encloses(d[r], Top())
  {
    hide SoundStep;
    ApplyExact(i, d, preserved);
  }
}
