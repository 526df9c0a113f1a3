/** Executions of a function, and what the passes say of them. */
module Executions {
  import opened Blocks
  import opened ControlFlow
  import opened Options
  import opened Instructions
  import opened Image
  import opened Layout
  import opened ControlPaths
  import opened Machine
  import opened Tours
  import opened BranchVerdicts
  import opened OpaquePredicates
  import DataFlow

  /** An address, and the state in front of the instruction there. */
  datatype Point = Point(pc: Address, state: State)

  /** In this state control may go from x to y: behind a branch to its target or past it, as the flags
      say where the instruction reads just these; behind an indirect one anywhere; behind a return out
      of the function. A call comes back. */
  ghost predicate Continues(bin: Binary, x: Address, s: State, y: Address)
    requires bin.Decodes(x)
  {
    var i, target, next := bin.decode(x).value, bin.DirectTarget(x), bin.Next(x);
    match i.category
    case Return => false
    case UncondBranch => target.Some? ==> y == target.value
    case CondBranch =>
      target.Some? ==> if IsFlagBranch(i.mnemonic) then y == NextAddress(i.mnemonic, s, target.value, next)
                       else y == target.value || y == next
    case _ => y == next
  }

  ghost predicate MovesOn(bin: Binary, p: Point, q: Point, preserved: set<Register>) {
    bin.Decodes(p.pc) && Steps(bin.decode(p.pc).value, p.state, q.state, preserved)
    && Continues(bin, p.pc, p.state, q.pc)
  }

  ghost predicate IsExecution(bin: Binary, e: seq<Point>, preserved: set<Register>) {
    e != [] && forall k :: 0 <= k < |e| - 1 ==> MovesOn(bin, e[k], e[k + 1], preserved)
  }

  ghost predicate LeavesRecorded(c: Scope, x: Address, y: Address) {
    c.bin.Decodes(x) && (c.bin.decode(x).value.EndsBlock() ==> y in c.SuccessorsAfter(x))
  }

  /** An execution of the function, from the entry, which stays inside and leaves a block by recorded
      successors only. */
  ghost predicate RunsInside(c: Scope, visited: set<Address>, e: seq<Point>, preserved: set<Register>) {
    && IsExecution(c.bin, e, preserved) && e[0].pc == c.entry
    && (forall k :: 0 <= k < |e| ==> Inside(c, visited, e[k].pc))
    && (forall k :: 0 <= k < |e| - 1 ==> LeavesRecorded(c, e[k].pc, e[k + 1].pc))
  }

  // ----- Which executions these are -----

  predicate IsIndirect(i: Instruction) {
    (i.category.UncondBranch? || i.category.CondBranch?) && !i.Op(0).ImmOp?
  }

  /** The instruction before is no indirect jump, and the next address is executable. */
  ghost predicate MovesDirectly(bin: Binary, x: Address, y: Address) {
    bin.Decodes(x) && !IsIndirect(bin.decode(x).value) && bin.IsExecutableAddress(y)
  }

  lemma TrampolineAlone(c: Scope, p: seq<Address>, x: Address)
    requires c.IsTrampoline(c.entry) && c.IsTrail(p, x)
    ensures x == c.entry
  {
    TrailGoesOn(c, p, x);
  }

  lemma DirectIsRecorded(c: Scope, visited: set<Address>, p: Point, q: Point, preserved: set<Register>)
    requires forall x :: x in visited <==> x in c.before || c.Reached(x)
    requires Inside(c, visited, p.pc) && Inside(c, visited, q.pc)
    requires MovesOn(c.bin, p, q, preserved) && MovesDirectly(c.bin, p.pc, q.pc)
    requires p.pc == c.entry == q.pc ==> !c.IsTrampoline(p.pc)
    ensures LeavesRecorded(c, p.pc, q.pc)
  {
    assert c.Reached(q.pc);
    ReachedIsOpen(c, q.pc);
    if c.IsTrampoline(p.pc) {
      var t :| c.IsTrail(t, q.pc);
      TrampolineAlone(c, t, q.pc);
    }
  }

  /** An execution from the entry that stays in the function leaves blocks by recorded successors if
      it takes no indirect jump, executes only executable addresses, and does not jump from the entry
      to itself. */
  lemma DirectRunsInside(c: Scope, visited: set<Address>, e: seq<Point>, preserved: set<Register>)
    requires forall x :: x in visited <==> x in c.before || c.Reached(x)
    requires IsExecution(c.bin, e, preserved) && e[0].pc == c.entry
    requires forall k :: 0 <= k < |e| ==> Inside(c, visited, e[k].pc)
    requires forall k :: 0 <= k < |e| - 1 ==> MovesDirectly(c.bin, e[k].pc, e[k + 1].pc)
    requires c.IsTrampoline(c.entry) ==> c.bin.DirectTarget(c.entry) != Some(c.entry)
    ensures RunsInside(c, visited, e, preserved)
  {
    forall k | 0 <= k < |e| - 1 ensures LeavesRecorded(c, e[k].pc, e[k + 1].pc) {
      assert MovesOn(c.bin, e[k], e[k + 1], preserved) && MovesDirectly(c.bin, e[k].pc, e[k + 1].pc);
      DirectIsRecorded(c, visited, e[k], e[k + 1], preserved);
    }
  }

  lemma RunsInsideFront(c: Scope, visited: set<Address>, e: seq<Point>, preserved: set<Register>, n: nat)
    requires RunsInside(c, visited, e, preserved) && 0 < n <= |e|
    ensures RunsInside(c, visited, e[..n], preserved)
  {
    var f := e[..n];
    assert forall k :: 0 <= k < n ==> f[k] == e[k];
    forall k | 0 <= k < n - 1
      ensures MovesOn(c.bin, f[k], f[k + 1], preserved) && LeavesRecorded(c, f[k].pc, f[k + 1].pc)
    {
      assert MovesOn(c.bin, e[k], e[k + 1], preserved) && LeavesRecorded(c, e[k].pc, e[k + 1].pc);
    }
  }

  ghost function Addresses(e: seq<Point>): (p: seq<Address>)
    ensures |p| == |e| && forall k :: 0 <= k < |e| ==> p[k] == e[k].pc
  {
    seq(|e|, k requires 0 <= k < |e| => e[k].pc)
  }

  lemma ExecutionIsControlPath(c: Scope, visited: set<Address>, e: seq<Point>, preserved: set<Register>)
    requires RunsInside(c, visited, e, preserved)
    ensures IsControlPath(c, visited, Addresses(e))
  {
    var p := Addresses(e);
    forall k | 0 <= k < |p| - 1 ensures Goes(c, p[k], p[k + 1]) {
      assert MovesOn(c.bin, e[k], e[k + 1], preserved) && LeavesRecorded(c, e[k].pc, e[k + 1].pc);
    }
  }

  // ----- Executions are tours -----

  /** The points of a run through instructions, as far as it gets. */
  ghost function PointsOf(insns: seq<Instruction>, run: seq<State>): (r: seq<Point>)
    ensures |r| == if |insns| <= |run| then |insns| else |run|
    ensures forall k :: 0 <= k < |r| ==> r[k] == Point(insns[k].address, run[k])
  {
    seq(if |insns| <= |run| then |insns| else |run|,
        k requires 0 <= k < |insns| && k < |run| => Point(insns[k].address, run[k]))
  }

  /** The points of the first n runs of a tour. */
  ghost function PointsBefore(bs: seq<Block>, code: Code, t: Tour, n: nat): seq<Point>
    requires |t.walk| == |t.runs| && n <= |t.walk| && forall i :: 0 <= i < |t.walk| ==> t.walk[i] < |bs|
  {
    if n == 0 then [] else PointsBefore(bs, code, t, n - 1) + PointsOf(InsnsOf(code, bs[t.walk[n - 1]]), t.runs[n - 1])
  }

  ghost predicate StopsAt(insns: seq<Instruction>, run: seq<State>, p: Point) {
    0 < |run| <= |insns| && p == Point(insns[|run| - 1].address, run[|run| - 1])
  }

  /** The tour goes through exactly these points, and stops in front of the last one. */
  ghost predicate Spells(bs: seq<Block>, code: Code, t: Tour, e: seq<Point>) {
    && |t.walk| == |t.runs| > 0 && (forall i :: 0 <= i < |t.walk| ==> t.walk[i] < |bs|)
    && PointsBefore(bs, code, t, |t.walk|) == e != []
    && StopsAt(InsnsOf(code, bs[t.walk[|t.walk| - 1]]), t.runs[|t.runs| - 1], e[|e| - 1])
    && t.walk[|t.walk| - 1] == Lookup(bs, e[|e| - 1].pc)
  }

  lemma {:induction false} SamePoints(bs: seq<Block>, code: Code, t: Tour, u: Tour, n: nat)
    requires |t.walk| == |t.runs| && n <= |t.walk| && forall i :: 0 <= i < |t.walk| ==> t.walk[i] < |bs|
    requires |u.walk| == |u.runs| && n <= |u.walk| && forall i :: 0 <= i < |u.walk| ==> u.walk[i] < |bs|
    requires forall i :: 0 <= i < n ==> t.walk[i] == u.walk[i] && t.runs[i] == u.runs[i]
    ensures PointsBefore(bs, code, t, n) == PointsBefore(bs, code, u, n)
  {
    if n > 0 {
      SamePoints(bs, code, t, u, n - 1);
    }
  }

  lemma {:induction false} InsnsFirst(code: Code, lo: Address, hi: Address)
    requires WellAddressed(code) && lo < hi && lo in code
    ensures InsnsFrom(code, lo, hi) != [] && InsnsFrom(code, lo, hi)[0] == code[lo]
  {
  }

  /** Behind the n-th instruction comes the next one, unless the range ends there. */
  lemma {:induction false} InsnBehind(code: Code, lo: Address, hi: Address, n: nat)
    requires WellAddressed(code) && n < |InsnsFrom(code, lo, hi)|
    ensures var insns := InsnsFrom(code, lo, hi);
            var y := insns[n].address + insns[n].length;
            && insns[n].address in code && insns[n] == code[insns[n].address]
            && (y < hi && y in code ==> n + 1 < |insns| && insns[n + 1] == code[y])
            && (y >= hi ==> n + 1 == |insns|)
    decreases n
  {
    var rest := InsnsFrom(code, lo + code[lo].length, hi);
    assert InsnsFrom(code, lo, hi) == [code[lo]] + rest;
    if n > 0 {
      InsnBehind(code, lo + code[lo].length, hi, n - 1);
    }
  }

  lemma RunsOn(insns: seq<Instruction>, run: seq<State>, s: State, preserved: set<Register>)
    requires RunsInto(insns, run, preserved) && |run| <= |insns|
    requires Steps(insns[|run| - 1], run[|run| - 1], s, preserved)
    ensures RunsInto(insns, run + [s], preserved)
  {
    var more := run + [s];
    forall k | 0 <= k < |more| - 1 ensures Steps(insns[k], more[k], more[k + 1], preserved) {
      if k < |run| - 1 {
        assert Steps(insns[k], run[k], run[k + 1], preserved);
      }
    }
  }

  /** The last run goes one step further. */
  lemma TourStays(bs: seq<Block>, code: Code, t: Tour, s: State, preserved: set<Register>) returns (u: Tour)
    requires IsTour(bs, code, t, preserved)
    requires var i := |t.walk| - 1;
             t.walk[i] < |bs| && RunsInto(InsnsOf(code, bs[t.walk[i]]), t.runs[i] + [s], preserved)
    ensures IsTour(bs, code, u, preserved) && u.walk == t.walk
    ensures u.runs == t.runs[..|t.runs| - 1] + [t.runs[|t.runs| - 1] + [s]]
  {
    var i := |t.walk| - 1;
    u := Tour(t.walk, t.runs[..i] + [t.runs[i] + [s]]);
    hide RunsInto, InsnsOf, Edge;
    forall k | 0 <= k < |u.walk| ensures RunsThrough(bs, code, u, preserved, k) {
      assert RunsThrough(bs, code, t, preserved, k);
    }
    forall k | 0 <= k < |u.walk| - 1 ensures GoesOn(bs, code, u, k) {
      assert GoesOn(bs, code, t, k) && RunsThrough(bs, code, t, preserved, k + 1);
    }
  }

  /** A tour whose last run is complete goes on along an edge. */
  lemma TourGoesOn(bs: seq<Block>, code: Code, t: Tour, j: nat, preserved: set<Register>) returns (u: Tour)
    requires IsTour(bs, code, t, preserved) && Edge(bs, t.walk[|t.walk| - 1], j) && t.walk[|t.walk| - 1] < |bs|
    requires |t.runs[|t.runs| - 1]| == |InsnsOf(code, bs[t.walk[|t.walk| - 1]])| + 1
    ensures var run := t.runs[|t.runs| - 1];
            u.walk == t.walk + [j] && u.runs == t.runs + [[run[|run| - 1]]]
    ensures IsTour(bs, code, u, preserved)
  {
    var i := |t.walk| - 1;
    var run := t.runs[i];
    u := Tour(t.walk + [j], t.runs + [[run[|run| - 1]]]);
    hide InsnsOf, Edge;
    forall k | 0 <= k < |u.walk| ensures RunsThrough(bs, code, u, preserved, k) {
      if k <= i {
        assert RunsThrough(bs, code, t, preserved, k);
      }
    }
    forall k | 0 <= k < |u.walk| - 1 ensures GoesOn(bs, code, u, k) {
      if k < i {
        assert GoesOn(bs, code, t, k);
      }
    }
  }

  lemma StaysSpells(bs: seq<Block>, code: Code, t: Tour, u: Tour, e: seq<Point>, q: Point)
    requires Spells(bs, code, t, e) && u.walk == t.walk && |u.runs| == |t.runs|
    requires u.runs == t.runs[..|t.runs| - 1] + [t.runs[|t.runs| - 1] + [q.state]]
    requires StopsAt(InsnsOf(code, bs[u.walk[|u.walk| - 1]]), u.runs[|u.runs| - 1], q)
    requires Lookup(bs, q.pc) == u.walk[|u.walk| - 1]
    ensures Spells(bs, code, u, e + [q])
  {
    var i := |t.walk| - 1;
    var insns := InsnsOf(code, bs[t.walk[i]]);
    hide InsnsOf;
    SamePoints(bs, code, t, u, i);
    assert PointsOf(insns, u.runs[i]) == PointsOf(insns, t.runs[i]) + [q];
  }

  lemma GoesOnSpells(bs: seq<Block>, code: Code, t: Tour, u: Tour, w: Tour, e: seq<Point>, q: Point, j: nat)
    requires Spells(bs, code, t, e) && u.walk == t.walk && |u.runs| == |t.runs| && j < |bs|
    requires u.runs == t.runs[..|t.runs| - 1] + [t.runs[|t.runs| - 1] + [q.state]]
    requires |t.runs[|t.runs| - 1]| == |InsnsOf(code, bs[t.walk[|t.walk| - 1]])|
    requires w.walk == u.walk + [j] && w.runs == u.runs + [[q.state]]
    requires StopsAt(InsnsOf(code, bs[j]), [q.state], q) && Lookup(bs, q.pc) == j
    ensures Spells(bs, code, w, e + [q])
  {
    var i := |t.walk| - 1;
    var insns := InsnsOf(code, bs[t.walk[i]]);
    hide InsnsOf;
    SamePoints(bs, code, t, w, i);
    assert PointsOf(insns, w.runs[i]) == PointsOf(insns, t.runs[i]);
    assert PointsBefore(bs, code, w, i + 1) == e;
    assert PointsOf(InsnsOf(code, bs[j]), [q.state]) == [q];
  }

  lemma EdgeTo(bs: seq<Block>, i: nat, y: Address)
    requires i < |bs| && y in bs[i].succs && Lookup(bs, y) < |bs|
    ensures Edge(bs, i, Lookup(bs, y))
  {
  }

  /** One more step along the graph. */
  lemma TourExtends(bin: Binary, bs: seq<Block>, code: Code, t: Tour, e: seq<Point>, q: Point, preserved: set<Register>)
      returns (u: Tour)
    requires Separate(bs) && Sees(code, bin) && IsTour(bs, code, t, preserved) && Spells(bs, code, t, e)
    requires q.pc in code && MovesOn(bin, e[|e| - 1], q, preserved) && GraphGoes(bin, bs, e[|e| - 1].pc, q.pc)
    ensures IsTour(bs, code, u, preserved) && Spells(bs, code, u, e + [q])
  {
    hide Steps, PointsBefore, Continues, Edge;
    var i, x := |t.walk| - 1, e[|e| - 1].pc;
    var b, run := bs[t.walk[i]], t.runs[i];
    var insns := InsnsOf(code, b);
    InsnBehind(code, b.start, b.end, |run| - 1);
    assert RunsThrough(bs, code, t, preserved, i);
    RunsOn(insns, run, q.state, preserved);
    u := TourStays(bs, code, t, q.state, preserved);
    if q.pc == bin.Next(x) && q.pc < b.end {
      LookupIs(bs, t.walk[i], q.pc);
      StaysSpells(bs, code, t, u, e, q);
    } else {
      var j := Lookup(bs, q.pc);
      InsnsFirst(code, bs[j].start, bs[j].end);
      EdgeTo(bs, t.walk[i], q.pc);
      var w := TourGoesOn(bs, code, u, j, preserved);
      GoesOnSpells(bs, code, t, u, w, e, q, j);
      u := w;
    }
  }

  lemma FirstPoint(bs: seq<Block>, code: Code, p: Point, preserved: set<Register>) returns (t: Tour)
    requires WellAddressed(code) && p.pc in code && Lookup(bs, p.pc) == 0 < |bs| && bs[0].start == p.pc
    ensures IsTour(bs, code, t, preserved) && Spells(bs, code, t, [p])
  {
    t := Tour([0], [[p.state]]);
    InsnsFirst(code, bs[0].start, bs[0].end);
    assert RunsThrough(bs, code, t, preserved, 0);
    assert PointsBefore(bs, code, t, 0) == [];
    assert PointsBefore(bs, code, t, 1) == [p];
  }

  lemma GraphPathFront(bin: Binary, bs: seq<Block>, e: seq<Point>)
    requires IsGraphPath(bin, bs, Addresses(e)) && |e| > 1
    ensures IsGraphPath(bin, bs, Addresses(e[..|e| - 1])) && GraphGoes(bin, bs, e[|e| - 2].pc, e[|e| - 1].pc)
  {
    hide GraphGoes;
    var p, q := Addresses(e), Addresses(e[..|e| - 1]);
    assert GraphGoes(bin, bs, p[|e| - 2], p[|e| - 2 + 1]);
    forall k | 0 <= k < |q| - 1 ensures GraphGoes(bin, bs, q[k], q[k + 1]) {
      assert GraphGoes(bin, bs, p[k], p[k + 1]);
    }
  }

  lemma {:induction false} GraphPathIsTour(bin: Binary, bs: seq<Block>, code: Code, e: seq<Point>,
                                           preserved: set<Register>)
      returns (t: Tour)
    requires Separate(bs) && Sees(code, bin) && IsExecution(bin, e, preserved)
    requires IsGraphPath(bin, bs, Addresses(e)) && forall k :: 0 <= k < |e| ==> e[k].pc in code
    ensures IsTour(bs, code, t, preserved) && Spells(bs, code, t, e)
    decreases |e|
  {
    hide MovesOn, GraphGoes, IsTour, Spells, Separate;
    SeesAddresses(code, bin);
    var n := |e| - 1;
    if n == 0 {
      t := FirstPoint(bs, code, e[0], preserved);
      assert e == [e[0]];
    } else {
      GraphPathFront(bin, bs, e);
      assert MovesOn(bin, e[n - 1], e[n - 1 + 1], preserved);
      var front := e[..n];
      forall k | 0 <= k < n - 1 ensures MovesOn(bin, front[k], front[k + 1], preserved) {
        assert MovesOn(bin, e[k], e[k + 1], preserved);
      }
      t := GraphPathIsTour(bin, bs, code, front, preserved);
      t := TourExtends(bin, bs, code, t, front, e[n], preserved);
      assert front + [e[n]] == e;
    }
  }

  /** The module holds what is decoded, and every instruction of the function. */
  ghost predicate Knows(c: Scope, visited: set<Address>, code: Code) {
    Sees(code, c.bin) && forall a :: Inside(c, visited, a) ==> a in code
  }

  /** In a function without abandoned blocks every such execution is a tour. */
  lemma ExecutionIsTour(c: Scope, visited: set<Address>, raw: seq<Block>, cs: seq<Block>, code: Code, e: seq<Point>,
                        preserved: set<Register>)
      returns (t: Tour)
    requires Charted(c, visited, raw, cs) && !AnyAbandoned(raw) && Knows(c, visited, code)
    requires RunsInside(c, visited, e, preserved)
    ensures IsTour(cs, code, t, preserved) && Spells(cs, code, t, e)
  {
    ExecutionIsControlPath(c, visited, e, preserved);
    ControlPathInGraph(c, visited, raw, cs, Addresses(e));
    hide Laid, Refines, NoOverlap, IsTour, Spells, IsExecution, IsGraphPath;
    t := GraphPathIsTour(c.bin, cs, code, e, preserved);
  }

  // ----- The instructions of a part -----

  /** Only the last instruction of block k, at z, may end it; if it does, the block has its
      successors. */
  ghost predicate IsPart(c: Scope, cs: seq<Block>, code: Code, k: nat, z: Address) {
    && Separate(cs) && Sees(code, c.bin) && k < |cs| && z in code && c.bin.Next(z) == cs[k].end
    && (code[z].EndsBlock() ==> cs[k].succs == c.SuccessorsAfter(z))
    && var insns := InsnsOf(code, cs[k]);
       && insns != [] && insns[|insns| - 1] == code[z]
       && forall n :: 0 <= n < |insns| - 1 ==> !insns[n].EndsBlock()
  }

  lemma ClosedInside(c: Scope, visited: set<Address>, raw: seq<Block>, cs: seq<Block>, j: nat, last: Address)
    requires Charted(c, visited, raw, cs) && j < |raw| && ClosedAt(c, raw[j], last)
    ensures forall a :: a in Insns(c.bin, raw[j].start, raw[j].end) ==> Inside(c, visited, a)
  {
    hide NextsBehind, NoOverlap, Refines, Normalised, EntriesAmong;
    ClosedNonEmpty(c, raw[j], last);
    assert Own(c.bin, raw[j]) == Insns(c.bin, raw[j].start, raw[j].end);
  }

  lemma RunIsPart(c: Scope, cs: seq<Block>, code: Code, k: nat, z: Address)
    requires Separate(cs) && Sees(code, c.bin) && k < |cs|
    requires Straight(c.bin, cs[k].start, z) && c.bin.Decodes(z) && c.bin.Next(z) == cs[k].end
    requires forall a :: a in Insns(c.bin, cs[k].start, cs[k].end) ==> a in code
    requires c.bin.decode(z).value.EndsBlock() ==> cs[k].succs == c.SuccessorsAfter(z)
    ensures IsPart(c, cs, code, k, z)
  {
    hide Separate;
    RunInsns(code, c.bin, cs[k].start, z);
  }

  lemma ChartedSeparate(c: Scope, visited: set<Address>, raw: seq<Block>, cs: seq<Block>)
    requires Charted(c, visited, raw, cs)
    ensures Separate(cs)
  {
    hide Laid, NoOverlap, Refines;
  }

  /** An instruction of the function belongs to such a part, and is the last one there if it ends where
      the part does. */
  lemma PartInsns(c: Scope, visited: set<Address>, raw: seq<Block>, cs: seq<Block>, code: Code, x: Address)
      returns (z: Address)
    requires Charted(c, visited, raw, cs) && !AnyAbandoned(raw) && Knows(c, visited, code) && Inside(c, visited, x)
    ensures IsPart(c, cs, code, Lookup(cs, x), z)
    ensures c.bin.Decodes(x) && (c.bin.Next(x) == cs[Lookup(cs, x)].end ==> x == z)
  {
    hide Charted, AnyAbandoned, Separate, Sees, Straight, Insns, IsPart;
    ChartedSeparate(c, visited, raw, cs);
    var i, j, last := PlaceOf(c, visited, raw, cs, x);
    z := PartEnds(c, visited, raw, cs, i, j, last);
    PartBounds(c, visited, raw, cs, i, j, last, z);
    PartBounds(c, visited, raw, cs, i, j, last, x);
    if c.bin.Next(x) == c.bin.Next(z) {
      EndTogether(c.bin, raw[j].start, raw[j].end, x, z);
    }
    ClosedInside(c, visited, raw, cs, j, last);
    RunIsPart(c, cs, code, i, z);
  }

  // ----- The interval pass -----

  /** A verdict on the last instruction of the block fits what is compared in front of it. */
  ghost predicate VerdictFitsIn(cs: seq<Block>, code: Code, k: nat)
    requires k < |cs|
  {
    var insns, d := InsnsOf(code, cs[k]), DomainBefore(cs, code, k);
    insns != [] && !VerdictAt(d, insns, |insns| - 1).Unknown? ==> FitsAt(d, insns, |insns| - 1)
  }

  /** So it is in all blocks that the entry block reaches. */
  ghost predicate VerdictsFit(cs: seq<Block>, code: Code) {
    forall k: nat :: k < |cs| && BlockReach(cs, 0, k) ==> VerdictFitsIn(cs, code, k)
  }

  lemma FitsInBlock(cs: seq<Block>, code: Code, k: nat)
    requires VerdictsFit(cs, code) && k < |cs| && BlockReach(cs, 0, k)
    ensures VerdictFitsIn(cs, code, k)
  {
  }

  lemma StopsOnce(code: Code, b: Block, run: seq<State>, p: Point, n: nat)
    requires WellAddressed(code) && StopsAt(InsnsOf(code, b), run, p)
    requires n < |InsnsOf(code, b)| && InsnsOf(code, b)[n].address == p.pc
    ensures n == |run| - 1 && p.state == run[n] && p.pc in code && InsnsOf(code, b)[n] == code[p.pc]
  {
    InsnsAscend(code, b.start, b.end);
    InsnBehind(code, b.start, b.end, n);
  }

  /** Where a tour stops at a branch with a result, that says which way it goes. */
  lemma StopVerdictRight(c: Scope, cs: seq<Block>, code: Code, k: nat, z: Address, t: Tour, e: seq<Point>,
                         preserved: set<Register>)
    requires IsTour(cs, code, t, preserved) && Spells(cs, code, t, e)
    requires IsPart(c, cs, code, k, z) && k == Lookup(cs, e[|e| - 1].pc)
    requires SafeFunction(cs, code, preserved) && VerdictsFit(cs, code)
    ensures var p, results := e[|e| - 1], FunctionResults(cs, code, |cs|, map[]);
            p.pc in results ==> p.pc in code && IsFlagBranch(code[p.pc].mnemonic)
                                && results[p.pc] == Taken(code[p.pc].mnemonic, p.state)
  {
    hide SafeFunction, VerdictsFit, IsTour, PointsBefore, Separate, Sees, SafeTour, InsnsOf, DomainBefore;
    hide FunctionResults, Taken, DomainAfter, VerdictAt, VerdictFits;
    var p, i, insns := e[|e| - 1], |t.walk| - 1, InsnsOf(code, cs[k]);
    SeesAddresses(code, c.bin);
    SafeFunctionTours(cs, code, t, preserved);
    OneResult(cs, code, k, p.pc);
    TourReaches(cs, code, t, preserved, i);
    FitsInBlock(cs, code, k);
    if p.pc in FunctionResults(cs, code, |cs|, map[]) {
      StopsOnce(code, cs[k], t.runs[i], p, |insns| - 1);
      TourVerdictRight(cs, code, t, preserved, i, |insns| - 1);
    }
  }

  /** Wherever an execution gets to a branch with a result, that says which way it goes. */
  lemma ExecutionVerdictRight(c: Scope, visited: set<Address>, raw: seq<Block>, cs: seq<Block>, code: Code,
                              e: seq<Point>, preserved: set<Register>)
    requires Charted(c, visited, raw, cs) && !AnyAbandoned(raw) && Knows(c, visited, code)
    requires RunsInside(c, visited, e, preserved) && SafeFunction(cs, code, preserved) && VerdictsFit(cs, code)
    ensures var p, results := e[|e| - 1], FunctionResults(cs, code, |cs|, map[]);
            p.pc in results ==> p.pc in code && IsFlagBranch(code[p.pc].mnemonic)
                                && results[p.pc] == Taken(code[p.pc].mnemonic, p.state)
  {
    assert Inside(c, visited, e[|e| - 1].pc);
    hide Charted, AnyAbandoned, Knows, RunsInside, SafeFunction, VerdictsFit, IsPart, IsTour, FunctionResults;
    var z := PartInsns(c, visited, raw, cs, code, e[|e| - 1].pc);
    var t := ExecutionIsTour(c, visited, raw, cs, code, e, preserved);
    StopVerdictRight(c, cs, code, Lookup(cs, e[|e| - 1].pc), z, t, e, preserved);
  }

  /** All results in the block are at its last instruction. */
  lemma ResultsAtEnd(cs: seq<Block>, code: Code, k: nat)
    requires Separate(cs) && WellAddressed(code) && k < |cs|
    requires var insns := InsnsOf(code, cs[k]);
             insns != [] && forall i :: 0 <= i < |insns| - 1 ==> !insns[i].category.CondBranch?
    ensures var insns, results := InsnsOf(code, cs[k]), FunctionResults(cs, code, |cs|, map[]);
            var x := insns[|insns| - 1].address;
            && ResultsIn(cs, results.Keys, k) == (if x in results then {x} else {})
            && (x in results ==> insns[|insns| - 1].category.CondBranch?
                                 && !VerdictAt(DomainBefore(cs, code, k), insns, |insns| - 1).Unknown?)
  {
    var insns, results := InsnsOf(code, cs[k]), FunctionResults(cs, code, |cs|, map[]);
    var x := insns[|insns| - 1].address;
    InsnsAscend(code, cs[k].start, cs[k].end);
    assert cs[k].Holds(x);
    LookupIs(cs, k, x);
    OneResult(cs, code, k, x);
    hide FunctionResults, InsnsOf, DomainBefore, EvaluateBranch;
    forall a: Address | a in results && Lookup(cs, a) == k ensures a == x {
      OneResult(cs, code, k, a);
    }
  }

  /** What is left of the successors of a part by its result. */
  lemma PartAfterPruning(c: Scope, cs: seq<Block>, code: Code, k: nat, z: Address)
    requires IsPart(c, cs, code, k, z)
    ensures var results := FunctionResults(cs, code, |cs|, map[]);
            var ds := Pruned(cs, results.Keys, results);
            && SameRanges(cs, ds)
            && (z !in results ==> ds[k] == cs[k])
            && (z in results ==> code[z].category.CondBranch?
                                 && ds[k].succs == PruneSuccessors(c.SuccessorsAfter(z), results[z]))
  {
    SeesAddresses(code, c.bin);
    ResultsAtEnd(cs, code, k);
    var results := FunctionResults(cs, code, |cs|, map[]);
    hide Pruned, FunctionResults, PruneSuccessors, ResultsIn, InsnsOf, DomainBefore, VerdictAt, Separate;
    PrunedSameRanges(cs, results.Keys, results);
    if z in results {
      PrunedBlock(cs, results.Keys, results, k, z);
    } else {
      PrunedOther(cs, results.Keys, results, k);
    }
  }

  /** An address of a part with a result is its last one. */
  lemma ResultIsLast(c: Scope, cs: seq<Block>, code: Code, k: nat, z: Address, x: Address)
    requires IsPart(c, cs, code, k, z) && k == Lookup(cs, x)
    ensures x in FunctionResults(cs, code, |cs|, map[]) ==> x == z
  {
    SeesAddresses(code, c.bin);
    hide Sees;
    OneResult(cs, code, k, x);
  }

  /** The target of the branch is its fall-through. */
  predicate SameWays(bin: Binary, x: Address) {
    bin.Decodes(x) && bin.CodeTarget(x) == Some(bin.Next(x))
  }

  lemma OnlyOne(next: Address, taken: bool)
    ensures PruneSuccessors([next], taken) == [next]
  {
  }

  /** Of the two ways of a branch with a result the one that is taken is left, unless they are the
      same. */
  lemma TakenIsLeft(c: Scope, p: Point, q: Point, taken: bool, preserved: set<Register>)
    requires MovesOn(c.bin, p, q, preserved) && c.bin.decode(p.pc).value.category.CondBranch?
    requires IsFlagBranch(c.bin.decode(p.pc).value.mnemonic)
    requires taken == Taken(c.bin.decode(p.pc).value.mnemonic, p.state) && q.pc in c.SuccessorsAfter(p.pc)
    ensures q.pc in PruneSuccessors(c.SuccessorsAfter(p.pc), taken) <==> !SameWays(c.bin, p.pc)
  {
    hide Steps, PruneSuccessors;
    var target, next := c.bin.CodeTarget(p.pc), c.bin.Next(p.pc);
    if target.Some? {
      assert c.SuccessorsAfter(p.pc) == [target.value, next];
      OneIsLeft(target.value, next, taken);
    } else {
      assert c.SuccessorsAfter(p.pc) == [next];
      OnlyOne(next, taken);
    }
  }

  /** After pruning by the results, a step is still one of the graph, unless the branch has a result
      and its target is the fall-through. */
  lemma StepAfterPruning(c: Scope, cs: seq<Block>, code: Code, z: Address, p: Point, q: Point,
                         preserved: set<Register>)
    requires IsPart(c, cs, code, Lookup(cs, p.pc), z)
    requires MovesOn(c.bin, p, q, preserved) && GraphGoes(c.bin, cs, p.pc, q.pc)
    requires c.bin.Next(p.pc) == cs[Lookup(cs, p.pc)].end ==> p.pc == z
    requires var x, results := p.pc, FunctionResults(cs, code, |cs|, map[]);
             x in results ==> x in code && IsFlagBranch(code[x].mnemonic)
                              && results[x] == Taken(code[x].mnemonic, p.state)
    ensures var x, results := p.pc, FunctionResults(cs, code, |cs|, map[]);
            GraphGoes(c.bin, Pruned(cs, results.Keys, results), x, q.pc) <==>
            (x in results ==> !SameWays(c.bin, x))
  {
    hide FunctionResults, Steps, Taken, Pruned, PruneSuccessors, Continues;
    var x, results := p.pc, FunctionResults(cs, code, |cs|, map[]);
    var k, ds := Lookup(cs, x), Pruned(cs, results.Keys, results);
    PartAfterPruning(c, cs, code, k, z);
    ResultIsLast(c, cs, code, k, z, x);
    LookupSameRanges(cs, ds, x);
    LookupSameRanges(cs, ds, q.pc);
    hide InsnsOf, Separate;
    if x in results {
      TakenIsLeft(c, p, q, results[x], preserved);
    }
  }

  lemma KthStep(c: Scope, visited: set<Address>, raw: seq<Block>, cs: seq<Block>, code: Code,
                e: seq<Point>, preserved: set<Register>, k: nat)
    requires Charted(c, visited, raw, cs) && !AnyAbandoned(raw) && Knows(c, visited, code) && k < |e| - 1
    requires RunsInside(c, visited, e, preserved) && SafeFunction(cs, code, preserved) && VerdictsFit(cs, code)
    requires GraphGoes(c.bin, cs, e[k].pc, e[k + 1].pc)
    ensures var results := FunctionResults(cs, code, |cs|, map[]);
            && c.bin.Decodes(e[k].pc)
            && (GraphGoes(c.bin, Pruned(cs, results.Keys, results), e[k].pc, e[k + 1].pc) <==>
                (e[k].pc in results ==> !SameWays(c.bin, e[k].pc)))
  {
    assert MovesOn(c.bin, e[k], e[k + 1], preserved) && Inside(c, visited, e[k].pc);
    hide Charted, AnyAbandoned, Knows, SafeFunction, VerdictsFit, FunctionResults, Pruned, GraphGoes, IsPart;
    hide RunsInside, MovesOn, Taken;
    RunsInsideFront(c, visited, e, preserved, k + 1);
    ExecutionVerdictRight(c, visited, raw, cs, code, e[..k + 1], preserved);
    var z := PartInsns(c, visited, raw, cs, code, e[k].pc);
    StepAfterPruning(c, cs, code, z, e[k], e[k + 1], preserved);
  }

  lemma FirstInPruned(cs: seq<Block>, pending: set<Address>, results: map<Address, bool>, x: Address)
    requires pending <= results.Keys && Lookup(cs, x) == 0 < |cs| && cs[0].start == x
    ensures var ds := Pruned(cs, pending, results); Lookup(ds, x) == 0 < |ds| && ds[0].start == x
  {
    hide Pruned;
    PrunedSameRanges(cs, pending, results);
    LookupSameRanges(cs, Pruned(cs, pending, results), x);
  }

  /** End to end. The interval pass went through the blocks, and the dead edges were removed by its
      results. Then an execution is still a path of the graph exactly if no branch that it leaves
      has both a result and its fall-through for a target. */
  lemma PruningKeepsExecution(c: Scope, visited: set<Address>, raw: seq<Block>, cs: seq<Block>, code: Code,
                              e: seq<Point>, preserved: set<Register>)
    requires Charted(c, visited, raw, cs) && !AnyAbandoned(raw) && Knows(c, visited, code)
    requires RunsInside(c, visited, e, preserved) && SafeFunction(cs, code, preserved) && VerdictsFit(cs, code)
    ensures var results := FunctionResults(cs, code, |cs|, map[]);
            IsGraphPath(c.bin, Pruned(cs, results.Keys, results), Addresses(e)) <==>
            forall k :: 0 <= k < |e| - 1 && e[k].pc in results ==> !SameWays(c.bin, e[k].pc)
  {
    hide Charted, AnyAbandoned, Knows, SafeFunction, VerdictsFit, FunctionResults, Pruned, GraphGoes;
    var results := FunctionResults(cs, code, |cs|, map[]);
    var ds, p := Pruned(cs, results.Keys, results), Addresses(e);
    ExecutionIsControlPath(c, visited, e, preserved);
    ControlPathInGraph(c, visited, raw, cs, p);
    FirstInPruned(cs, results.Keys, results, p[0]);
    hide RunsInside, IsControlPath;
    forall k | 0 <= k < |e| - 1
      ensures GraphGoes(c.bin, ds, p[k], p[k + 1]) <==> (e[k].pc in results ==> !SameWays(c.bin, e[k].pc))
    {
      assert GraphGoes(c.bin, cs, p[k], p[k + 1]);
      KthStep(c, visited, raw, cs, code, e, preserved, k);
    }
    if IsGraphPath(c.bin, ds, p) {
      forall k | 0 <= k < |e| - 1 && e[k].pc in results ensures !SameWays(c.bin, e[k].pc) {
        assert GraphGoes(c.bin, ds, p[k], p[k + 1]);
      }
    }
  }

  // ----- Constant tracking -----

  lemma StopGoesTo(cs: seq<Block>, code: Code, t: Tour, e: seq<Point>, k: nat, n: nat, preserved: set<Register>,
                   target: Address)
    requires DataFlow.IsListed(code) && Separate(cs) && Spells(cs, code, t, e)
    requires IsTour(cs, code, t, preserved) && DataFlow.KeepableTour(cs, code, t, preserved)
    requires k < |cs| && n < |InsnsOf(code, cs[k])| && InsnsOf(code, cs[k])[n].address == e[|e| - 1].pc
    requires forall i :: 0 <= i < |t.walk| && t.walk[i] == k ==> DataFlow.TourGoesTo(cs, code, t, i, n, target)
    ensures e[|e| - 1].pc in code && DataFlow.GoesTo(code[e[|e| - 1].pc], e[|e| - 1].state, target)
  {
    hide IsTour, DataFlow.KeepableTour, PointsBefore;
    var p, i := e[|e| - 1], |t.walk| - 1;
    InsnsAscend(code, cs[k].start, cs[k].end);
    LookupIs(cs, k, p.pc);
    hide InsnsOf;
    assert t.walk[i] == k;
    StopsOnce(code, cs[k], t.runs[i], p, n);
    assert DataFlow.TourGoesTo(cs, code, t, i, n, target);
  }

  /** Wherever an execution gets to an instruction for which the pass adds a call site, it goes to the
      target of that. */
  lemma ExecutionSiteTaken(c: Scope, visited: set<Address>, raw: seq<Block>, cs: seq<Block>, code: Code,
                           e: seq<Point>, preserved: set<Register>, sites: set<(Address, Address)>, target: Address)
    requires Charted(c, visited, raw, cs) && !AnyAbandoned(raw) && Knows(c, visited, code)
    requires RunsInside(c, visited, e, preserved)
    requires DataFlow.IsListed(code) && DataFlow.KeepableFunction(cs, code, preserved)
    requires var site := (e[|e| - 1].pc, target);
             site in DataFlow.FunctionSites(cs, code, |cs|, sites) && site !in sites
    ensures e[|e| - 1].pc in code && DataFlow.GoesTo(code[e[|e| - 1].pc], e[|e| - 1].state, target)
  {
    var p := e[|e| - 1];
    assert Separate(cs);
    hide Charted, AnyAbandoned, Knows, RunsInside, DataFlow.KeepableFunction, DataFlow.FunctionSites, DataFlow.IsListed;
    hide DataFlow.TourGoesTo, DataFlow.KeepableTour, IsTour;
    var t := ExecutionIsTour(c, visited, raw, cs, code, e, preserved);
    DataFlow.KeepableFunctionTours(cs, code, t, preserved);
    var k, n := DataFlow.FunctionSitesAreTaken(cs, code, sites, p.pc, target);
    StopGoesTo(cs, code, t, e, k, n, preserved, target);
  }

  /** The same for each target that is stored in an instruction. */
  lemma ExecutionTargetTaken(c: Scope, visited: set<Address>, raw: seq<Block>, cs: seq<Block>, code: Code,
                             e: seq<Point>, preserved: set<Register>, indirect: map<Address, DataFlow.UnsignedWord>,
                             target: DataFlow.UnsignedWord)
    requires Charted(c, visited, raw, cs) && !AnyAbandoned(raw) && Knows(c, visited, code)
    requires RunsInside(c, visited, e, preserved)
    requires DataFlow.IsListed(code) && DataFlow.KeepableFunction(cs, code, preserved)
    requires var stored := (e[|e| - 1].pc, target);
             stored in DataFlow.FunctionTargets(cs, code, |cs|, indirect).Items && stored !in indirect.Items
    ensures e[|e| - 1].pc in code && DataFlow.GoesTo(code[e[|e| - 1].pc], e[|e| - 1].state, target)
  {
    var p := e[|e| - 1];
    assert Separate(cs);
    hide Charted, AnyAbandoned, Knows, RunsInside, DataFlow.KeepableFunction, DataFlow.FunctionTargets;
    hide DataFlow.IsListed, DataFlow.TourGoesTo, DataFlow.KeepableTour, IsTour;
    var t := ExecutionIsTour(c, visited, raw, cs, code, e, preserved);
    DataFlow.KeepableFunctionTours(cs, code, t, preserved);
    var k, n := DataFlow.FunctionTargetsAreTaken(cs, code, indirect, p.pc, target);
    StopGoesTo(cs, code, t, e, k, n, preserved, target);
  }
}
