/** Removal of the dead successor of branches that go one way only. */
module OpaquePredicates {
  import opened Blocks
  import opened ControlFlow
  import opened Functions
  import opened Image
  import opened Layout
  import opened Instructions
  import opened Machine
  import opened Tours
  import opened AbstractInterpretation
  import opened BranchVerdicts

  /** Slot 0 is the branch target, slot 1 the fall-through. */
  function PruneSuccessors(succs: seq<Address>, taken: bool): seq<Address> {
    if |succs| < 2 then succs else Without(succs, if taken then succs[1] else succs[0])
  }

  /** One result: the first block that holds its address loses the dead successor. */
  function PruneAt(bs: seq<Block>, a: Address, taken: bool): (r: seq<Block>)
    ensures |r| == |bs|
  {
    var k := Lookup(bs, a);
    if k == |bs| then bs else bs[k := bs[k].(succs := PruneSuccessors(bs[k].succs, taken))]
  }

  ghost predicate IsLeast(s: set<Address>, a: Address) {
    a in s && forall b :: b in s ==> a <= b
  }

  lemma {:induction false} LeastExists(s: set<Address>)
    requires s != {}
    ensures exists a :: IsLeast(s, a)
    decreases s
  {
    var x :| x in s;
    assert forall b :: b in s ==> b == x || b in s - {x};
    if s - {x} != {} {
      LeastExists(s - {x});
      var m :| IsLeast(s - {x}, m);
      assert IsLeast(s, if m <= x then m else x);
    } else {
      assert IsLeast(s, x);
    }
  }

  /** No block has more successors than before, and some block has fewer. */
  ghost predicate Fewer(bs: seq<Block>, cs: seq<Block>) {
    && |bs| == |cs| && (forall k :: 0 <= k < |bs| ==> |cs[k].succs| <= |bs[k].succs|)
    && exists k :: 0 <= k < |bs| && |cs[k].succs| < |bs[k].succs|
  }

  lemma {:induction false} WithoutFewer(s: seq<Address>, a: Address)
    ensures |Without(s, a)| <= |s| && (a in s ==> |Without(s, a)| < |s|)
  {
    if s != [] {
      WithoutFewer(s[1..], a);
    }
  }

  lemma PruneAtFewer(bs: seq<Block>, a: Address, taken: bool)
    ensures PruneAt(bs, a, taken) == bs || Fewer(bs, PruneAt(bs, a, taken))
  {
    var k := Lookup(bs, a);
    if k < |bs| && |bs[k].succs| >= 2 {
      WithoutFewer(bs[k].succs, if taken then bs[k].succs[1] else bs[k].succs[0]);
    }
  }

  lemma FewerStill(bs: seq<Block>, cs: seq<Block>, ds: seq<Block>)
    requires (bs == cs || Fewer(bs, cs)) && (cs == ds || Fewer(cs, ds))
    ensures bs == ds || Fewer(bs, ds)
    ensures bs == ds ==> bs == cs
  {
  }

  /** All results whose addresses are pending, in ascending order. */
  ghost function Pruned(bs: seq<Block>, pending: set<Address>, results: map<Address, bool>): (r: seq<Block>)
    requires pending <= results.Keys
    ensures |r| == |bs|
    decreases pending
  {
    if pending == {} then bs
    else
      LeastExists(pending);
      var a :| IsLeast(pending, a);
      Pruned(PruneAt(bs, a, results[a]), pending - {a}, results)
  }

  lemma PrunedNext(bs: seq<Block>, pending: set<Address>, results: map<Address, bool>, a: Address)
    requires pending <= results.Keys && IsLeast(pending, a)
    ensures Pruned(bs, pending, results) == Pruned(PruneAt(bs, a, results[a]), pending - {a}, results)
  {
    LeastExists(pending);
    var b :| IsLeast(pending, b)
             && Pruned(bs, pending, results) == Pruned(PruneAt(bs, b, results[b]), pending - {b}, results);
    assert a == b;
  }

  method RemoveDeadEdge(fn: Function, addr: Address, alwaysTaken: bool) returns (modified: bool)
    requires fn.Valid()
    modifies fn.Owned()
    ensures fn.Views() == PruneAt(old(fn.Views()), addr, alwaysTaken)
    ensures modified <==> fn.Views() != old(fn.Views())
  {
    var bb, k := fn.FindBasicBlock(addr);
    ghost var bs := fn.Views();
    if bb == null || |bb.successors| < 2 {
      assert bb != null ==> bs[k] == bb.View();
      return false;
    }
    var branchTarget, fallthrough := bb.successors[0], bb.successors[1];
    bb.RemoveSuccessor(if alwaysTaken then fallthrough else branchTarget);
    assert fn.Views() == PruneAt(bs, addr, alwaysTaken);
    return true;
  }

  method RemoveDeadEdges(fn: Function) returns (modified: bool)
    requires fn.Valid()
    modifies fn.Owned()
    ensures fn.Views() == Pruned(old(fn.Views()), fn.opaquePredicateResults.Keys, fn.opaquePredicateResults)
    ensures modified <==> fn.Views() != old(fn.Views())
  {
    modified := false;
    var results := fn.opaquePredicateResults;
    var pending := results.Keys;
    while pending != {}
      invariant pending <= results.Keys
      invariant Pruned(fn.Views(), pending, results) == Pruned(old(fn.Views()), results.Keys, results)
      invariant if modified then Fewer(old(fn.Views()), fn.Views()) else fn.Views() == old(fn.Views())
      decreases pending
    {
      LeastExists(pending);
      var addr :| addr in pending && forall b :: b in pending ==> addr <= b;
      PrunedNext(fn.Views(), pending, results, addr);
      pending := pending - {addr};
      PruneAtFewer(fn.Views(), addr, results[addr]);
      ghost var bs := fn.Views();
      var removed := RemoveDeadEdge(fn, addr, results[addr]);
      FewerStill(old(fn.Views()), bs, fn.Views());
      modified := modified || removed;
    }
  }

  /** The pass on one function. */
  method PruneFunction(fn: Function) returns (modified: bool)
    requires fn.Valid()
    modifies fn`vertices, fn`edges, fn`vertexOf, fn.Owned()
    ensures fn.Views() == if fn.hasOpaquePredicates
                          then Pruned(old(fn.Views()), fn.opaquePredicateResults.Keys, fn.opaquePredicateResults)
                          else old(fn.Views())
    ensures old(Flagged(fn)) ==>
              fn.Views() == Pruned(old(fn.Views()), fn.opaquePredicateResults.Keys, fn.opaquePredicateResults)
    ensures modified ==> fn.GraphExact()
    ensures modified <==> fn.Views() != old(fn.Views())
    ensures !modified ==> fn.edges == old(fn.edges)
  {
    modified := false;
    if !fn.hasOpaquePredicates {
      return;
    }
    modified := RemoveDeadEdges(fn);
    if modified {
      fn.BuildCFG();
    }
  }

  // ----- What pruning keeps -----

  ghost predicate SameRanges(bs: seq<Block>, cs: seq<Block>) {
    |bs| == |cs| && forall i :: 0 <= i < |bs| ==> bs[i].start == cs[i].start && bs[i].end == cs[i].end
  }

  lemma LookupSameRanges(bs: seq<Block>, cs: seq<Block>, a: Address)
    requires SameRanges(bs, cs)
    ensures Lookup(bs, a) == Lookup(cs, a)
  {
    assert forall i :: 0 <= i < |bs| ==> (bs[i].Holds(a) <==> cs[i].Holds(a));
  }

  lemma {:induction false} PrunedSameRanges(bs: seq<Block>, pending: set<Address>, results: map<Address, bool>)
    requires pending <= results.Keys
    ensures SameRanges(bs, Pruned(bs, pending, results))
    decreases pending
  {
    if pending != {} {
      LeastExists(pending);
      var a :| IsLeast(pending, a);
      PrunedNext(bs, pending, results, a);
      PrunedSameRanges(PruneAt(bs, a, results[a]), pending - {a}, results);
    }
  }

  /** The results of those pending that fall into block k. */
  ghost function ResultsIn(bs: seq<Block>, pending: set<Address>, k: nat): set<Address> {
    set a | a in pending && Lookup(bs, a) == k
  }

  lemma ResultsInNext(bs: seq<Block>, pending: set<Address>, k: nat, a: Address, taken: bool)
    requires k < |bs|
    ensures SameRanges(bs, PruneAt(bs, a, taken))
    ensures ResultsIn(PruneAt(bs, a, taken), pending - {a}, k) == ResultsIn(bs, pending, k) - {a}
    ensures PruneAt(bs, a, taken)[k] ==
            if Lookup(bs, a) == k then bs[k].(succs := PruneSuccessors(bs[k].succs, taken)) else bs[k]
  {
    var cs := PruneAt(bs, a, taken);
    forall b: Address ensures Lookup(bs, b) == Lookup(cs, b) {
      LookupSameRanges(bs, cs, b);
    }
  }

  lemma {:induction false} PrunedOther(bs: seq<Block>, pending: set<Address>, results: map<Address, bool>, k: nat)
    requires pending <= results.Keys && k < |bs| && ResultsIn(bs, pending, k) == {}
    ensures Pruned(bs, pending, results)[k] == bs[k]
    decreases pending
  {
    if pending != {} {
      LeastExists(pending);
      var a :| IsLeast(pending, a);
      PrunedNext(bs, pending, results, a);
      ResultsInNext(bs, pending, k, a, results[a]);
      assert a !in ResultsIn(bs, pending, k);
      PrunedOther(PruneAt(bs, a, results[a]), pending - {a}, results, k);
    }
  }

  /** A block with one result loses what that says; one without keeps its successors. */
  lemma {:induction false} PrunedBlock(bs: seq<Block>, pending: set<Address>, results: map<Address, bool>, k: nat,
      mine: Address)
    requires pending <= results.Keys && k < |bs| && ResultsIn(bs, pending, k) == {mine}
    ensures mine in results
    ensures Pruned(bs, pending, results)[k] == bs[k].(succs := PruneSuccessors(bs[k].succs, results[mine]))
    decreases pending
  {
    assert mine in ResultsIn(bs, pending, k);
    LeastExists(pending);
    var a :| IsLeast(pending, a);
    PrunedNext(bs, pending, results, a);
    ResultsInNext(bs, pending, k, a, results[a]);
    var cs := PruneAt(bs, a, results[a]);
    if a == mine {
      PrunedOther(cs, pending - {a}, results, k);
    } else {
      assert a !in ResultsIn(bs, pending, k);
      PrunedBlock(cs, pending - {a}, results, k, mine);
    }
  }

  lemma {:induction false} PrunedShort(bs: seq<Block>, pending: set<Address>, results: map<Address, bool>, k: nat)
    requires pending <= results.Keys && k < |bs| && |bs[k].succs| < 2
    ensures Pruned(bs, pending, results)[k] == bs[k]
    decreases pending
  {
    if pending != {} {
      LeastExists(pending);
      var a :| IsLeast(pending, a);
      PrunedNext(bs, pending, results, a);
      ResultsInNext(bs, pending, k, a, results[a]);
      PrunedShort(PruneAt(bs, a, results[a]), pending - {a}, results, k);
    }
  }

  /** Of several results in a block with two successors the one at the least address decides. */
  lemma {:induction false} PrunedByLeast(bs: seq<Block>, pending: set<Address>, results: map<Address, bool>, k: nat,
      mine: Address)
    requires pending <= results.Keys && k < |bs| && |bs[k].succs| == 2
    requires mine in ResultsIn(bs, pending, k) && forall a :: a in ResultsIn(bs, pending, k) ==> mine <= a
    ensures mine in results
    ensures Pruned(bs, pending, results)[k] == bs[k].(succs := PruneSuccessors(bs[k].succs, results[mine]))
    decreases pending
  {
    LeastExists(pending);
    var a :| IsLeast(pending, a);
    PrunedNext(bs, pending, results, a);
    ResultsInNext(bs, pending, k, a, results[a]);
    var cs := PruneAt(bs, a, results[a]);
    if a == mine {
      WithoutFewer(bs[k].succs, if results[mine] then bs[k].succs[1] else bs[k].succs[0]);
      PrunedShort(cs, pending - {a}, results, k);
    } else {
      assert a !in ResultsIn(bs, pending, k);
      PrunedByLeast(cs, pending - {a}, results, k, mine);
    }
  }

  /** Pruning adds no step of control. */
  lemma {:induction false} PrunedAddsNothing(bs: seq<Block>, pending: set<Address>, results: map<Address, bool>,
      x: Address, y: Address)
    requires pending <= results.Keys
    ensures Step(Pruned(bs, pending, results), x, y) ==> Step(bs, x, y)
    decreases pending
  {
    if pending != {} {
      LeastExists(pending);
      var a :| IsLeast(pending, a);
      PrunedNext(bs, pending, results, a);
      var cs := PruneAt(bs, a, results[a]);
      PrunedAddsNothing(cs, pending - {a}, results, x, y);
      if i :| 0 <= i < |cs| && BlockStep(cs[i], x, y) {
        assert BlockStep(bs[i], x, y);
      }
    }
  }

  lemma OneIsLeft(target: Address, fallThrough: Address, taken: bool)
    ensures PruneSuccessors([target, fallThrough], taken) ==
            if target == fallThrough then [] else [if taken then target else fallThrough]
  {
    assert [target, fallThrough] == [target] + [fallThrough];
    WithoutAppend([target], fallThrough, if taken then fallThrough else target);
    assert [target] == [] + [target];
    WithoutAppend([], target, if taken then fallThrough else target);
  }

  // ----- The instructions of a closed block -----

  /** The analyses see the instructions that the explorer decoded. */
  ghost predicate Sees(code: Code, bin: Binary) {
    bin.Valid() && forall a :: a in code ==> bin.Decodes(a) && code[a] == bin.decode(a).value
  }

  lemma SeesAddresses(code: Code, bin: Binary)
    requires Sees(code, bin)
    ensures WellAddressed(code)
  {
  }

  /** The instructions of a run that the code holds: all but the last do not end a block. */
  lemma {:induction false} RunInsns(code: Code, bin: Binary, lo: Address, last: Address)
    requires Sees(code, bin) && Straight(bin, lo, last) && bin.Decodes(last)
    requires forall a :: a in Insns(bin, lo, bin.Next(last)) ==> a in code
    ensures var insns := InsnsFrom(code, lo, bin.Next(last));
            && last in code && insns != [] && insns[|insns| - 1] == code[last] == bin.decode(last).value
            && forall k :: 0 <= k < |insns| - 1 ==> !insns[k].EndsBlock()
    decreases last - lo
  {
    StraightBounds(bin, lo, last);
    assert lo in Insns(bin, lo, bin.Next(last));
    var rest := InsnsFrom(code, bin.Next(lo), bin.Next(last));
    assert InsnsFrom(code, lo, bin.Next(last)) == [code[lo]] + rest;
    if lo < last {
      RunInsns(code, bin, bin.Next(lo), last);
    } else {
      assert rest == [];
    }
  }

  /** Block k of the list was closed at a conditional branch, and its instructions are seen. */
  ghost predicate EndsInBranch(bs: seq<Block>, code: Code, c: Scope, k: nat, last: Address) {
    && Separate(bs) && Sees(code, c.bin) && k < |bs|
    && ClosedAt(c, bs[k], last) && c.bin.decode(last).value.category.CondBranch? && c.bin.CodeTarget(last).Some?
    && forall a :: a in Insns(c.bin, bs[k].start, bs[k].end) ==> a in code
  }

  /** Such blocks come from exploration. If decoded instructions do not overlap, no successor leads
      into the middle of one, and the module holds what was decoded, then each block that the
      explorer closed at a conditional branch with a target has a block after normalisation
      that ends in that branch. */
  lemma ExploredBranch(c: Scope, visited: set<Address>, raw: seq<Block>, cs: seq<Block>, code: Code,
                       j: nat, last: Address)
      returns (k: nat)
    requires Laid(c, visited, raw, {}) && NoOverlap(c.bin, visited - c.before)
    requires EntriesAmong(raw, visited - c.before) && Refines(raw, cs, EntrySet(raw))
    requires Sees(code, c.bin) && forall a :: a in visited - c.before ==> a in code
    requires j < |raw| && ClosedAt(c, raw[j], last)
    requires c.bin.decode(last).value.category.CondBranch? && c.bin.CodeTarget(last).Some?
    ensures EndsInBranch(cs, code, c, k, last) && cs[k].end == raw[j].end
  {
    LaidSeparate(c, visited, raw);
    NormalisedTails(c, visited, raw, cs);
    k := TailExists(c, raw, cs, j, last);
    assert ClosedAt(c, cs[k], last);
    assert Separate(cs);
    OnePiece(c, visited, raw, cs, k, j, last);
    forall a | a in Insns(c.bin, cs[k].start, cs[k].end) ensures a in code {
      PieceInsns(c, visited, raw, j, last, cs[k], a);
    }
  }

  /** What the explorer and the walk make of such a block: target and fall-through are its
      successors, its last instruction is the branch, and no other one is conditional. */
  lemma BranchBlock(bs: seq<Block>, code: Code, c: Scope, k: nat, last: Address)
    requires EndsInBranch(bs, code, c, k, last)
    ensures bs[k].succs == [c.bin.CodeTarget(last).value, c.bin.Next(last)] && bs[k].Holds(last)
    ensures var insns := InsnsOf(code, bs[k]);
            && insns != [] && insns[|insns| - 1] == c.bin.decode(last).value && insns[|insns| - 1].address == last
            && insns[|insns| - 1].category.CondBranch?
            && forall i :: 0 <= i < |insns| - 1 ==> !insns[i].category.CondBranch?
  {
    RunInsns(code, c.bin, bs[k].start, last);
    StraightBounds(c.bin, bs[k].start, last);
  }

  lemma LookupIs(bs: seq<Block>, k: nat, a: Address)
    requires Separate(bs) && k < |bs| && bs[k].Holds(a)
    ensures Lookup(bs, a) == k
  {
    SameHolder(bs, k, Lookup(bs, a), a);
  }

  /** After the analysis of all blocks, such a block has its verdict as its one result, if
      there is a verdict at all. */
  lemma BranchResult(bs: seq<Block>, code: Code, c: Scope, k: nat, last: Address)
    requires EndsInBranch(bs, code, c, k, last)
    ensures var insns, results := InsnsOf(code, bs[k]), FunctionResults(bs, code, |bs|, map[]);
            insns != [] &&
            var verdict := VerdictAt(DomainBefore(bs, code, k), insns, |insns| - 1);
            && ResultsIn(bs, results.Keys, k) == (if verdict.Unknown? then {} else {last})
            && (!verdict.Unknown? ==> last in results && results[last] == verdict.AlwaysTrue?)
  {
    BranchBlock(bs, code, c, k, last);
    SeesAddresses(code, c.bin);
    hide VerdictAt, FunctionResults, DomainBefore;
    var insns, results := InsnsOf(code, bs[k]), FunctionResults(bs, code, |bs|, map[]);
    forall a: Address ensures a in results && Lookup(bs, a) == k <==>
                              a == last && !VerdictAt(DomainBefore(bs, code, k), insns, |insns| - 1).Unknown?
    {
      if bs[k].Holds(a) {
        LookupIs(bs, k, a);
        OneResult(bs, code, k, a);
      }
    }
    OneResult(bs, code, k, last);
  }

  // ----- End to end -----

  /** Where control goes at the end of a block whose last instruction is a branch. */
  function NextAddress(branch: Mnemonic, s: State, target: Address, fallThrough: Address): Address
    requires IsFlagBranch(branch)
  {
    if Taken(branch, s) then target else fallThrough
  }

  /** The last instruction has a verdict, which fits what is compared in front of it. */
  ghost predicate EndsInVerdict(d: Domain, insns: seq<Instruction>) {
    insns != [] && FitsAt(d, insns, |insns| - 1) && !VerdictAt(d, insns, |insns| - 1).Unknown?
  }

  /** The interval pass went through all blocks of the function, and then the dead edges were removed
      by its results. Take any block that was closed at a conditional branch with a verdict, and
      any run to the branch from a state that the domain in front of the block covers. The address
      executed next is still a successor, and then the only one, exactly when target and
      fall-through differ. */
  lemma PruningKeepsLiveEdge(bs: seq<Block>, code: Code, c: Scope, k: nat, last: Address, states: seq<State>,
                             preserved: set<Register>)
    requires EndsInBranch(bs, code, c, k, last) && EndsInVerdict(DomainBefore(bs, code, k), InsnsOf(code, bs[k]))
    requires var insns, d := InsnsOf(code, bs[k]), DomainBefore(bs, code, k);
             && RunsInto(insns, states, preserved) && |insns| <= |states|
             && SafeAlong(d, insns, preserved) && Covers(d, states[0])
    ensures var insns, results := InsnsOf(code, bs[k]), FunctionResults(bs, code, |bs|, map[]);
            var target, fallThrough := c.bin.CodeTarget(last).value, c.bin.Next(last);
            var next := NextAddress(insns[|insns| - 1].mnemonic, states[|insns| - 1], target, fallThrough);
            var succs := Pruned(bs, results.Keys, results)[k].succs;
            && (next in succs <==> target != fallThrough)
            && (target != fallThrough ==> succs == [next])
  {
    var insns, d := InsnsOf(code, bs[k]), DomainBefore(bs, code, k);
    var results := FunctionResults(bs, code, |bs|, map[]);
    BranchBlock(bs, code, c, k, last);
    BranchResult(bs, code, c, k, last);
    hide RunsInto, SafeAlong, Covers, VerdictAt, InsnsOf, PruneSuccessors, Pruned, FunctionResults, DomainBefore;
    hide EndsInBranch, FitsAt, Taken;
    BlockVerdictRight(d, insns, states, preserved, |insns| - 1);
    PrunedBlock(bs, results.Keys, results, k, last);
    OneIsLeft(c.bin.CodeTarget(last).value, c.bin.Next(last), results[last]);
  }

  /** In particular for the state that a tour from the entry brings, if the pass is wrong about no
      step and no hand-over on the way. */
  lemma TourKeepsLiveEdge(bs: seq<Block>, code: Code, c: Scope, k: nat, last: Address, t: Tour,
                          preserved: set<Register>)
    requires EndsInBranch(bs, code, c, k, last) && EndsInVerdict(DomainBefore(bs, code, k), InsnsOf(code, bs[k]))
    requires IsTour(bs, code, t, preserved) && SafeTour(bs, code, t, preserved)
    requires t.walk[|t.walk| - 1] == k && |InsnsOf(code, bs[k])| <= |t.runs[|t.runs| - 1]|
    requires c.bin.CodeTarget(last).value != c.bin.Next(last)
    ensures var insns, results := InsnsOf(code, bs[k]), FunctionResults(bs, code, |bs|, map[]);
            var s := t.runs[|t.runs| - 1][|insns| - 1];
            Pruned(bs, results.Keys, results)[k].succs ==
            [NextAddress(insns[|insns| - 1].mnemonic, s, c.bin.CodeTarget(last).value, c.bin.Next(last))]
  {
    var i := |t.walk| - 1;
    TourCovered(bs, code, t, preserved, i);
    assert RunsThrough(bs, code, t, preserved, i) && SafeBlock(bs, code, t.walk[i], preserved);
    hide EndsInBranch, IsTour, SafeTour, FunctionResults, Pruned, DomainBefore, InsnsOf, EndsInVerdict, SafeAlong;
    hide Covers, RunsInto, NextAddress;
    PruningKeepsLiveEdge(bs, code, c, k, last, t.runs[i], preserved);
  }
}
