/** Address lookup in a block list, the block graph it induces, and how that graph
    relates to the address-level flow; the meaning of recorded predecessors. */
module ControlFlow {
  import opened Blocks

  // ----- Lookup -----

  /** The lookup that never splits: the first block that holds a, or |bs|. */
  function Lookup(bs: seq<Block>, a: Address): (r: nat)
    ensures r <= |bs|
    ensures r < |bs| ==> bs[r].Holds(a)
    ensures forall i :: 0 <= i < r ==> !bs[i].Holds(a)
  {
    if bs == [] || bs[0].Holds(a) then 0 else 1 + Lookup(bs[1..], a)
  }

  predicate Hits(b: Block, a: Address) {
    a == b.start || b.Straddles(a)
  }

  /** The lookup that may split: the first block that starts at a or has a strictly
      inside, or |bs|. Unlike Lookup it also finds blocks that hold no byte. */
  function Hit(bs: seq<Block>, a: Address): (r: nat)
    ensures r <= |bs|
    ensures r < |bs| ==> Hits(bs[r], a)
    ensures forall i :: 0 <= i < r ==> !Hits(bs[i], a)
  {
    if bs == [] || Hits(bs[0], a) then 0 else 1 + Hit(bs[1..], a)
  }

  /** What a splitting lookup of a makes of the list. */
  function AfterHit(bs: seq<Block>, a: Address): seq<Block> {
    var k := Hit(bs, a);
    if k < |bs| && bs[k].start != a then SplitAt(bs, k, a) else bs
  }

  /** In normal form a splitting lookup of a start or a successor splits nothing, and
      for separate blocks it finds the only block there is at that address. */
  lemma LookupsAreStable(bs: seq<Block>, a: Address)
    requires NormalForm(bs) && (IsStart(bs, a) || IsSuccessor(bs, a))
    ensures AfterHit(bs, a) == bs
    ensures Separate(bs) && Covered(bs, a) ==>
              exists k :: 0 <= k < |bs| && bs[k].start == a && Hit(bs, a) == Lookup(bs, a) == k
                          && forall j :: 0 <= j < |bs| && (bs[j].start == a || bs[j].Holds(a)) ==> j == k
  {
    var h := Hit(bs, a);
    assert !IsStraddled(bs, a);
    assert h < |bs| ==> !bs[h].Straddles(a);
    if Separate(bs) && Covered(bs, a) {
      var k :| 0 <= k < |bs| && bs[k].Holds(a);
      assert !bs[k].Straddles(a);
      assert Hits(bs[k], a);
      assert forall j :: 0 <= j < |bs| && bs[j].Holds(a) ==> j == k;
      assert forall j :: 0 <= j < |bs| && bs[j].start == a ==> j == k;
    }
  }

  // ----- The block graph -----

  /** Some successor address of block i is held by block j (and by no earlier one). */
  ghost predicate Edge(bs: seq<Block>, i: nat, j: nat) {
    i < |bs| && j < |bs| && exists s :: s in bs[i].succs && Lookup(bs, s) == j
  }

  ghost predicate IsBlockPath(bs: seq<Block>, p: seq<nat>, i: nat, j: nat) {
    && |p| > 0
    && p[0] == i
    && p[|p| - 1] == j
    && forall k :: 0 <= k < |p| - 1 ==> Edge(bs, p[k], p[k + 1])
  }

  ghost predicate BlockReach(bs: seq<Block>, i: nat, j: nat) {
    exists p :: IsBlockPath(bs, p, i, j)
  }

  lemma BlockReachSelf(bs: seq<Block>, i: nat)
    ensures BlockReach(bs, i, i)
  {
    assert IsBlockPath(bs, [i], i, i);
  }

  lemma BlockReachStep(bs: seq<Block>, i: nat, j: nat, k: nat)
    requires BlockReach(bs, i, j) && Edge(bs, j, k)
    ensures BlockReach(bs, i, k)
  {
    var p :| IsBlockPath(bs, p, i, j);
    var q := p + [k];
    forall n | 0 <= n < |q| - 1 ensures Edge(bs, q[n], q[n + 1]) {
      if n < |p| - 1 {
        assert q[n] == p[n] && q[n + 1] == p[n + 1];
      }
    }
    assert IsBlockPath(bs, q, i, k);
  }

  /** A set that contains i and is closed under edges contains whatever i reaches. */
  lemma {:induction false} ClosedContainsReach(bs: seq<Block>, S: set<nat>, p: seq<nat>, i: nat, j: nat)
    requires IsBlockPath(bs, p, i, j) && i in S
    requires forall m, n :: m in S && Edge(bs, m, n) ==> n in S
    ensures j in S
    decreases |p|
  {
    if |p| > 1 {
      assert Edge(bs, p[0], p[1]);
      forall k | 0 <= k < |p[1..]| - 1 ensures Edge(bs, p[1..][k], p[1..][k + 1]) {
        assert Edge(bs, p[k + 1], p[k + 2]);
      }
      ClosedContainsReach(bs, S, p[1..], p[1], j);
    }
  }

  // ----- The block graph against the flow -----

  lemma BlockPathFront(bs: seq<Block>, p: seq<nat>, i: nat, j: nat)
    requires IsBlockPath(bs, p, i, j) && |p| > 1
    ensures IsBlockPath(bs, p[..|p| - 1], i, p[|p| - 2])
    ensures Edge(bs, p[|p| - 2], j)
  {
    assert forall k :: 0 <= k < |p| - 1 ==> Edge(bs, p[k], p[k + 1]);
    assert Edge(bs, p[|p| - 2], p[|p| - 2 + 1]);
  }

  lemma EmptyIsNotEntered(bs: seq<Block>, p: seq<nat>, e: nat, i: nat)
    requires IsBlockPath(bs, p, e, i) && e < |bs| && bs[e].start < bs[e].end
    ensures i < |bs| && bs[i].start < bs[i].end
  {
    if |p| > 1 {
      BlockPathFront(bs, p, e, i);
      var s :| s in bs[p[|p| - 2]].succs && Lookup(bs, s) == i;
      assert bs[i].Holds(s);
    }
  }

  lemma {:induction false} ReachExtend(bs: seq<Block>, a: Address, i: nat, x: Address, y: Address)
    requires Reach(bs, a, x)
    requires i < |bs| && bs[i].Holds(x) && bs[i].Holds(y) && x <= y
    ensures Reach(bs, a, y)
    decreases y - x
  {
    if x < y {
      ReachExtend(bs, a, i, x, y - 1);
      assert BlockStep(bs[i], y - 1, y);
      ReachStep(bs, a, y - 1, y);
    }
  }

  /** If block e starts at the entry, execution reaches every byte of any block that
      the graph reaches from e ... */
  lemma {:induction false} GraphFollowsFlow(bs: seq<Block>, e: nat, p: seq<nat>, j: nat, x: Address)
    requires Separate(bs) && NormalForm(bs)
    requires e < |bs| && IsBlockPath(bs, p, e, j) && j < |bs| && bs[j].Holds(x)
    requires bs[e].start < bs[e].end
    ensures Reach(bs, bs[e].start, x)
    decreases |p|
  {
    if |p| == 1 {
      ReachWithin(bs, e, bs[e].start, x);
    } else {
      var q, i := p[..|p| - 1], p[|p| - 2];
      BlockPathFront(bs, p, e, j);
      var s :| s in bs[i].succs && Lookup(bs, s) == j;
      assert IsSuccessor(bs, s);
      assert s == bs[j].start by {
        assert !IsStraddled(bs, s);
        assert !bs[j].Straddles(s);
      }
      if bs[i].start < bs[i].end {
        var last := bs[i].end - 1;
        GraphFollowsFlow(bs, e, q, i, last);
        assert BlockStep(bs[i], last, s);
        ReachStep(bs, bs[e].start, last, s);
        ReachExtend(bs, bs[e].start, j, s, x);
      } else {
        // an empty block is entered by no edge, and the entry block is not empty
        EmptyIsNotEntered(bs, q, e, i);
      }
    }
  }

  /** ... and conversely the graph reaches the block of every byte that execution reaches. */
  lemma {:induction false} FlowFollowsGraph(bs: seq<Block>, e: nat, p: seq<Address>, j: nat, x: Address)
    requires Separate(bs)
    requires e < |bs| && IsPath(bs, p, bs[e].start, x)
    requires bs[e].start < bs[e].end
    requires j < |bs| && bs[j].Holds(x)
    ensures BlockReach(bs, e, j)
    decreases |p|
  {
    if |p| == 1 {
      SameHolder(bs, j, e, x);
      BlockReachSelf(bs, e);
    } else {
      var q, y := p[..|p| - 1], p[|p| - 2];
      PathFront(bs, p, bs[e].start, x);
      var i :| 0 <= i < |bs| && BlockStep(bs[i], y, x);
      FlowFollowsGraph(bs, e, q, i, y);
      var k := Lookup(bs, x);
      SameHolder(bs, j, k, x);
      if y + 1 < bs[i].end {
        SameHolder(bs, i, j, x);
      } else {
        assert Edge(bs, i, j);
        BlockReachStep(bs, e, i, j);
      }
    }
  }

  /** For separate blocks in normal form, the blocks that the graph reaches from the
      entry block are exactly those whose bytes are executed from the entry address. */
  lemma GraphIsFlow(bs: seq<Block>, e: nat, j: nat, x: Address)
    requires Separate(bs) && NormalForm(bs)
    requires e < |bs| && bs[e].start < bs[e].end
    requires j < |bs| && bs[j].Holds(x)
    ensures BlockReach(bs, e, j) <==> Reach(bs, bs[e].start, x)
  {
    if p :| IsBlockPath(bs, p, e, j) {
      GraphFollowsFlow(bs, e, p, j, x);
    }
    if p :| IsPath(bs, p, bs[e].start, x) {
      FlowFollowsGraph(bs, e, p, j, x);
    }
  }

  // ----- Recorded predecessors -----

  function WithPred(bs: seq<Block>, k: nat, p: Address): (r: seq<Block>)
    requires k < |bs|
    ensures |r| == |bs|
    ensures SameShapes(bs, r)
  {
    bs[k := bs[k].(preds := bs[k].preds + [p])]
  }

  ghost predicate StepsOn(bs: seq<Block>, x: Address) {
    Step(bs, x, x + 1)
  }

  /** Execution runs on byte by byte from p to the last byte in front of e. */
  ghost predicate RunsOn(bs: seq<Block>, p: Address, e: Address) {
    p < e && forall x: Address :: p <= x < e - 1 ==> StepsOn(bs, x)
  }

  /** It runs on from p to some byte and from there steps to t. */
  ghost predicate Led(bs: seq<Block>, p: Address, t: Address) {
    exists e: Address :: RunsOn(bs, p, e) && Step(bs, e - 1, t)
  }

  /** Every recorded predecessor is the start of a block, from which execution runs on to a step
      to this one. */
  ghost predicate PredsSound(bs: seq<Block>) {
    forall k, p :: 0 <= k < |bs| && p in bs[k].preds ==> IsStart(bs, p) && Led(bs, p, bs[k].start)
  }

  /** A successor that resolves to a block is the start of that block, which records
      the start of block i. */
  ghost predicate Recorded(bs: seq<Block>, i: nat, s: Address)
    requires i < |bs|
  {
    var k := Hit(bs, s);
    k < |bs| ==> bs[k].start == s && bs[i].start in bs[k].preds
  }

  ghost predicate PredsComplete(bs: seq<Block>) {
    forall i, s :: 0 <= i < |bs| && s in bs[i].succs ==> Recorded(bs, i, s)
  }

  lemma {:induction false} HitSameShapes(bs: seq<Block>, cs: seq<Block>, a: Address)
    requires SameShapes(bs, cs)
    ensures Hit(bs, a) == Hit(cs, a)
  {
    assert forall i :: 0 <= i < |bs| ==> bs[i].SameShape(cs[i]);
  }

  lemma SuccessorLed(bs: seq<Block>, i: nat, s: Address)
    requires i < |bs| && bs[i].start < bs[i].end && s in bs[i].succs
    ensures Led(bs, bs[i].start, s)
  {
    forall x: Address | bs[i].start <= x < bs[i].end - 1 ensures StepsOn(bs, x) {
      assert BlockStep(bs[i], x, x + 1);
    }
    assert RunsOn(bs, bs[i].start, bs[i].end);
    assert BlockStep(bs[i], bs[i].end - 1, s);
  }

  lemma LedInside(bs: seq<Block>, i: nat, a: Address)
    requires i < |bs| && bs[i].Straddles(a)
    ensures Led(bs, bs[i].start, a)
  {
    forall x: Address | bs[i].start <= x <= a - 1 ensures StepsOn(bs, x) {
      assert BlockStep(bs[i], x, x + 1);
    }
    assert RunsOn(bs, bs[i].start, a);
    assert StepsOn(bs, a - 1);
  }

  lemma LedSameFlow(bs: seq<Block>, cs: seq<Block>, p: Address, t: Address)
    requires SameFlow(bs, cs) && Led(bs, p, t)
    ensures Led(cs, p, t)
  {
    var e: Address :| RunsOn(bs, p, e) && Step(bs, e - 1, t);
    assert forall x :: StepsOn(bs, x) ==> StepsOn(cs, x);
    assert RunsOn(cs, p, e) && Step(cs, e - 1, t);
  }

  lemma {:induction false} RunsOnReach(bs: seq<Block>, p: Address, e: Address)
    requires RunsOn(bs, p, e)
    ensures Reach(bs, p, e - 1)
    decreases e
  {
    if p + 1 == e {
      ReachSelf(bs, p);
    } else {
      RunsOnReach(bs, p, e - 1);
      assert StepsOn(bs, e - 2);
      ReachStep(bs, p, e - 2, e - 1);
    }
  }

  lemma PredecessorLed(bs: seq<Block>, k: nat, p: Address)
    requires PredsSound(bs) && k < |bs| && p in bs[k].preds
    ensures Led(bs, p, bs[k].start)
  {
    hide Led;
    assert IsStart(bs, p) && Led(bs, p, bs[k].start);
  }

  /** So a block is reached from every recorded predecessor. */
  lemma PredecessorReaches(bs: seq<Block>, k: nat, p: Address)
    requires PredsSound(bs) && k < |bs| && p in bs[k].preds
    ensures Reach(bs, p, bs[k].start)
  {
    PredecessorLed(bs, k, p);
    var e: Address :| RunsOn(bs, p, e) && Step(bs, e - 1, bs[k].start);
    RunsOnReach(bs, p, e);
    ReachStep(bs, p, e - 1, bs[k].start);
  }

  lemma FirstByte(bs: seq<Block>, i: nat, e: Address, t: Address)
    requires Separate(bs) && i < |bs| && RunsOn(bs, bs[i].start, e) && Step(bs, e - 1, t)
    ensures bs[i].start < bs[i].end
  {
    var p := bs[i].start;
    var next := if p + 1 < e then p + 1 else t;
    assert p + 1 < e ==> StepsOn(bs, p);
    var m :| 0 <= m < |bs| && BlockStep(bs[m], p, next);
    assert bs[m].Holds(bs[i].start);
  }

  /** A recorded predecessor has no edge to the block only if it was cut after it was recorded:
      it leads into the block at its own end, and from there execution runs on to the edge. */
  lemma EdgeOrCut(bs: seq<Block>, i: nat, k: nat)
    requires Separate(bs) && PredsSound(bs) && i < |bs| && k < |bs| && bs[i].start in bs[k].preds
    ensures bs[k].start in bs[i].succs
            || (bs[i].start < bs[i].end && bs[i].end in bs[i].succs && Led(bs, bs[i].end, bs[k].start))
  {
    var p, t := bs[i].start, bs[k].start;
    PredecessorLed(bs, k, p);
    var e: Address :| RunsOn(bs, p, e) && Step(bs, e - 1, t);
    FirstByte(bs, i, e, t);
    var last := bs[i].end - 1;
    if e - 1 <= last {
      var m :| 0 <= m < |bs| && BlockStep(bs[m], e - 1, t);
      SameHolder(bs, i, m, e - 1);
    } else {
      assert StepsOn(bs, last);
      var m :| 0 <= m < |bs| && BlockStep(bs[m], last, last + 1);
      SameHolder(bs, i, m, last);
      assert RunsOn(bs, bs[i].end, e);
    }
  }

  lemma WithPredLed(bs: seq<Block>, k: nat, p: Address, n: nat, q: Address)
    requires k < |bs| && PredsSound(bs) && IsStart(bs, p) && Led(bs, p, bs[k].start)
    requires n < |bs| && q in WithPred(bs, k, p)[n].preds
    ensures IsStart(WithPred(bs, k, p), q) && Led(WithPred(bs, k, p), q, bs[n].start)
  {
    hide Led;
    var cs := WithPred(bs, k, p);
    SameShapesMeaning(bs, cs);
    assert IsStart(bs, q) && Led(bs, q, bs[n].start) by {
      if q in bs[n].preds {
        PredecessorLed(bs, n, q);
      }
    }
    var m :| 0 <= m < |bs| && bs[m].start == q;
    assert cs[m].start == q;
    LedSameFlow(bs, cs, q, bs[n].start);
  }

  lemma WithPredSound(bs: seq<Block>, k: nat, p: Address)
    requires k < |bs| && PredsSound(bs)
    requires IsStart(bs, p) && Led(bs, p, bs[k].start)
    ensures PredsSound(WithPred(bs, k, p))
  {
    hide Led, IsStart;
    var cs := WithPred(bs, k, p);
    forall n, q | 0 <= n < |cs| && q in cs[n].preds ensures IsStart(cs, q) && Led(cs, q, cs[n].start) {
      WithPredLed(bs, k, p, n, q);
    }
  }

  lemma SplitLed(bs: seq<Block>, i: nat, a: Address, n: nat, p: Address)
    requires i < |bs| && bs[i].Straddles(a) && PredsSound(bs)
    requires n <= |bs| && p in SplitAt(bs, i, a)[n].preds
    ensures IsStart(SplitAt(bs, i, a), p) && Led(SplitAt(bs, i, a), p, SplitAt(bs, i, a)[n].start)
  {
    hide Led;
    var cs := SplitAt(bs, i, a);
    SplitLinks(bs, i, a);
    SplitKeepsMeaning(bs, i, a);
    if n == |bs| {
      assert p == bs[i].start;
      LedInside(bs, i, a);
    } else {
      PredecessorLed(bs, n, p);
    }
    assert IsStart(bs, p);
    var m :| 0 <= m < |bs| && bs[m].start == p;
    assert cs[m].start == p;
    LedSameFlow(bs, cs, p, cs[n].start);
  }

  lemma SplitSound(bs: seq<Block>, i: nat, a: Address)
    requires i < |bs| && bs[i].Straddles(a) && PredsSound(bs)
    ensures PredsSound(SplitAt(bs, i, a))
  {
    hide Led, IsStart;
    var cs := SplitAt(bs, i, a);
    forall n, p | 0 <= n < |cs| && p in cs[n].preds ensures IsStart(cs, p) && Led(cs, p, cs[n].start) {
      SplitLed(bs, i, a, n, p);
    }
  }

  // ----- One splitting lookup during normalisation -----

  predicate Splits(bs: seq<Block>, a: Address) {
    Hit(bs, a) < |bs| && bs[Hit(bs, a)].start != a
  }

  lemma AfterHitRefines(bs0: seq<Block>, bs: seq<Block>, E: set<Address>, a: Address)
    requires Refines(bs0, bs, E) && a in E
    ensures Refines(bs0, AfterHit(bs, a), E)
    ensures Splits(bs, a) ==> CutCount(E, AfterHit(bs, a)) < CutCount(E, bs)
    ensures PredsSound(bs) ==> PredsSound(AfterHit(bs, a))
  {
    var k := Hit(bs, a);
    if Splits(bs, a) {
      RefinesSplit(bs0, bs, k, a, E);
      SplitUsesOneCut(E, bs, k, a);
      if PredsSound(bs) {
        SplitSound(bs, k, a);
      }
    }
  }

  /** Looking up a successor, or a member of E that is strictly inside some block, splits
      nothing. In a list of overlapping blocks such a lookup may find another block than the
      one the address is inside. */
  ghost predicate Settled(bs: seq<Block>, E: set<Address>) {
    && (forall e :: e in E && IsStraddled(bs, e) ==> !Splits(bs, e))
    && (forall s :: IsSuccessor(bs, s) ==> !Splits(bs, s))
  }

  lemma SplitsSameShapes(bs: seq<Block>, cs: seq<Block>)
    requires SameShapes(bs, cs)
    ensures forall a :: Splits(bs, a) == Splits(cs, a)
    ensures forall a :: IsStraddled(bs, a) <==> IsStraddled(cs, a)
    ensures forall a :: IsSuccessor(bs, a) <==> IsSuccessor(cs, a)
  {
    assert forall i :: 0 <= i < |bs| ==> bs[i].SameShape(cs[i]);
    forall a: Address ensures Splits(bs, a) == Splits(cs, a) {
      HitSameShapes(bs, cs, a);
    }
  }

  lemma SettledSameShapes(bs: seq<Block>, cs: seq<Block>, E: set<Address>)
    requires SameShapes(bs, cs)
    ensures Settled(bs, E) <==> Settled(cs, E)
  {
    SplitsSameShapes(bs, cs);
  }

  /** In a settled list no lookup of normalisation changes a block. */
  lemma SettledLookup(bs: seq<Block>, E: set<Address>, a: Address)
    requires Settled(bs, E) && ((a in E && IsStraddled(bs, a)) || IsSuccessor(bs, a))
    ensures AfterHit(bs, a) == bs
  {
  }

  lemma NotSettled(bs: seq<Block>, E: set<Address>, e: Address)
    requires e in E && IsStraddled(bs, e) && Splits(bs, e)
    ensures !Settled(bs, E)
  {
  }

  lemma NormalFormSettled(bs: seq<Block>)
    requires NormalForm(bs)
    ensures Settled(bs, EntrySet(bs))
  {
    forall e | e in EntrySet(bs) ensures !IsStraddled(bs, e) {
      assert IsStart(bs, e) || IsSuccessor(bs, e);
    }
    forall s | IsSuccessor(bs, s) ensures !Splits(bs, s) {
      assert !IsStraddled(bs, s);
      var h := Hit(bs, s);
      assert h < |bs| ==> !bs[h].Straddles(s);
    }
  }

  /** A lookup of an address inside block i of a separate list does split. */
  lemma StraddledSplits(bs: seq<Block>, i: nat, a: Address)
    requires Separate(bs) && i < |bs| && bs[i].Straddles(a)
    ensures Splits(bs, a)
  {
    assert Hits(bs[i], a);
    assert bs[i].Holds(a);
  }

  /** Every block keeps the predecessors it had. */
  ghost predicate PredsGrow(bs: seq<Block>, cs: seq<Block>) {
    SameShapes(bs, cs) && forall k, p :: 0 <= k < |bs| && p in bs[k].preds ==> p in cs[k].preds
  }

  /** The first n successors of block i are recorded. */
  ghost predicate RecordedTo(bs: seq<Block>, i: nat, n: nat)
    requires i < |bs|
  {
    n <= |bs[i].succs| && forall k :: 0 <= k < n ==> Recorded(bs, i, bs[i].succs[k])
  }

  lemma PredsGrowTrans(bs: seq<Block>, cs: seq<Block>, ds: seq<Block>)
    requires PredsGrow(bs, cs) && PredsGrow(cs, ds)
    ensures PredsGrow(bs, ds)
  {
    assert forall k :: 0 <= k < |bs| ==> bs[k].SameShape(cs[k]) && cs[k].SameShape(ds[k]);
  }

  lemma RecordedToGrows(bs: seq<Block>, cs: seq<Block>, i: nat, n: nat)
    requires PredsGrow(bs, cs) && i < |bs| && RecordedTo(bs, i, n)
    ensures RecordedTo(cs, i, n)
  {
    assert bs[i].SameShape(cs[i]);
    forall k | 0 <= k < n ensures Recorded(cs, i, cs[i].succs[k]) {
      var s := bs[i].succs[k];
      assert Recorded(bs, i, s);
      HitSameShapes(bs, cs, s);
      assert forall k :: 0 <= k < |bs| ==> bs[k].SameShape(cs[k]);
    }
  }

  /** What looking up successor s of block i and recording block i there makes of the list. */
  function AfterRecord(bs: seq<Block>, i: nat, s: Address): seq<Block>
    requires i < |bs|
  {
    var k := Hit(bs, s);
    if k == |bs| then bs
    else WithPred(AfterHit(bs, s), if Splits(bs, s) then |bs| else k, bs[i].start)
  }

  lemma AfterRecordRefines(bs0: seq<Block>, bs: seq<Block>, E: set<Address>, i: nat, s: Address)
    requires Refines(bs0, bs, E) && i < |bs| && s in E
    ensures Refines(bs0, AfterRecord(bs, i, s), E)
    ensures Splits(bs, s) ==> CutCount(E, AfterRecord(bs, i, s)) < CutCount(E, bs)
  {
    AfterHitRefines(bs0, bs, E, s);
    if Hit(bs, s) < |bs| {
      RefinesShapes(bs0, AfterHit(bs, s), AfterRecord(bs, i, s), E);
      CutCountShapes(E, AfterHit(bs, s), AfterRecord(bs, i, s));
    }
  }

  /** Without a split, looking up the n-th successor of block i records it. */
  lemma AfterRecordRecords(bs: seq<Block>, i: nat, n: nat)
    requires i < |bs| && n < |bs[i].succs| && RecordedTo(bs, i, n)
    requires !Splits(bs, bs[i].succs[n])
    ensures PredsGrow(bs, AfterRecord(bs, i, bs[i].succs[n]))
    ensures RecordedTo(AfterRecord(bs, i, bs[i].succs[n]), i, n + 1)
  {
    var s := bs[i].succs[n];
    var cs := AfterRecord(bs, i, s);
    assert PredsGrow(bs, cs);
    HitSameShapes(bs, cs, s);
    RecordedToGrows(bs, cs, i, n);
    assert bs[i].SameShape(cs[i]);
    assert Recorded(cs, i, s);
  }

  lemma AfterRecordSound(bs: seq<Block>, i: nat, s: Address)
    requires i < |bs| && s in bs[i].succs
    requires WellFormed(bs) && PredsSound(bs)
    ensures PredsSound(AfterRecord(bs, i, s))
  {
    var k, cs := Hit(bs, s), AfterHit(bs, s);
    SuccessorLed(bs, i, s);
    hide Led;
    if k < |bs| {
      var k' := if Splits(bs, s) then |bs| else k;
      if Splits(bs, s) {
        SplitKeepsMeaning(bs, k, s);
        SplitSound(bs, k, s);
      }
      assert cs[i].start == bs[i].start && cs[k'].start == s;
      LedSameFlow(bs, cs, bs[i].start, s);
      WithPredSound(cs, k', bs[i].start);
    }
  }

  lemma SuccessorSettled(bs1: seq<Block>, bs: seq<Block>, E: set<Address>, i: nat, s: Address)
    requires SameShapes(bs1, bs) && i < |bs| && s in bs[i].succs
    ensures Settled(bs1, E) ==> !Splits(bs, s)
  {
    SettledSameShapes(bs1, bs, E);
    assert IsSuccessor(bs, s);
  }

  /** All that one step of recording the successors of block i keeps; bs1 is the list
      before the first of them. */
  lemma RecordStep(bs0: seq<Block>, bs1: seq<Block>, bs: seq<Block>, E: set<Address>, i: nat, n: nat)
    requires Refines(bs0, bs, E) && PredsGrow(bs1, bs)
    requires i < |bs| && n < |bs[i].succs| && RecordedTo(bs, i, n)
    ensures Settled(bs1, E) ==> !Splits(bs, bs[i].succs[n])
    ensures var cs := AfterRecord(bs, i, bs[i].succs[n]);
            && Refines(bs0, cs, E)
            && (WellFormed(bs0) && PredsSound(bs) ==> PredsSound(cs))
            && if Splits(bs, bs[i].succs[n]) then CutCount(E, cs) < CutCount(E, bs1)
               else PredsGrow(bs1, cs) && cs[i].succs == bs[i].succs && RecordedTo(cs, i, n + 1)
  {
    var s := bs[i].succs[n];
    SuccessorSettled(bs1, bs, E, i, s);
    AfterRecordRefines(bs0, bs, E, i, s);
    CutCountShapes(E, bs1, bs);
    if WellFormed(bs0) && PredsSound(bs) {
      AfterRecordSound(bs, i, s);
    }
    if !Splits(bs, s) {
      AfterRecordRecords(bs, i, n);
      PredsGrowTrans(bs1, bs, AfterRecord(bs, i, s));
    }
  }

  /** The state between two resets of normalisation: bs1 is the list at the last reset,
      and the first i blocks have been gone through. */
  ghost predicate Passed(bs1: seq<Block>, bs: seq<Block>, E: set<Address>, i: nat) {
    && i <= |bs| && PredsGrow(bs1, bs)
    && (forall j :: 0 <= j < i ==> RecordedTo(bs, j, |bs[j].succs|))
    && (forall j, e :: 0 <= j < i && e in E && bs[j].Straddles(e) ==> !Splits(bs, e))
  }

  lemma PassedNext(bs1: seq<Block>, bs: seq<Block>, cs: seq<Block>, E: set<Address>, i: nat)
    requires Passed(bs1, bs, E, i) && i < |bs| && PredsGrow(bs, cs)
    requires RecordedTo(cs, i, |cs[i].succs|)
    requires forall e :: e in E && bs[i].Straddles(e) ==> !Splits(bs, e)
    ensures Passed(bs1, cs, E, i + 1)
  {
    PredsGrowTrans(bs1, bs, cs);
    assert forall j :: 0 <= j < |bs| ==> bs[j].SameShape(cs[j]);
    forall j | 0 <= j < i + 1 ensures RecordedTo(cs, j, |cs[j].succs|) {
      if j < i {
        RecordedToGrows(bs, cs, j, |bs[j].succs|);
      }
    }
    SplitsSameShapes(bs, cs);
  }

  lemma PassedNone(bs: seq<Block>, E: set<Address>)
    ensures Passed(bs, bs, E, 0)
  {
  }

  lemma PassedShapes(bs1: seq<Block>, bs: seq<Block>, E: set<Address>, i: nat)
    requires Passed(bs1, bs, E, i)
    ensures SameShapes(bs1, bs)
  {
  }

  lemma ShapesSelf(bs: seq<Block>)
    ensures SameShapes(bs, bs)
  {
  }

  /** One more pass over a list with the shapes of a settled one: it is the last, and the
      shapes stay. */
  lemma StillSettled(bs0: seq<Block>, bs1: seq<Block>, bs: seq<Block>, E: set<Address>, again: bool)
    requires Settled(bs0, E) ==> SameShapes(bs0, bs1)
    requires Settled(bs1, E) ==> !again
    requires !again ==> Passed(bs1, bs, E, |bs|)
    ensures Settled(bs0, E) ==> SameShapes(bs0, bs)
  {
    if Settled(bs0, E) {
      SettledSameShapes(bs0, bs1, E);
      ShapesTrans(bs0, bs1, bs);
    }
  }

  /** The result of normalising separate blocks: the normal form, with the starts there
      were and one more for every start or successor strictly inside a block. */
  ghost predicate Normalised(bs: seq<Block>, cs: seq<Block>) {
    && Separate(cs) && NormalForm(cs)
    && |cs| == |bs| + CutCount(EntrySet(bs), bs)
    && forall x :: IsStart(cs, x) <==> IsStart(bs, x) || (x in EntrySet(bs) && IsStraddled(bs, x))
  }

  lemma PassedRecorded(bs1: seq<Block>, bs: seq<Block>, E: set<Address>)
    requires Passed(bs1, bs, E, |bs|)
    ensures PredsComplete(bs)
  {
    forall i, s | 0 <= i < |bs| && s in bs[i].succs ensures Recorded(bs, i, s) {
      var k :| 0 <= k < |bs[i].succs| && bs[i].succs[k] == s;
      assert RecordedTo(bs, i, |bs[i].succs|);
    }
  }

  lemma PassedSettled(bs1: seq<Block>, bs: seq<Block>, E: set<Address>)
    requires Passed(bs1, bs, E, |bs|) && PredsComplete(bs) && EntriesIn(bs, E)
    ensures Settled(bs, EntrySet(bs))
  {
    forall e | e in EntrySet(bs) && IsStraddled(bs, e) ensures !Splits(bs, e) {
      var i :| 0 <= i < |bs| && (bs[i].start == e || e in bs[i].succs);
      assert e in E;
    }
    forall s | IsSuccessor(bs, s) ensures !Splits(bs, s) {
      var i :| 0 <= i < |bs| && s in bs[i].succs;
      assert Recorded(bs, i, s);
    }
  }

  lemma PassedSeparate(bs1: seq<Block>, bs: seq<Block>, E: set<Address>)
    requires Passed(bs1, bs, E, |bs|) && Separate(bs)
    ensures forall i, e :: 0 <= i < |bs| && e in E ==> !bs[i].Straddles(e)
  {
    forall i, e | 0 <= i < |bs| && e in E ensures !bs[i].Straddles(e) {
      if bs[i].Straddles(e) {
        StraddledSplits(bs, i, e);
      }
    }
  }

  /** A pass that went through leaves predecessor lists complete and a list in which no lookup
      of a second normalisation splits; from separate blocks it is the normal form. */
  lemma PassedAll(bs0: seq<Block>, bs1: seq<Block>, bs: seq<Block>, E: set<Address>)
    requires E == EntrySet(bs0) && Refines(bs0, bs, E)
    requires Passed(bs1, bs, E, |bs|)
    ensures PredsComplete(bs)
    ensures Settled(bs, EntrySet(bs))
    ensures Separate(bs0) ==> Normalised(bs0, bs)
  {
    PassedRecorded(bs1, bs, E);
    PassedSettled(bs1, bs, E);
    if Separate(bs0) {
      PassedSeparate(bs1, bs, E);
      RefinesToNormalForm(bs0, bs, E);
    }
  }

  lemma RecordedInPlace(bs: seq<Block>, i: nat, s: Address, k: nat)
    requires i < |bs| && k == Hit(bs, s) < |bs| && bs[k].start == s
    ensures AfterRecord(bs, i, s) == bs[k := bs[k].(preds := bs[k].preds + [bs[i].start])]
  {
  }

  lemma RecordedAtCut(bs: seq<Block>, i: nat, s: Address, k: nat)
    requires i < |bs| && k == Hit(bs, s) < |bs| && bs[k].start != s
    ensures AfterRecord(bs, i, s) ==
            bs[k := Block(bs[k].start, s, [s], bs[k].preds)]
            + [Block(s, bs[k].end, bs[k].succs, [bs[k].start, bs[i].start])]
  {
    assert [bs[k].start] + [bs[i].start] == [bs[k].start, bs[i].start];
  }

  // ----- Where none is left behind -----

  /** A predecessor with an edge to the block. */
  ghost predicate HasEdge(bs: seq<Block>, p: Address, t: Address) {
    exists i :: 0 <= i < |bs| && bs[i].start == p && t in bs[i].succs
  }

  ghost predicate PredsExact(bs: seq<Block>) {
    forall k, p :: 0 <= k < |bs| && p in bs[k].preds ==> HasEdge(bs, p, bs[k].start)
  }

  ghost predicate NoneInside(b: Block, E: set<Address>) {
    forall e :: e in E ==> !b.Straddles(e)
  }

  ghost predicate OneInside(b: Block, E: set<Address>) {
    forall e, f :: e in E && f in E && b.Straddles(e) && b.Straddles(f) ==> e == f
  }

  /** A predecessor with an edge to the block, which will not be cut any more. */
  ghost predicate HasWholeEdge(bs: seq<Block>, E: set<Address>, p: Address, t: Address) {
    exists i :: 0 <= i < |bs| && bs[i].start == p && t in bs[i].succs && NoneInside(bs[i], E)
  }

  /** No block has two entries strictly inside it, and every recorded predecessor is such a one. */
  ghost predicate Tidy(bs: seq<Block>, E: set<Address>) {
    && Separate(bs) && (forall i :: 0 <= i < |bs| ==> OneInside(bs[i], E))
    && (forall k, p :: 0 <= k < |bs| && p in bs[k].preds ==> HasWholeEdge(bs, E, p, bs[k].start))
  }

  lemma TidyIsExact(bs: seq<Block>, E: set<Address>)
    requires Tidy(bs, E)
    ensures PredsExact(bs)
  {
    forall k, p | 0 <= k < |bs| && p in bs[k].preds ensures HasEdge(bs, p, bs[k].start) {
      assert HasWholeEdge(bs, E, p, bs[k].start);
    }
  }

  lemma WholeEdgeAfterSplit(bs: seq<Block>, E: set<Address>, k: nat, a: Address, p: Address, t: Address)
    requires k < |bs| && bs[k].Straddles(a) && a in E && HasWholeEdge(bs, E, p, t)
    ensures HasWholeEdge(SplitAt(bs, k, a), E, p, t)
  {
    var i :| 0 <= i < |bs| && bs[i].start == p && t in bs[i].succs && NoneInside(bs[i], E);
    assert SplitAt(bs, k, a)[i] == bs[i];
  }

  lemma SplitTidy(bs: seq<Block>, E: set<Address>, k: nat, a: Address)
    requires Tidy(bs, E) && k < |bs| && bs[k].Straddles(a) && a in E
    ensures Tidy(SplitAt(bs, k, a), E)
  {
    var cs := SplitAt(bs, k, a);
    SplitKeepsSeparate(bs, k, a);
    assert OneInside(bs[k], E);
    assert NoneInside(cs[k], E) && NoneInside(cs[|bs|], E);
    forall n, p | 0 <= n < |cs| && p in cs[n].preds ensures HasWholeEdge(cs, E, p, cs[n].start) {
      if n < |bs| {
        assert HasWholeEdge(bs, E, p, bs[n].start);
        WholeEdgeAfterSplit(bs, E, k, a, p, bs[n].start);
      } else {
        assert cs[k].start == p && a in cs[k].succs;
      }
    }
  }

  lemma AfterHitTidy(bs: seq<Block>, E: set<Address>, a: Address)
    requires a in E
    ensures Tidy(bs, E) ==> Tidy(AfterHit(bs, a), E)
  {
    if Tidy(bs, E) && Splits(bs, a) {
      SplitTidy(bs, E, Hit(bs, a), a);
    }
  }

  lemma WithPredTidy(bs: seq<Block>, E: set<Address>, k: nat, p: Address)
    requires Tidy(bs, E) && k < |bs| && HasWholeEdge(bs, E, p, bs[k].start)
    ensures Tidy(WithPred(bs, k, p), E)
  {
    var cs := WithPred(bs, k, p);
    assert forall i :: 0 <= i < |bs| ==> bs[i].SameShape(cs[i]);
    forall n, q | 0 <= n < |cs| && q in cs[n].preds ensures HasWholeEdge(cs, E, q, cs[n].start) {
      assert HasWholeEdge(bs, E, q, bs[n].start) by {
        if q in bs[n].preds {
          assert HasWholeEdge(bs, E, q, bs[n].start);
        }
      }
      var i :| 0 <= i < |bs| && bs[i].start == q && bs[n].start in bs[i].succs && NoneInside(bs[i], E);
      assert cs[i].start == q && NoneInside(cs[i], E);
    }
  }

  /** Recording a block that will not be cut any more keeps the list tidy. */
  lemma AfterRecordTidy(bs: seq<Block>, E: set<Address>, i: nat, a: Address)
    requires i < |bs| && a in bs[i].succs && a in E
    ensures var cs := AfterRecord(bs, i, a);
            Tidy(bs, E) && NoneInside(bs[i], E) ==> Tidy(cs, E) && NoneInside(cs[i], E)
  {
    if Tidy(bs, E) && NoneInside(bs[i], E) {
      var k, cs := Hit(bs, a), AfterHit(bs, a);
      AfterHitTidy(bs, E, a);
      if k < |bs| {
        var m := if Splits(bs, a) then |bs| else k;
        assert cs[i] == bs[i] && cs[m].start == a;
        assert HasWholeEdge(cs, E, bs[i].start, a);
        WithPredTidy(cs, E, m, bs[i].start);
      }
    }
  }

  lemma RefinesEntries(bs0: seq<Block>, bs: seq<Block>, E: set<Address>, i: nat)
    requires Refines(bs0, bs, E) && i < |bs|
    ensures forall a :: a in bs[i].succs ==> a in E
  {
  }

  lemma UncutHasNoneInside(bs: seq<Block>, E: set<Address>, i: nat)
    requires i < |bs| && forall e :: e in E && bs[i].Straddles(e) ==> !Splits(bs, e)
    ensures Tidy(bs, E) ==> NoneInside(bs[i], E)
  {
    forall e | e in E && Tidy(bs, E) ensures !bs[i].Straddles(e) {
      if bs[i].Straddles(e) {
        StraddledSplits(bs, i, e);
      }
    }
  }

  // ----- What normalisation is for -----

  /** After normalisation, the graph reaches from the block of an original start exactly
      the blocks whose bytes the original blocks reach from there. */
  lemma GraphShowsOriginalFlow(bs: seq<Block>, cs: seq<Block>, a: Address, j: nat, x: Address)
    requires SameFlow(bs, cs) && SameBytes(bs, cs) && Normalised(bs, cs)
    requires IsStart(bs, a) && Covered(bs, a)
    requires j < |cs| && cs[j].Holds(x)
    ensures BlockReach(cs, Lookup(cs, a), j) <==> Reach(bs, a, x)
  {
    assert IsStart(cs, a) && Covered(cs, a);
    LookupsAreStable(cs, a);
    GraphIsFlow(cs, Lookup(cs, a), j, x);
    ReachSameFlow(bs, cs, a, x);
  }

  lemma NormalFormHasNoCuts(cs: seq<Block>)
    requires NormalForm(cs)
    ensures CutCount(EntrySet(cs), cs) == 0
  {
    var E := EntrySet(cs);
    forall i, e | 0 <= i < |cs| && e in E ensures !cs[i].Straddles(e) {
      assert IsStart(cs, e) || IsSuccessor(cs, e);
      assert !IsStraddled(cs, e);
    }
    NoCutsLeft(E, cs);
  }

  /** A second normalisation changes no block: whatever comes from a normal form by splits
      at its own starts and successors is that normal form. */
  lemma SecondRunSplitsNothing(cs: seq<Block>, ds: seq<Block>)
    requires NormalForm(cs) && Refines(cs, ds, EntrySet(cs))
    ensures SameShapes(cs, ds)
  {
    hide NormalForm, EntrySet, SameFlow, SameBytes, Separate, WellFormed, EntriesIn, IsPiece;
    NormalFormHasNoCuts(cs);
  }
}
