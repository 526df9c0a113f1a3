/** Basic blocks as values: the address-level meaning of a block list, the effect
    of splitting one block, and what every split keeps. */
module Blocks {

  type Address = nat

  /** A snapshot of a basic block: the half-open byte range, the successor
      addresses in order, and the recorded predecessor addresses. A block that was
      abandoned while it was being decoded has end 0 and holds no byte. */
  datatype Block = Block(start: Address, end: Address, succs: seq<Address>, preds: seq<Address>)
  {
    predicate Holds(x: Address) {
      start <= x < end
    }

    /** x is a byte of the block other than its first. */
    predicate Straddles(x: Address) {
      start < x < end
    }

    predicate SameShape(other: Block) {
      start == other.start && end == other.end && succs == other.succs
    }
  }

  // ----- The meaning of a block list -----

  /** One step of control at byte granularity: to the next byte inside a block,
      or from the last byte of a block to one of its successors. */
  ghost predicate BlockStep(b: Block, x: Address, y: Address) {
    b.Holds(x) && if x + 1 < b.end then y == x + 1 else y in b.succs
  }

  ghost predicate Step(bs: seq<Block>, x: Address, y: Address) {
    exists i :: 0 <= i < |bs| && BlockStep(bs[i], x, y)
  }

  ghost predicate IsPath(bs: seq<Block>, p: seq<Address>, x: Address, y: Address) {
    && |p| > 0
    && p[0] == x
    && p[|p| - 1] == y
    && forall k :: 0 <= k < |p| - 1 ==> Step(bs, p[k], p[k + 1])
  }

  /** y can be reached from x by following the blocks. */
  ghost predicate Reach(bs: seq<Block>, x: Address, y: Address) {
    exists p :: IsPath(bs, p, x, y)
  }

  ghost predicate Covered(bs: seq<Block>, x: Address) {
    exists i :: 0 <= i < |bs| && bs[i].Holds(x)
  }

  ghost predicate IsStart(bs: seq<Block>, x: Address) {
    exists i :: 0 <= i < |bs| && bs[i].start == x
  }

  ghost predicate IsStraddled(bs: seq<Block>, x: Address) {
    exists i :: 0 <= i < |bs| && bs[i].Straddles(x)
  }

  ghost predicate IsSuccessor(bs: seq<Block>, x: Address) {
    exists i :: 0 <= i < |bs| && x in bs[i].succs
  }

  /** Starts are distinct and none lies in another block. It follows that the byte
      ranges are disjoint, and it constrains abandoned blocks as well. */
  ghost predicate Separate(bs: seq<Block>) {
    forall i, j :: 0 <= i < |bs| && 0 <= j < |bs| && i != j
      ==> bs[i].start != bs[j].start && !bs[i].Holds(bs[j].start)
  }

  /** Only a block with bytes has successors. */
  ghost predicate WellFormed(bs: seq<Block>) {
    forall i :: 0 <= i < |bs| && bs[i].succs != [] ==> bs[i].start < bs[i].end
  }

  /** No start and no successor is strictly inside a block. */
  ghost predicate NormalForm(bs: seq<Block>) {
    forall x :: IsStart(bs, x) || IsSuccessor(bs, x) ==> !IsStraddled(bs, x)
  }

  ghost predicate SameFlow(bs: seq<Block>, cs: seq<Block>) {
    forall x, y :: Step(bs, x, y) <==> Step(cs, x, y)
  }

  ghost predicate SameBytes(bs: seq<Block>, cs: seq<Block>) {
    forall x :: Covered(bs, x) <==> Covered(cs, x)
  }

  ghost predicate SameShapes(bs: seq<Block>, cs: seq<Block>) {
    |bs| == |cs| && forall i :: 0 <= i < |bs| ==> bs[i].SameShape(cs[i])
  }

  /** Blocks of a separate list share no byte. */
  lemma SameHolder(bs: seq<Block>, i: nat, j: nat, x: Address)
    requires Separate(bs) && i < |bs| && j < |bs|
    requires bs[i].Holds(x) && bs[j].Holds(x)
    ensures i == j
  {
  }

  lemma PathAppend(bs: seq<Block>, p: seq<Address>, x: Address, y: Address, z: Address)
    requires IsPath(bs, p, x, y) && Step(bs, y, z)
    ensures IsPath(bs, p + [z], x, z)
  {
    var q := p + [z];
    forall k | 0 <= k < |q| - 1 ensures Step(bs, q[k], q[k + 1]) {
      if k < |p| - 1 {
        assert q[k] == p[k] && q[k + 1] == p[k + 1];
      }
    }
  }

  lemma PathFront(bs: seq<Block>, p: seq<Address>, x: Address, y: Address)
    requires IsPath(bs, p, x, y) && |p| > 1
    ensures IsPath(bs, p[..|p| - 1], x, p[|p| - 2])
    ensures Step(bs, p[|p| - 2], y)
  {
    assert forall k :: 0 <= k < |p| - 1 ==> Step(bs, p[k], p[k + 1]);
    assert Step(bs, p[|p| - 2], p[|p| - 2 + 1]);
  }

  lemma ReachStep(bs: seq<Block>, x: Address, y: Address, z: Address)
    requires Reach(bs, x, y) && Step(bs, y, z)
    ensures Reach(bs, x, z)
  {
    var p :| IsPath(bs, p, x, y);
    PathAppend(bs, p, x, y, z);
  }

  lemma ReachSelf(bs: seq<Block>, x: Address)
    ensures Reach(bs, x, x)
  {
    assert IsPath(bs, [x], x, x);
  }

  /** Reachability depends on the step relation only. */
  lemma ReachSameFlow(bs: seq<Block>, cs: seq<Block>, x: Address, y: Address)
    requires SameFlow(bs, cs)
    ensures Reach(bs, x, y) <==> Reach(cs, x, y)
  {
    if p :| IsPath(bs, p, x, y) {
      assert IsPath(cs, p, x, y);
    }
    if p :| IsPath(cs, p, x, y) {
      assert IsPath(bs, p, x, y);
    }
  }

  /** Execution runs through a block from its first byte to any other. */
  lemma {:induction false} ReachWithin(bs: seq<Block>, i: nat, x: Address, y: Address)
    requires i < |bs| && bs[i].Holds(x) && bs[i].Holds(y) && x <= y
    ensures Reach(bs, x, y)
    decreases y - x
  {
    if x == y {
      ReachSelf(bs, x);
    } else {
      ReachWithin(bs, i, x, y - 1);
      assert BlockStep(bs[i], y - 1, y);
      ReachStep(bs, x, y - 1, y);
    }
  }

  // ----- Splitting -----

  /** What is left of b when it is cut at a: it ends there and leads there. */
  function Head(b: Block, a: Address): Block {
    b.(end := a, succs := [a])
  }

  /** The rest of b: it takes over the end and the successors of b. */
  function Tail(b: Block, a: Address): Block {
    Block(a, b.end, b.succs, [b.start])
  }

  function SplitAt(bs: seq<Block>, i: nat, a: Address): (r: seq<Block>)
    requires i < |bs|
    ensures |r| == |bs| + 1
  {
    bs[i := Head(bs[i], a)] + [Tail(bs[i], a)]
  }

  /** The two parts are linked with one another, and nothing else is recorded anew. */
  lemma SplitLinks(bs: seq<Block>, i: nat, a: Address)
    requires i < |bs| && bs[i].Straddles(a)
    ensures var cs := SplitAt(bs, i, a);
            && cs[i].succs == [cs[|bs|].start] && cs[|bs|].preds == [cs[i].start]
            && forall k :: 0 <= k < |bs| ==> cs[k].preds == bs[k].preds && cs[k].start == bs[k].start
  {
  }

  lemma SplitStep(bs: seq<Block>, i: nat, a: Address, x: Address, y: Address)
    requires i < |bs| && bs[i].Straddles(a)
    ensures Step(bs, x, y) <==> Step(SplitAt(bs, i, a), x, y)
  {
    var cs := SplitAt(bs, i, a);
    assert cs[i] == Head(bs[i], a) && cs[|bs|] == Tail(bs[i], a);
    if k :| 0 <= k < |bs| && BlockStep(bs[k], x, y) {
      if k == i {
        assert BlockStep(cs[i], x, y) || BlockStep(cs[|bs|], x, y);
      } else {
        assert cs[k] == bs[k];
      }
    }
    if k :| 0 <= k < |cs| && BlockStep(cs[k], x, y) {
      if k == i || k == |bs| {
        assert BlockStep(bs[i], x, y);
      } else {
        assert cs[k] == bs[k];
      }
    }
  }

  /** A split leaves control flow and the covered bytes exactly as they were. */
  lemma SplitKeepsMeaning(bs: seq<Block>, i: nat, a: Address)
    requires i < |bs| && bs[i].Straddles(a)
    ensures SameFlow(bs, SplitAt(bs, i, a))
    ensures SameBytes(bs, SplitAt(bs, i, a))
  {
    var cs := SplitAt(bs, i, a);
    forall x: Address, y: Address ensures Step(bs, x, y) <==> Step(cs, x, y) {
      SplitStep(bs, i, a, x, y);
    }
    forall x: Address ensures Covered(bs, x) <==> Covered(cs, x) {
      if k :| 0 <= k < |bs| && bs[k].Holds(x) {
        assert cs[if k == i && x >= a then |bs| else k].Holds(x);
      }
      if k :| 0 <= k < |cs| && cs[k].Holds(x) {
        assert bs[if k == |bs| then i else k].Holds(x);
      }
    }
  }

  lemma SplitKeepsSeparate(bs: seq<Block>, i: nat, a: Address)
    requires i < |bs| && bs[i].Straddles(a)
    requires Separate(bs)
    ensures Separate(SplitAt(bs, i, a))
  {
    var cs := SplitAt(bs, i, a);
    forall j, k | 0 <= j < |cs| && 0 <= k < |cs| && j != k
      ensures cs[j].start != cs[k].start && !cs[j].Holds(cs[k].start)
    {
      var j', k' := if j == |bs| then i else j, if k == |bs| then i else k;
      if j' != k' {
        assert bs[j'].start != bs[k'].start && !bs[j'].Holds(bs[k'].start) && !bs[k'].Holds(bs[j'].start);
      }
    }
  }

  /** Every start and every successor is in E. */
  ghost predicate EntriesIn(bs: seq<Block>, E: set<Address>) {
    forall i :: 0 <= i < |bs| ==> bs[i].start in E && forall x :: x in bs[i].succs ==> x in E
  }

  /** All starts and successors. */
  ghost function EntrySet(bs: seq<Block>): (E: set<Address>)
    ensures EntriesIn(bs, E)
    ensures forall x :: x in E ==> exists i :: 0 <= i < |bs| && (bs[i].start == x || x in bs[i].succs)
  {
    (set i | 0 <= i < |bs| :: bs[i].start) + (set i, x | 0 <= i < |bs| && x in bs[i].succs :: x)
  }

  lemma EntrySetNext(bs: seq<Block>, i: nat)
    requires i < |bs|
    ensures EntrySet(bs[..i + 1]) == EntrySet(bs[..i]) + {bs[i].start} + (set x | x in bs[i].succs)
  {
    var E, E' := EntrySet(bs[..i]), EntrySet(bs[..i + 1]);
    assert EntriesIn(bs[..i + 1], E') && EntriesIn(bs[..i], E);
    assert bs[..i + 1][i] == bs[i];
    forall x | x in E' ensures x in E || x == bs[i].start || x in bs[i].succs {
      var j :| 0 <= j <= i && (bs[..i + 1][j].start == x || x in bs[..i + 1][j].succs);
      assert j < i ==> bs[..i][j] == bs[j];
    }
    forall x | x in E || x == bs[i].start || x in bs[i].succs ensures x in E' {
      if x in E {
        var j :| 0 <= j < i && (bs[..i][j].start == x || x in bs[..i][j].succs);
        assert bs[..i + 1][j] == bs[j];
      }
    }
  }

  // ----- How many cuts are still to be made -----

  /** The members of E that lie strictly inside b. */
  ghost function Cuts(E: set<Address>, b: Block): set<Address> {
    set e | e in E && b.Straddles(e)
  }

  /** The number of pairs of a block and a member of E strictly inside it. */
  ghost function CutCount(E: set<Address>, bs: seq<Block>): nat {
    if bs == [] then 0 else |Cuts(E, bs[0])| + CutCount(E, bs[1..])
  }

  lemma {:induction false} CutCountAppend(E: set<Address>, bs: seq<Block>, b: Block)
    ensures CutCount(E, bs + [b]) == CutCount(E, bs) + |Cuts(E, b)|
  {
    if bs == [] {
      assert bs + [b] == [b];
    } else {
      assert (bs + [b])[1..] == bs[1..] + [b];
      CutCountAppend(E, bs[1..], b);
    }
  }

  lemma {:induction false} CutCountUpdate(E: set<Address>, bs: seq<Block>, i: nat, b: Block)
    requires i < |bs|
    ensures CutCount(E, bs[i := b]) + |Cuts(E, bs[i])| == CutCount(E, bs) + |Cuts(E, b)|
  {
    if i == 0 {
      assert bs[i := b][1..] == bs[1..];
    } else {
      assert bs[i := b][1..] == bs[1..][i - 1 := b];
      CutCountUpdate(E, bs[1..], i - 1, b);
    }
  }

  lemma {:induction false} CutCountShapes(E: set<Address>, bs: seq<Block>, cs: seq<Block>)
    requires SameShapes(bs, cs)
    ensures CutCount(E, bs) == CutCount(E, cs)
  {
    if bs != [] {
      assert bs[0].SameShape(cs[0]);
      assert Cuts(E, bs[0]) == Cuts(E, cs[0]);
      assert SameShapes(bs[1..], cs[1..]);
      CutCountShapes(E, bs[1..], cs[1..]);
    }
  }

  lemma {:induction false} NoCutsLeft(E: set<Address>, bs: seq<Block>)
    requires forall i, e :: 0 <= i < |bs| && e in E ==> !bs[i].Straddles(e)
    ensures CutCount(E, bs) == 0
  {
    if bs != [] {
      assert Cuts(E, bs[0]) == {};
      NoCutsLeft(E, bs[1..]);
    }
  }

  /** Each split at a member of E uses up exactly one cut, overlapping blocks included. */
  lemma SplitUsesOneCut(E: set<Address>, bs: seq<Block>, i: nat, a: Address)
    requires i < |bs| && bs[i].Straddles(a) && a in E
    ensures CutCount(E, SplitAt(bs, i, a)) + 1 == CutCount(E, bs)
  {
    var h, t := Head(bs[i], a), Tail(bs[i], a);
    assert Cuts(E, bs[i]) == Cuts(E, h) + Cuts(E, t) + {a};
    assert Cuts(E, h) !! Cuts(E, t) && a !in Cuts(E, h) + Cuts(E, t);
    assert |Cuts(E, bs[i])| == |Cuts(E, h)| + |Cuts(E, t)| + 1;
    CutCountUpdate(E, bs, i, h);
    CutCountAppend(E, bs[i := h], t);
  }

  // ----- What a run of splits keeps -----

  /** c is a part of b that starts where b starts or at a member of E inside b. If it ends where b
      ends, it has the successors of b; otherwise it ends at a member of E inside b, its one
      successor. */
  ghost predicate PieceOf(b: Block, c: Block, E: set<Address>) {
    && b.start <= c.start && c.end <= b.end
    && (c.start == b.start || (c.start in E && b.Straddles(c.start)))
    && (b.start < b.end ==> c.start < c.end)
    && (if c.end == b.end then c.succs == b.succs else c.succs == [c.end] && c.end in E && b.Straddles(c.end))
  }

  ghost predicate IsPiece(bs: seq<Block>, c: Block, E: set<Address>) {
    exists j :: 0 <= j < |bs| && PieceOf(bs[j], c, E)
  }

  /** cs comes from bs by splits at members of E (and changes to predecessor lists). */
  ghost predicate Refines(bs: seq<Block>, cs: seq<Block>, E: set<Address>) {
    && SameFlow(bs, cs)
    && SameBytes(bs, cs)
    && |bs| <= |cs|
    && |cs| + CutCount(E, cs) == |bs| + CutCount(E, bs)
    && (|bs| == |cs| ==> SameShapes(bs, cs))
    && (forall i :: 0 <= i < |bs| ==> bs[i].start == cs[i].start)
    && (forall i :: 0 <= i < |cs| ==> IsPiece(bs, cs[i], E))
    && (Separate(bs) ==> Separate(cs))
    && (WellFormed(bs) ==> WellFormed(cs))
    && EntriesIn(cs, E)
  }

  lemma RefinesSelf(bs: seq<Block>, E: set<Address>)
    requires EntriesIn(bs, E)
    ensures Refines(bs, bs, E)
  {
    forall i | 0 <= i < |bs| ensures IsPiece(bs, bs[i], E) {
      assert PieceOf(bs[i], bs[i], E);
    }
  }

  lemma SameShapesMeaning(bs: seq<Block>, cs: seq<Block>)
    requires SameShapes(bs, cs)
    ensures SameFlow(bs, cs) && SameBytes(bs, cs)
  {
    forall x: Address, y: Address ensures Step(bs, x, y) <==> Step(cs, x, y) {
      if i :| 0 <= i < |bs| && BlockStep(bs[i], x, y) { assert BlockStep(cs[i], x, y); }
      if i :| 0 <= i < |bs| && BlockStep(cs[i], x, y) { assert BlockStep(bs[i], x, y); }
    }
    forall x: Address ensures Covered(bs, x) <==> Covered(cs, x) {
      if i :| 0 <= i < |bs| && bs[i].Holds(x) { assert cs[i].Holds(x); }
      if i :| 0 <= i < |bs| && cs[i].Holds(x) { assert bs[i].Holds(x); }
    }
  }

  lemma SameShapesKeep(bs: seq<Block>, cs: seq<Block>, E: set<Address>)
    requires SameShapes(bs, cs)
    ensures Separate(bs) <==> Separate(cs)
    ensures WellFormed(bs) <==> WellFormed(cs)
    ensures EntriesIn(bs, E) <==> EntriesIn(cs, E)
  {
    assert forall i :: 0 <= i < |bs| ==> bs[i].SameShape(cs[i]);
    assert forall i :: 0 <= i < |bs| ==> cs[i].SameShape(bs[i]);
  }

  lemma ShapesPieces(bs: seq<Block>, cs: seq<Block>, ds: seq<Block>, E: set<Address>)
    requires SameShapes(cs, ds)
    requires forall i :: 0 <= i < |cs| ==> IsPiece(bs, cs[i], E)
    ensures forall i :: 0 <= i < |ds| ==> IsPiece(bs, ds[i], E)
  {
    forall i | 0 <= i < |ds| ensures IsPiece(bs, ds[i], E) {
      assert cs[i].SameShape(ds[i]) && IsPiece(bs, cs[i], E);
      var j :| 0 <= j < |bs| && PieceOf(bs[j], cs[i], E);
      assert PieceOf(bs[j], ds[i], E);
    }
  }

  lemma MeaningTrans(bs: seq<Block>, cs: seq<Block>, ds: seq<Block>)
    requires SameFlow(bs, cs) && SameFlow(cs, ds)
    requires SameBytes(bs, cs) && SameBytes(cs, ds)
    ensures SameFlow(bs, ds) && SameBytes(bs, ds)
  {
    assert forall x, y :: Step(bs, x, y) <==> Step(cs, x, y);
    assert forall x :: Covered(bs, x) <==> Covered(cs, x);
  }

  lemma ShapesTrans(bs: seq<Block>, cs: seq<Block>, ds: seq<Block>)
    requires SameShapes(cs, ds)
    ensures SameShapes(bs, cs) ==> SameShapes(bs, ds)
    ensures forall i :: 0 <= i < |cs| ==> cs[i].start == ds[i].start
  {
    assert forall i :: 0 <= i < |cs| ==> cs[i].SameShape(ds[i]);
  }

  lemma RefinesShapes(bs: seq<Block>, cs: seq<Block>, ds: seq<Block>, E: set<Address>)
    requires Refines(bs, cs, E) && SameShapes(cs, ds)
    ensures Refines(bs, ds, E)
  {
    SameShapesMeaning(cs, ds);
    MeaningTrans(bs, cs, ds);
    SameShapesKeep(cs, ds, E);
    CutCountShapes(E, cs, ds);
    ShapesPieces(bs, cs, ds, E);
    ShapesTrans(bs, cs, ds);
  }

  lemma SplitPieces(bs: seq<Block>, cs: seq<Block>, i: nat, a: Address, E: set<Address>)
    requires forall k :: 0 <= k < |cs| ==> IsPiece(bs, cs[k], E)
    requires i < |cs| && cs[i].Straddles(a) && a in E
    ensures forall k :: 0 <= k < |cs| + 1 ==> IsPiece(bs, SplitAt(cs, i, a)[k], E)
  {
    forall k | 0 <= k < |cs| + 1 ensures IsPiece(bs, SplitAt(cs, i, a)[k], E) {
      var k' := if k == |cs| then i else k;
      assert IsPiece(bs, cs[k'], E);
      var j :| 0 <= j < |bs| && PieceOf(bs[j], cs[k'], E);
      assert PieceOf(bs[j], SplitAt(cs, i, a)[k], E);
    }
  }

  lemma SplitKeepsEntries(bs: seq<Block>, i: nat, a: Address, E: set<Address>)
    requires i < |bs| && bs[i].Straddles(a) && a in E && EntriesIn(bs, E)
    ensures EntriesIn(SplitAt(bs, i, a), E)
    ensures WellFormed(bs) ==> WellFormed(SplitAt(bs, i, a))
    ensures forall k :: 0 <= k < |bs| ==> SplitAt(bs, i, a)[k].start == bs[k].start
  {
  }

  lemma RefinesSplit(bs: seq<Block>, cs: seq<Block>, i: nat, a: Address, E: set<Address>)
    requires Refines(bs, cs, E) && i < |cs| && cs[i].Straddles(a) && a in E
    ensures Refines(bs, SplitAt(cs, i, a), E)
  {
    SplitKeepsMeaning(cs, i, a);
    MeaningTrans(bs, cs, SplitAt(cs, i, a));
    SplitUsesOneCut(E, cs, i, a);
    SplitPieces(bs, cs, i, a, E);
    SplitKeepsEntries(cs, i, a, E);
    if Separate(bs) {
      SplitKeepsSeparate(cs, i, a);
    }
  }

  lemma CoveredCutIsStart(bs: seq<Block>, cs: seq<Block>, E: set<Address>, x: Address)
    requires SameBytes(bs, cs) && x in E && IsStraddled(bs, x)
    requires forall i, e :: 0 <= i < |cs| && e in E ==> !cs[i].Straddles(e)
    ensures IsStart(cs, x)
  {
    var i :| 0 <= i < |bs| && bs[i].Straddles(x);
    assert bs[i].Holds(x);
    assert Covered(cs, x);
    var k :| 0 <= k < |cs| && cs[k].Holds(x);
    assert !cs[k].Straddles(x);
  }

  /** The outcome of a complete run on separate blocks: the normal form, with exactly
      the starts that were there and the members of E that were strictly inside. */
  lemma RefinesToNormalForm(bs: seq<Block>, cs: seq<Block>, E: set<Address>)
    requires Refines(bs, cs, E)
    requires forall i, e :: 0 <= i < |cs| && e in E ==> !cs[i].Straddles(e)
    ensures NormalForm(cs)
    ensures |cs| == |bs| + CutCount(E, bs)
    ensures forall x :: IsStart(cs, x) <==> IsStart(bs, x) || (x in E && IsStraddled(bs, x))
  {
    NoCutsLeft(E, cs);
    forall x: Address ensures IsStart(cs, x) <==> IsStart(bs, x) || (x in E && IsStraddled(bs, x)) {
      if i :| 0 <= i < |cs| && cs[i].start == x {
        assert IsPiece(bs, cs[i], E);
      }
      if i :| 0 <= i < |bs| && bs[i].start == x {
        assert cs[i].start == x;
      }
      if x in E && IsStraddled(bs, x) {
        CoveredCutIsStart(bs, cs, E, x);
      }
    }
  }
}
