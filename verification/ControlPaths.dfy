/** Where control may go inside a function, and where the graph of its blocks goes. */
module ControlPaths {
  import opened Blocks
  import opened ControlFlow
  import opened Image
  import opened Layout

  /** What exploration (raw) and normalisation (cs) leave of a function, where decoded instructions
      do not overlap and no successor leads into the middle of one. */
  ghost predicate Charted(c: Scope, visited: set<Address>, raw: seq<Block>, cs: seq<Block>) {
    && Laid(c, visited, raw, {}) && (forall x :: x in visited <==> x in c.before || c.Reached(x))
    && NoOverlap(c.bin, visited - c.before) && EntriesAmong(raw, visited - c.before)
    && Refines(raw, cs, EntrySet(raw)) && Normalised(raw, cs)
  }

  /** x is an instruction of the function. */
  predicate Inside(c: Scope, visited: set<Address>, x: Address) {
    x in visited && x !in c.before
  }

  /** Control goes from x to the next instruction or, behind a branch, to a recorded successor. */
  ghost predicate Goes(c: Scope, x: Address, y: Address) {
    c.bin.Decodes(x) && if c.bin.decode(x).value.EndsBlock() then y in c.SuccessorsAfter(x) else y == c.bin.Next(x)
  }

  /** The path begins at the entry and goes through instructions of the function only. */
  ghost predicate StaysInside(c: Scope, visited: set<Address>, p: seq<Address>) {
    p != [] && p[0] == c.entry && forall k :: 0 <= k < |p| ==> Inside(c, visited, p[k])
  }

  /** A way of control from the entry that stays in the function. */
  ghost predicate IsControlPath(c: Scope, visited: set<Address>, p: seq<Address>) {
    StaysInside(c, visited, p) && forall k :: 0 <= k < |p| - 1 ==> Goes(c, p[k], p[k + 1])
  }

  /** The graph goes from x to y: to the next instruction of the block, or from the end of the block
      along an edge to the start of another one. */
  ghost predicate GraphGoes(bin: Binary, bs: seq<Block>, x: Address, y: Address) {
    var i, j := Lookup(bs, x), Lookup(bs, y);
    && i < |bs| && j < |bs| && bin.Decodes(x)
    && ((y == bin.Next(x) && y < bs[i].end)
        || (bin.Next(x) == bs[i].end && y in bs[i].succs && bs[j].start == y))
  }

  ghost predicate IsGraphPath(bin: Binary, bs: seq<Block>, p: seq<Address>) {
    && p != [] && Lookup(bs, p[0]) == 0 < |bs| && bs[0].start == p[0]
    && forall k :: 0 <= k < |p| - 1 ==> GraphGoes(bin, bs, p[k], p[k + 1])
  }

  // ----- Without abandoned blocks -----

  lemma HeldOnce(raw: seq<Block>, cs: seq<Block>, j: nat, x: Address) returns (i: nat)
    requires Separate(raw) && Refines(raw, cs, EntrySet(raw)) && j < |raw| && raw[j].Holds(x)
    ensures i == Lookup(cs, x) < |cs| && PieceOf(raw[j], cs[i], EntrySet(raw))
  {
    assert Covered(raw, x);
    assert Covered(cs, x);
    i := Lookup(cs, x);
    assert IsPiece(raw, cs[i], EntrySet(raw));
    hide Refines;
    var k :| 0 <= k < |raw| && PieceOf(raw[k], cs[i], EntrySet(raw));
    SameHolder(raw, j, k, x);
  }

  lemma LastOf(c: Scope, b: Block) returns (last: Address)
    requires Closed(c, b)
    ensures ClosedAt(c, b, last)
  {
    last :| ClosedAt(c, b, last);
  }

  /** An instruction of the function belongs to a closed block, and to a part of that in the graph. */
  lemma PlaceOf(c: Scope, visited: set<Address>, raw: seq<Block>, cs: seq<Block>, x: Address)
      returns (i: nat, j: nat, last: Address)
    requires Charted(c, visited, raw, cs) && !AnyAbandoned(raw) && Inside(c, visited, x)
    ensures i == Lookup(cs, x) < |cs| && j < |raw| && ClosedAt(c, raw[j], last)
    ensures x in Insns(c.bin, raw[j].start, raw[j].end) && PieceOf(raw[j], cs[i], EntrySet(raw))
  {
    hide NextsBehind, Closed, Own, NoOverlap, Refines, Normalised;
    assert Owned(c.bin, raw, x);
    j :| 0 <= j < |raw| && x in Own(c.bin, raw[j]);
    assert Closed(c, raw[j]);
    OwnHeld(c, raw[j], x);
    OwnOfClosed(c, raw[j]);
    LaidSeparate(c, visited, raw);
    i := HeldOnce(raw, cs, j, x);
    last := LastOf(c, raw[j]);
  }

  lemma {:induction false} NoneEnds(bin: Binary, lo: Address, hi: Address, x: Address)
    requires Straight(bin, lo, hi) && x in Insns(bin, lo, hi)
    ensures bin.Decodes(x) && !bin.decode(x).value.EndsBlock()
    decreases hi - lo
  {
    if x != lo {
      NoneEnds(bin, bin.Next(lo), hi, x);
    }
  }

  /** The part begins at an instruction, and ends at one or where the closed block ends. */
  lemma PartBounds(c: Scope, visited: set<Address>, raw: seq<Block>, cs: seq<Block>, i: nat, j: nat, last: Address,
                   x: Address)
    requires Charted(c, visited, raw, cs) && i < |cs| && j < |raw| && ClosedAt(c, raw[j], last)
    requires x in Insns(c.bin, raw[j].start, raw[j].end) && PieceOf(raw[j], cs[i], EntrySet(raw)) && cs[i].Holds(x)
    ensures c.bin.Decodes(x) && x < c.bin.Next(x) <= cs[i].end
    ensures c.bin.Next(x) == raw[j].end ==> x == last
    ensures x != last ==> !c.bin.decode(x).value.EndsBlock()
    ensures Straight(c.bin, cs[i].start, x)
    ensures Insns(c.bin, cs[i].start, c.bin.Next(x)) <= Insns(c.bin, raw[j].start, raw[j].end)
  {
    hide NextsBehind, NoOverlap, Refines, Normalised;
    var b := raw[j];
    StraightBounds(c.bin, b.start, last);
    StraightNext(c.bin, b.start, last);
    InsnsBounds(c.bin, b.start, b.end, x);
    PieceStart(c, visited, raw, j, last, cs[i]);
    StraightPart(c.bin, b.start, last, cs[i].start, x);
    if cs[i].end != b.end {
      EntryInside(c, visited, raw, j, last, cs[i].end);
      InsnsApart(c.bin, b.start, b.end, x, cs[i].end);
    }
    if x != last {
      OwnsLast(c.bin, b.start, last);
      InsnsApart(c.bin, b.start, b.end, x, last);
      NoneEnds(c.bin, b.start, last, x);
    }
  }

  /** The last instruction of the part. */
  lemma PartEnds(c: Scope, visited: set<Address>, raw: seq<Block>, cs: seq<Block>, i: nat, j: nat, last: Address)
      returns (z: Address)
    requires Charted(c, visited, raw, cs) && i < |cs| && j < |raw| && ClosedAt(c, raw[j], last)
    requires PieceOf(raw[j], cs[i], EntrySet(raw))
    ensures z in Insns(c.bin, raw[j].start, raw[j].end) && cs[i].Holds(z)
    ensures c.bin.Decodes(z) && c.bin.Next(z) == cs[i].end
  {
    hide NextsBehind, NoOverlap, Refines, Normalised;
    var b, part := raw[j], cs[i];
    ClosedNonEmpty(c, b, last);
    PieceStart(c, visited, raw, j, last, part);
    z := RunCovers(c.bin, b.start, last, part.end - 1);
    if part.end != b.end {
      EntryInside(c, visited, raw, j, last, part.end);
      InsnsApart(c.bin, b.start, b.end, z, part.end);
    } else {
      StraightBounds(c.bin, b.start, last);
      StraightNext(c.bin, b.start, last);
    }
    if z < part.start {
      InsnsApart(c.bin, b.start, b.end, z, part.start);
    }
  }

  /** A successor that is an instruction of the function is the start of its block. */
  lemma EntersAtStart(c: Scope, visited: set<Address>, raw: seq<Block>, cs: seq<Block>, i: nat, y: Address)
    requires Charted(c, visited, raw, cs) && !AnyAbandoned(raw) && Inside(c, visited, y)
    requires i < |cs| && y in cs[i].succs
    ensures Lookup(cs, y) < |cs| && cs[Lookup(cs, y)].start == y
  {
    hide Laid, NoOverlap, Refines;
    var k, _, _ := PlaceOf(c, visited, raw, cs, y);
    assert cs[k].Holds(y) && Covered(cs, y) && IsSuccessor(cs, y);
    LookupsAreStable(cs, y);
  }

  lemma GoesInGraph(c: Scope, visited: set<Address>, raw: seq<Block>, cs: seq<Block>, x: Address, y: Address)
    requires Charted(c, visited, raw, cs) && !AnyAbandoned(raw)
    requires Inside(c, visited, x) && Inside(c, visited, y) && Goes(c, x, y)
    ensures GraphGoes(c.bin, cs, x, y)
  {
    hide Charted, AnyAbandoned;
    var i, j, last := PlaceOf(c, visited, raw, cs, x);
    var k, jy, lasty := PlaceOf(c, visited, raw, cs, y);
    InsnsBounds(c.bin, raw[jy].start, raw[jy].end, y);
    PartBounds(c, visited, raw, cs, i, j, last, x);
    hide Straight, Insns;
    if y in cs[i].succs {
      EntersAtStart(c, visited, raw, cs, i, y);
    }
  }

  lemma FirstStart(c: Scope, visited: set<Address>, raw: seq<Block>, cs: seq<Block>)
    requires Charted(c, visited, raw, cs) && raw != []
    ensures |cs| >= |raw| && cs[0].start == c.entry
  {
    hide NextsBehind, NoOverlap, Closed;
    assert raw[0].start == c.entry;
  }

  lemma EntryIsFirst(c: Scope, visited: set<Address>, raw: seq<Block>, cs: seq<Block>)
    requires Charted(c, visited, raw, cs) && !AnyAbandoned(raw) && Inside(c, visited, c.entry)
    ensures Lookup(cs, c.entry) == 0 < |cs| && cs[0].start == c.entry
  {
    var i, j, last := PlaceOf(c, visited, raw, cs, c.entry);
    FirstStart(c, visited, raw, cs);
    hide Laid, NoOverlap, Refines;
    assert Separate(cs) && cs[i].Holds(c.entry);
  }

  lemma GraphGoesOn(c: Scope, visited: set<Address>, raw: seq<Block>, cs: seq<Block>, x: Address, y: Address)
    requires Charted(c, visited, raw, cs) && !AnyAbandoned(raw) && Inside(c, visited, x)
    requires GraphGoes(c.bin, cs, x, y)
    ensures Goes(c, x, y)
  {
    hide Charted, AnyAbandoned;
    var i, j, last := PlaceOf(c, visited, raw, cs, x);
    PartBounds(c, visited, raw, cs, i, j, last, x);
    hide Straight, Insns;
  }

  lemma GraphPathIsControl(c: Scope, visited: set<Address>, raw: seq<Block>, cs: seq<Block>, p: seq<Address>)
    requires Charted(c, visited, raw, cs) && !AnyAbandoned(raw)
    requires StaysInside(c, visited, p) && IsGraphPath(c.bin, cs, p)
    ensures IsControlPath(c, visited, p)
  {
    hide Charted, Goes, GraphGoes;
    forall k | 0 <= k < |p| - 1 ensures Goes(c, p[k], p[k + 1]) {
      GraphGoesOn(c, visited, raw, cs, p[k], p[k + 1]);
    }
  }

  lemma ControlPathInGraph(c: Scope, visited: set<Address>, raw: seq<Block>, cs: seq<Block>, p: seq<Address>)
    requires Charted(c, visited, raw, cs) && !AnyAbandoned(raw) && IsControlPath(c, visited, p)
    ensures IsGraphPath(c.bin, cs, p)
  {
    hide Charted, Goes, GraphGoes;
    EntryIsFirst(c, visited, raw, cs);
    forall k | 0 <= k < |p| - 1 ensures GraphGoes(c.bin, cs, p[k], p[k + 1]) {
      GoesInGraph(c, visited, raw, cs, p[k], p[k + 1]);
    }
  }

  // ----- With one -----

  lemma LeadsGoes(c: Scope, x: Address, y: Address)
    requires c.Leads(x, y)
    ensures Goes(c, x, y)
  {
  }

  lemma TrailFront(c: Scope, p: seq<Address>, x: Address, k: nat)
    requires c.IsTrail(p, x) && k < |p|
    ensures c.Reached(p[k])
  {
    var q := p[..k + 1];
    assert forall m :: 0 <= m < |q| ==> q[m] == p[m];
    forall m | 0 <= m < |q| - 1 ensures c.Leads(q[m], q[m + 1]) {
      assert c.Leads(p[m], p[m + 1]);
    }
    assert c.IsTrail(q, p[k]);
  }

  lemma TrailIsControlPath(c: Scope, visited: set<Address>, p: seq<Address>, x: Address)
    requires c.IsTrail(p, x) && forall y :: y in visited <==> y in c.before || c.Reached(y)
    ensures IsControlPath(c, visited, p)
  {
    hide Goes;
    forall k | 0 <= k < |p| ensures Inside(c, visited, p[k]) {
      TrailFront(c, p, x, k);
      assert c.Open(p[k]);
    }
    forall k | 0 <= k < |p| - 1 ensures Goes(c, p[k], p[k + 1]) {
      LeadsGoes(c, p[k], p[k + 1]);
    }
  }

  /** No block holds the start of an abandoned one. */
  lemma AbandonedUncovered(c: Scope, visited: set<Address>, raw: seq<Block>, cs: seq<Block>, i: nat)
    requires Charted(c, visited, raw, cs) && i < |raw| && Abandoned(raw[i])
    ensures Inside(c, visited, raw[i].start) && Lookup(cs, raw[i].start) == |cs|
  {
    var x := raw[i].start;
    assert x in Own(c.bin, raw[i]);
    LaidSeparate(c, visited, raw);
    hide Laid, NoOverlap;
    assert Covered(cs, x) <==> Covered(raw, x);
    hide Refines, Normalised, Own, EntrySet;
    assert !Covered(raw, x);
  }

  lemma LastInGraph(bin: Binary, cs: seq<Block>, p: seq<Address>)
    requires IsGraphPath(bin, cs, p)
    ensures Lookup(cs, p[|p| - 1]) < |cs|
  {
    if |p| > 1 {
      assert GraphGoes(bin, cs, p[|p| - 2], p[|p| - 2 + 1]);
    }
  }

  lemma AbandonedIsLost(c: Scope, visited: set<Address>, raw: seq<Block>, cs: seq<Block>, i: nat)
      returns (p: seq<Address>)
    requires Charted(c, visited, raw, cs) && i < |raw| && Abandoned(raw[i])
    ensures IsControlPath(c, visited, p) && p[|p| - 1] == raw[i].start && !IsGraphPath(c.bin, cs, p)
  {
    AbandonedUncovered(c, visited, raw, cs, i);
    var x := raw[i].start;
    assert c.Reached(x);
    hide Laid, NoOverlap, Refines, Normalised, IsGraphPath;
    p :| c.IsTrail(p, x);
    TrailIsControlPath(c, visited, p, x);
    if IsGraphPath(c.bin, cs, p) {
      LastInGraph(c.bin, cs, p);
    }
  }

  /** The paths of the graph are the ways of control in the function exactly if no block was
      abandoned. */
  lemma GraphIsControl(c: Scope, visited: set<Address>, raw: seq<Block>, cs: seq<Block>)
    requires Charted(c, visited, raw, cs)
    ensures (forall p :: StaysInside(c, visited, p) ==> (IsGraphPath(c.bin, cs, p) <==> IsControlPath(c, visited, p)))
            <==> !AnyAbandoned(raw)
  {
    hide Charted, IsGraphPath, StaysInside;
    if AnyAbandoned(raw) {
      var i :| 0 <= i < |raw| && Abandoned(raw[i]);
      var p := AbandonedIsLost(c, visited, raw, cs, i);
    } else {
      forall p | StaysInside(c, visited, p) ensures IsGraphPath(c.bin, cs, p) <==> IsControlPath(c, visited, p) {
        if IsControlPath(c, visited, p) {
          ControlPathInGraph(c, visited, raw, cs, p);
        } else if IsGraphPath(c.bin, cs, p) {
          GraphPathIsControl(c, visited, raw, cs, p);
        }
      }
    }
  }
}
