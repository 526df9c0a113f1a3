/** How the explorer's blocks lie over the decoded instructions: every closed block is a
    run of consecutive instructions with a branch or return only at its end, and no
    instruction belongs to two blocks. */
module Layout {
  import opened Blocks
  import opened ControlFlow
  import opened Image

  // ----- Runs of instructions -----

  /** From lo, decoded instructions that do not end a block follow one another up to hi. */
  ghost predicate Straight(bin: Binary, lo: Address, hi: Address)
    decreases hi - lo
  {
    lo == hi ||
    (lo < hi && bin.Decodes(lo) && bin.decode(lo).value.length > 0 && !bin.decode(lo).value.EndsBlock()
        && Straight(bin, bin.Next(lo), hi))
  }

  /** The addresses of the instructions that follow one another from lo, before hi. */
  ghost function Insns(bin: Binary, lo: Address, hi: Address): set<Address>
    decreases hi - lo
  {
    if lo < hi && bin.Decodes(lo) && bin.decode(lo).value.length > 0
    then {lo} + Insns(bin, bin.Next(lo), hi) else {}
  }

  lemma {:induction false} StraightBounds(bin: Binary, lo: Address, hi: Address)
    requires Straight(bin, lo, hi)
    ensures lo <= hi
    ensures forall a :: a in Insns(bin, lo, hi) ==> lo <= a < hi && bin.Decodes(a) && bin.Next(a) <= hi
    decreases hi - lo
  {
    if lo < hi {
      StraightBounds(bin, bin.Next(lo), hi);
    }
  }

  lemma {:induction false} InsnsBounds(bin: Binary, lo: Address, hi: Address, a: Address)
    requires a in Insns(bin, lo, hi)
    ensures lo <= a < hi && bin.Decodes(a) && a < bin.Next(a)
    decreases hi - lo
  {
    if a != lo {
      InsnsBounds(bin, bin.Next(lo), hi, a);
    }
  }

  /** Of two instructions of a run, the first ends before the second begins. */
  lemma {:induction false} InsnsApart(bin: Binary, lo: Address, hi: Address, a: Address, b: Address)
    requires a in Insns(bin, lo, hi) && b in Insns(bin, lo, hi) && a < b
    ensures bin.Decodes(a) && bin.Next(a) <= b
    decreases hi - lo
  {
    InsnsBounds(bin, lo, hi, a);
    if a == lo {
      InsnsBounds(bin, bin.Next(lo), hi, b);
    } else {
      InsnsApart(bin, bin.Next(lo), hi, a, b);
    }
  }

  lemma EndTogether(bin: Binary, lo: Address, hi: Address, x: Address, y: Address)
    requires x in Insns(bin, lo, hi) && y in Insns(bin, lo, hi) && bin.Decodes(x) && bin.Decodes(y)
    requires bin.Next(x) == bin.Next(y)
    ensures x == y
  {
    InsnsBounds(bin, lo, hi, x);
    InsnsBounds(bin, lo, hi, y);
    if x < y {
      InsnsApart(bin, lo, hi, x, y);
    } else if y < x {
      InsnsApart(bin, lo, hi, y, x);
    }
  }

  /** One more instruction at the end of a run. */
  lemma {:induction false} StraightNext(bin: Binary, lo: Address, last: Address)
    requires Straight(bin, lo, last) && bin.Decodes(last) && bin.decode(last).value.length > 0
    ensures Insns(bin, lo, bin.Next(last)) == Insns(bin, lo, last) + {last}
    ensures !bin.decode(last).value.EndsBlock() ==> Straight(bin, lo, bin.Next(last))
    decreases last - lo
  {
    StraightBounds(bin, lo, last);
    if lo < last {
      StraightBounds(bin, bin.Next(lo), last);
      StraightNext(bin, bin.Next(lo), last);
    } else {
      assert Insns(bin, bin.Next(last), bin.Next(last)) == {};
    }
  }

  /** Every byte of a run belongs to one of its instructions. */
  lemma {:induction false} RunCovers(bin: Binary, lo: Address, last: Address, x: Address) returns (a: Address)
    requires Straight(bin, lo, last) && bin.Decodes(last) && bin.decode(last).value.length > 0
    requires lo <= x < bin.Next(last)
    ensures a in Insns(bin, lo, bin.Next(last)) && bin.Decodes(a) && a <= x < bin.Next(a)
    decreases last - lo
  {
    StraightBounds(bin, lo, last);
    a := lo;
    if lo < last && x >= bin.Next(lo) {
      a := RunCovers(bin, bin.Next(lo), last, x);
    }
  }

  lemma OwnsLast(bin: Binary, lo: Address, last: Address)
    requires Straight(bin, lo, last) && bin.Decodes(last) && bin.decode(last).value.length > 0
    ensures last in Insns(bin, lo, bin.Next(last))
  {
    StraightNext(bin, lo, last);
  }

  lemma OwnsNext(bin: Binary, lo: Address, last: Address)
    requires Straight(bin, lo, last) && lo < last && bin.Decodes(last) && bin.decode(last).value.length > 0
    ensures bin.Next(lo) in Insns(bin, bin.Next(lo), bin.Next(last))
  {
    StraightBounds(bin, bin.Next(lo), last);
  }

  /** A part of a run, from one of its instructions to another. */
  lemma {:induction false} StraightPart(bin: Binary, lo: Address, last: Address, a: Address, x: Address)
    requires Straight(bin, lo, last) && bin.Decodes(last) && bin.decode(last).value.length > 0
    requires a in Insns(bin, lo, bin.Next(last)) && x in Insns(bin, lo, bin.Next(last)) && a <= x
    ensures Straight(bin, a, x) && bin.Decodes(x) && Insns(bin, a, bin.Next(x)) <= Insns(bin, lo, bin.Next(last))
    decreases last - lo, x - lo
  {
    StraightBounds(bin, lo, last);
    InsnsBounds(bin, lo, bin.Next(last), x);
    if lo < last {
      StraightBounds(bin, bin.Next(lo), last);
      if a != lo {
        InsnsBounds(bin, bin.Next(lo), bin.Next(last), a);
        StraightPart(bin, bin.Next(lo), last, a, x);
      } else if x != lo {
        OwnsNext(bin, lo, last);
        InsnsBounds(bin, bin.Next(lo), bin.Next(last), x);
        StraightPart(bin, bin.Next(lo), last, bin.Next(lo), x);
      } else {
        assert Insns(bin, bin.Next(lo), bin.Next(lo)) == {};
      }
    }
  }

  // ----- Blocks over runs -----

  /** b was closed after the instruction at last, which alone may end a block; if it does
      not, nothing decodes behind it. */
  ghost predicate ClosedAt(c: Scope, b: Block, last: Address) {
    && Straight(c.bin, b.start, last)
    && c.bin.Decodes(last) && c.bin.decode(last).value.length > 0
    && (c.bin.decode(last).value.EndsBlock()
        || (c.bin.IsWithinMapping(c.bin.Next(last)) && !c.bin.Decodes(c.bin.Next(last))))
    && b.end == c.bin.Next(last)
    && b.succs == c.SuccessorsAfter(last)
  }

  ghost predicate Closed(c: Scope, b: Block) {
    exists last :: ClosedAt(c, b, last)
  }

  /** The explorer left the block without closing it: it ran into a visited address or
      out of the mapping. */
  predicate Abandoned(b: Block) {
    b.end == 0 && b.succs == []
  }

  /** The instructions of a closed block; of an abandoned one only its first is known. */
  ghost function Own(bin: Binary, b: Block): set<Address> {
    if b.end == 0 then {b.start} else Insns(bin, b.start, b.end)
  }

  ghost predicate Owned(bin: Binary, bs: seq<Block>, x: Address) {
    exists i :: 0 <= i < |bs| && x in Own(bin, bs[i])
  }

  ghost predicate AnyAbandoned(bs: seq<Block>) {
    exists i :: 0 <= i < |bs| && Abandoned(bs[i])
  }

  /** Where the function ends: at the end of the block that was closed last, if any. */
  function LastEnd(entry: Address, bs: seq<Block>): Address {
    if bs == [] then entry
    else
      var b := bs[|bs| - 1];
      if Abandoned(b) then LastEnd(entry, bs[..|bs| - 1]) else b.end
  }

  lemma LastEndNext(entry: Address, bs: seq<Block>, b: Block)
    ensures LastEnd(entry, bs + [b]) == if Abandoned(b) then LastEnd(entry, bs) else b.end
  {
    assert (bs + [b])[..|bs|] == bs;
  }

  /** The blocks laid so far, beginning with that of the entry; open is the instructions of the block being decoded. */
  ghost predicate Laid(c: Scope, visited: set<Address>, bs: seq<Block>, open: set<Address>) {
    && (forall i :: 0 <= i < |bs| ==> (Closed(c, bs[i]) || Abandoned(bs[i])) && bs[i].preds == [])
    && (forall i, x :: 0 <= i < |bs| && x in Own(c.bin, bs[i]) ==> x in visited && x !in c.before && x !in open)
    && (forall x :: x in open ==> x in visited && x !in c.before)
    && (forall i, j :: 0 <= i < j < |bs| ==> Own(c.bin, bs[i]) !! Own(c.bin, bs[j]))
    && (bs != [] ==> bs[0].start == c.entry)
    && (NextsBehind(c) ==> !AnyAbandoned(bs))
    && (!AnyAbandoned(bs) ==> forall x :: x in visited && x !in c.before ==> x in open || Owned(c.bin, bs, x))
  }

  lemma LaidVisit(c: Scope, visited: set<Address>, bs: seq<Block>, open: set<Address>, a: Address)
    requires Laid(c, visited, bs, open) && a !in visited && a !in c.before
    ensures Laid(c, visited + {a}, bs, open + {a})
  {
  }

  lemma LaidClose(c: Scope, visited: set<Address>, bs: seq<Block>, open: set<Address>, b: Block, last: Address)
    requires Laid(c, visited, bs, open) && ClosedAt(c, b, last) && b.preds == []
    requires open == Insns(c.bin, b.start, b.end) && (bs == [] ==> b.start == c.entry)
    ensures Laid(c, visited, bs + [b], {})
  {
    hide NextsBehind;
    var cs := bs + [b];
    StraightBounds(c.bin, b.start, last);
    assert Own(c.bin, b) == open;
    assert forall i :: 0 <= i < |bs| ==> cs[i] == bs[i];
    assert !AnyAbandoned(cs) ==> !AnyAbandoned(bs) by {
      if i :| 0 <= i < |bs| && Abandoned(bs[i]) {
        assert Abandoned(cs[i]);
      }
    }
    forall x | x in visited && x !in c.before && !AnyAbandoned(cs) ensures Owned(c.bin, cs, x) {
      if x in open {
        assert x in Own(c.bin, cs[|bs|]);
      } else {
        var i :| 0 <= i < |bs| && x in Own(c.bin, bs[i]);
        assert x in Own(c.bin, cs[i]);
      }
    }
  }

  lemma LaidAbandon(c: Scope, visited: set<Address>, bs: seq<Block>, open: set<Address>, b: Block)
    requires Laid(c, visited, bs, open) && Abandoned(b) && b.start in open && b.preds == [] && !NextsBehind(c)
    requires bs == [] ==> b.start == c.entry
    ensures Laid(c, visited, bs + [b], {})
  {
    hide NextsBehind;
    var cs := bs + [b];
    assert forall i :: 0 <= i < |bs| ==> cs[i] == bs[i];
    assert Abandoned(cs[|bs|]);
  }

  /** No later block than the one whose end this is was closed; if none was, it is the entry. */
  lemma {:induction false} LastEndExact(entry: Address, bs: seq<Block>)
    ensures if exists i :: 0 <= i < |bs| && !Abandoned(bs[i])
            then exists i :: 0 <= i < |bs| && !Abandoned(bs[i]) && LastEnd(entry, bs) == bs[i].end
                             && forall j :: i < j < |bs| ==> Abandoned(bs[j])
            else LastEnd(entry, bs) == entry
    decreases |bs|
  {
    if bs != [] && Abandoned(bs[|bs| - 1]) {
      var front := bs[..|bs| - 1];
      LastEndExact(entry, front);
      if i :| 0 <= i < |bs| && !Abandoned(bs[i]) {
        assert front[i] == bs[i];
        var k :| 0 <= k < |front| && !Abandoned(front[k]) && LastEnd(entry, front) == front[k].end
                 && forall j :: k < j < |front| ==> Abandoned(front[j]);
        assert bs[k] == front[k] && forall j :: k < j < |front| ==> bs[j] == front[j];
      } else {
        assert forall i :: 0 <= i < |front| ==> front[i] == bs[i];
      }
    }
  }

  // ----- Consequences -----

  /** What a block records behind a branch or return is what the explorer follows, and the
      targets of jumps into functions that are already recorded, but for a leading one. */
  lemma SuccessorsAreFollowed(c: Scope, last: Address, y: Address)
    requires c.bin.Valid() && c.bin.Decodes(last) && c.bin.decode(last).value.EndsBlock()
    ensures y in c.SuccessorsAfter(last) <==>
            c.Leads(last, y)
            || (c.bin.decode(last).value.category.UncondBranch? && last != c.entry && GoesTo(c.bin, last, y)
                && InRecorded(c.known, y))
  {
    CodeTargetGoesTo(c.bin, last, y);
    hide GoesTo, InRecorded;
  }

  /** No two of these instructions share a byte. */
  ghost predicate NoOverlap(bin: Binary, insns: set<Address>) {
    forall a, b :: a in insns && b in insns && a < b ==> bin.Decodes(a) && bin.Next(a) <= b
  }

  lemma ClosedOwnsStart(c: Scope, b: Block)
    requires Closed(c, b) || Abandoned(b)
    ensures b.start in Own(c.bin, b)
  {
    if !Abandoned(b) {
      var last :| ClosedAt(c, b, last);
      StraightBounds(c.bin, b.start, last);
    }
  }

  /** A byte of a laid block belongs to an instruction of the block. */
  lemma HeldByOwn(c: Scope, b: Block, x: Address) returns (a: Address)
    requires Closed(c, b) || Abandoned(b)
    requires b.Holds(x)
    ensures a in Own(c.bin, b) && c.bin.Decodes(a) && a <= x < c.bin.Next(a)
  {
    var last :| ClosedAt(c, b, last);
    a := RunCovers(c.bin, b.start, last, x);
  }

  /** The bytes of an instruction of a closed block belong to the block. */
  lemma OwnHeld(c: Scope, b: Block, x: Address)
    requires Closed(c, b) && x in Own(c.bin, b)
    ensures b.Holds(x)
  {
    var last :| ClosedAt(c, b, last);
    StraightBounds(c.bin, b.start, last);
    StraightNext(c.bin, b.start, last);
  }

  lemma OwnDistinct(c: Scope, visited: set<Address>, bs: seq<Block>, i: nat, j: nat, a: Address, b: Address)
    requires Laid(c, visited, bs, {}) && NoOverlap(c.bin, visited - c.before)
    requires i < |bs| && j < |bs| && i != j && a in Own(c.bin, bs[i]) && b in Own(c.bin, bs[j])
    ensures a != b && (a < b ==> c.bin.Decodes(a) && c.bin.Next(a) <= b)
  {
    hide NextsBehind, Closed;
    assert a in visited - c.before && b in visited - c.before;
    assert Own(c.bin, bs[i]) !! Own(c.bin, bs[j]);
  }

  /** If decoded instructions do not overlap, the blocks are separate, as normalisation
      wants them. */
  lemma LaidSeparate(c: Scope, visited: set<Address>, bs: seq<Block>)
    requires Laid(c, visited, bs, {}) && NoOverlap(c.bin, visited - c.before)
    ensures Separate(bs)
  {
    forall i, j | 0 <= i < |bs| && 0 <= j < |bs| && i != j
      ensures bs[i].start != bs[j].start && !bs[i].Holds(bs[j].start)
    {
      var x := bs[j].start;
      ClosedOwnsStart(c, bs[i]);
      ClosedOwnsStart(c, bs[j]);
      assert Own(c.bin, bs[i]) !! Own(c.bin, bs[j]);
      if bs[i].Holds(x) {
        var a := HeldByOwn(c, bs[i], x);
        OwnDistinct(c, visited, bs, i, j, a, x);
      }
    }
  }

  lemma LaidWellFormed(c: Scope, visited: set<Address>, bs: seq<Block>)
    requires Laid(c, visited, bs, {})
    ensures WellFormed(bs) && PredsSound(bs)
  {
    forall i | 0 <= i < |bs| && bs[i].succs != [] ensures bs[i].start < bs[i].end {
      var last :| ClosedAt(c, bs[i], last);
      StraightBounds(c.bin, bs[i].start, last);
    }
  }

  /** If besides no block has two starts or successors strictly inside it, normalisation will leave no
      recorded predecessor without an edge. */
  lemma LaidTidy(c: Scope, visited: set<Address>, bs: seq<Block>)
    requires Laid(c, visited, bs, {}) && NoOverlap(c.bin, visited - c.before)
    ensures Tidy(bs, EntrySet(bs)) <==> forall i :: 0 <= i < |bs| ==> OneInside(bs[i], EntrySet(bs))
  {
    LaidSeparate(c, visited, bs);
  }

  /** Behind an instruction of a run comes the next one, or the end of the run. */
  lemma {:induction false} InsnsNext(bin: Binary, lo: Address, last: Address, x: Address)
    requires Straight(bin, lo, last) && bin.Decodes(last) && bin.decode(last).value.length > 0
    requires x in Insns(bin, lo, bin.Next(last)) && x != last
    ensures bin.Decodes(x) && bin.Next(x) in Insns(bin, lo, bin.Next(last))
    decreases last - lo
  {
    StraightBounds(bin, lo, last);
    if lo < last {
      StraightBounds(bin, bin.Next(lo), last);
      if x != lo {
        InsnsNext(bin, bin.Next(lo), last, x);
      }
    }
  }

  /** Cutting a closed block at one of its instructions leaves a block that is closed at the
      same place. */
  lemma {:induction false} TailClosed(c: Scope, b: Block, last: Address, a: Address)
    requires ClosedAt(c, b, last) && a in Insns(c.bin, b.start, b.end)
    ensures ClosedAt(c, Tail(b, a), last)
    decreases last - b.start
  {
    StraightBounds(c.bin, b.start, last);
    if b.start < last {
      StraightBounds(c.bin, c.bin.Next(b.start), last);
      if a != b.start {
        TailClosed(c, b.(start := c.bin.Next(b.start)), last, a);
      }
    } else {
      assert Insns(c.bin, c.bin.Next(last), c.bin.Next(last)) == {};
    }
  }

  // ----- After normalisation -----

  /** Every recorded successor that lies inside a block is one of these instructions. */
  ghost predicate EntriesAmong(raw: seq<Block>, insns: set<Address>) {
    forall x :: IsSuccessor(raw, x) && IsStraddled(raw, x) ==> x in insns
  }

  /** A visited address inside a closed block is one of its instructions. */
  lemma VisitedInside(c: Scope, visited: set<Address>, raw: seq<Block>, j: nat, last: Address, a: Address)
    requires Laid(c, visited, raw, {}) && NoOverlap(c.bin, visited - c.before)
    requires j < |raw| && ClosedAt(c, raw[j], last) && raw[j].Holds(a) && a in visited - c.before
    ensures a in Insns(c.bin, raw[j].start, raw[j].end)
  {
    hide NextsBehind;
    var x := HeldByOwn(c, raw[j], a);
    assert x in Own(c.bin, raw[j]) && x in visited - c.before;
  }

  lemma ClosedNonEmpty(c: Scope, b: Block, last: Address)
    requires ClosedAt(c, b, last)
    ensures b.start <= last < b.end
  {
    StraightBounds(c.bin, b.start, last);
  }

  lemma OwnsFirst(c: Scope, b: Block, last: Address)
    requires ClosedAt(c, b, last)
    ensures b.start in Insns(c.bin, b.start, b.end)
  {
    StraightBounds(c.bin, b.start, last);
  }

  /** Where a closed block may be cut is at one of its instructions. */
  lemma EntryInside(c: Scope, visited: set<Address>, raw: seq<Block>, j: nat, last: Address, a: Address)
    requires Laid(c, visited, raw, {}) && NoOverlap(c.bin, visited - c.before)
    requires EntriesAmong(raw, visited - c.before)
    requires j < |raw| && ClosedAt(c, raw[j], last) && raw[j].Straddles(a) && a in EntrySet(raw)
    ensures a in Insns(c.bin, raw[j].start, raw[j].end)
  {
    hide NextsBehind, NoOverlap, ClosedAt;
    assert IsStraddled(raw, a);
    var i :| 0 <= i < |raw| && (raw[i].start == a || a in raw[i].succs);
    assert IsSuccessor(raw, a) || raw[i].start == a;
    if raw[i].start == a {
      ClosedOwnsStart(c, raw[i]);
      assert a in Own(c.bin, raw[i]);
    }
    VisitedInside(c, visited, raw, j, last, a);
  }

  lemma PieceStart(c: Scope, visited: set<Address>, raw: seq<Block>, j: nat, last: Address, piece: Block)
    requires Laid(c, visited, raw, {}) && NoOverlap(c.bin, visited - c.before)
    requires EntriesAmong(raw, visited - c.before)
    requires j < |raw| && ClosedAt(c, raw[j], last) && PieceOf(raw[j], piece, EntrySet(raw))
    ensures piece.start in Insns(c.bin, raw[j].start, raw[j].end)
  {
    hide Laid, NoOverlap, EntriesAmong, ClosedAt;
    if piece.start == raw[j].start {
      OwnsFirst(c, raw[j], last);
    } else {
      EntryInside(c, visited, raw, j, last, piece.start);
    }
  }

  lemma SamePlace(c: Scope, b: Block, piece: Block, last: Address)
    requires ClosedAt(c, b, last) && b.SameShape(piece)
    ensures ClosedAt(c, piece, last)
  {
  }

  /** A part of a closed block that ends where the block ends is closed at the same place. */
  lemma PieceClosed(c: Scope, visited: set<Address>, raw: seq<Block>, j: nat, last: Address, piece: Block)
    requires Laid(c, visited, raw, {}) && NoOverlap(c.bin, visited - c.before)
    requires EntriesAmong(raw, visited - c.before)
    requires j < |raw| && ClosedAt(c, raw[j], last)
    requires PieceOf(raw[j], piece, EntrySet(raw)) && piece.end == raw[j].end
    ensures ClosedAt(c, piece, last)
  {
    hide NextsBehind, NoOverlap, ClosedAt;
    PieceStart(c, visited, raw, j, last, piece);
    TailClosed(c, raw[j], last, piece.start);
    SamePlace(c, Tail(raw[j], piece.start), piece, last);
  }

  lemma {:induction false} InsnsWithin(bin: Binary, lo: Address, last: Address, a: Address)
    requires Straight(bin, lo, last) && bin.Decodes(last) && bin.decode(last).value.length > 0
    requires a in Insns(bin, lo, bin.Next(last))
    ensures Insns(bin, a, bin.Next(last)) <= Insns(bin, lo, bin.Next(last))
    decreases last - lo
  {
    StraightBounds(bin, lo, last);
    if lo < last && a != lo {
      InsnsWithin(bin, bin.Next(lo), last, a);
    }
  }

  /** The instructions of such a part were visited. */
  lemma PieceInsns(c: Scope, visited: set<Address>, raw: seq<Block>, j: nat, last: Address, piece: Block, a: Address)
    requires Laid(c, visited, raw, {}) && NoOverlap(c.bin, visited - c.before)
    requires EntriesAmong(raw, visited - c.before)
    requires j < |raw| && ClosedAt(c, raw[j], last)
    requires PieceOf(raw[j], piece, EntrySet(raw)) && piece.end == raw[j].end
    requires a in Insns(c.bin, piece.start, piece.end)
    ensures a in visited - c.before
  {
    hide NextsBehind, NoOverlap;
    PieceStart(c, visited, raw, j, last, piece);
    InsnsWithin(c.bin, raw[j].start, last, piece.start);
    ClosedNonEmpty(c, raw[j], last);
    assert a in Own(c.bin, raw[j]);
  }

  /** Every block that ends where a closed block of raw ends is closed at the same place. */
  ghost predicate TailsClosed(c: Scope, raw: seq<Block>, cs: seq<Block>) {
    forall i, j, last :: 0 <= i < |cs| && 0 <= j < |raw| && ClosedAt(c, raw[j], last) && cs[i].end == raw[j].end
      ==> ClosedAt(c, cs[i], last)
  }

  lemma LaidEnds(c: Scope, visited: set<Address>, raw: seq<Block>, k: nat)
    requires Laid(c, visited, raw, {}) && k < |raw|
    ensures raw[k].end == 0 || raw[k].start < raw[k].end
  {
    if last :| ClosedAt(c, raw[k], last) {
      ClosedNonEmpty(c, raw[k], last);
    }
  }

  /** What ends where a closed block ends is a part of that block. */
  lemma OnePiece(c: Scope, visited: set<Address>, raw: seq<Block>, cs: seq<Block>, i: nat, j: nat, last: Address)
    requires Laid(c, visited, raw, {}) && Separate(raw) && Refines(raw, cs, EntrySet(raw))
    requires i < |cs| && j < |raw| && ClosedAt(c, raw[j], last) && cs[i].end == raw[j].end
    ensures PieceOf(raw[j], cs[i], EntrySet(raw))
  {
    hide ClosedAt, Laid, SameFlow, SameBytes, Separate, WellFormed, EntriesIn, CutCount;
    ClosedNonEmpty(c, raw[j], last);
    assert IsPiece(raw, cs[i], EntrySet(raw));
    hide Refines;
    var k :| 0 <= k < |raw| && PieceOf(raw[k], cs[i], EntrySet(raw));
    LaidEnds(c, visited, raw, k);
    SameHolder(raw, j, k, raw[j].end - 1);
  }

  /** Normalisation leaves such blocks, if decoded instructions do not overlap and no successor
      leads into the middle of one. */
  lemma NormalisedTails(c: Scope, visited: set<Address>, raw: seq<Block>, cs: seq<Block>)
    requires Laid(c, visited, raw, {}) && NoOverlap(c.bin, visited - c.before)
    requires EntriesAmong(raw, visited - c.before) && Refines(raw, cs, EntrySet(raw))
    ensures TailsClosed(c, raw, cs)
  {
    LaidSeparate(c, visited, raw);
    forall i, j, last | 0 <= i < |cs| && 0 <= j < |raw| && ClosedAt(c, raw[j], last) && cs[i].end == raw[j].end
      ensures ClosedAt(c, cs[i], last)
    {
      OnePiece(c, visited, raw, cs, i, j, last);
      PieceClosed(c, visited, raw, j, last, cs[i]);
    }
  }

  /** And there is one. */
  lemma TailExists(c: Scope, raw: seq<Block>, cs: seq<Block>, j: nat, last: Address) returns (i: nat)
    requires Separate(raw) && Refines(raw, cs, EntrySet(raw))
    requires j < |raw| && ClosedAt(c, raw[j], last)
    ensures i < |cs| && cs[i].end == raw[j].end
  {
    ClosedNonEmpty(c, raw[j], last);
    hide ClosedAt;
    var x := raw[j].end - 1;
    assert raw[j].Holds(x);
    assert Covered(raw, x);
    assert Covered(cs, x);
    i :| 0 <= i < |cs| && cs[i].Holds(x);
    assert IsPiece(raw, cs[i], EntrySet(raw));
    hide Refines;
    var k :| 0 <= k < |raw| && PieceOf(raw[k], cs[i], EntrySet(raw));
    SameHolder(raw, j, k, x);
  }

  // ----- The range of the function -----

  ghost predicate RangeCovers(entry: Address, end: Address, bs: seq<Block>) {
    forall x: Address :: Covered(bs, x) ==> entry <= x < end
  }

  /** The range from the entry to the end of the block closed last holds all blocks exactly if no
      closed block begins before the entry or ends behind that one. */
  lemma RangeExact(c: Scope, visited: set<Address>, raw: seq<Block>)
    requires Laid(c, visited, raw, {})
    ensures RangeCovers(c.entry, LastEnd(c.entry, raw), raw) <==>
            forall i :: 0 <= i < |raw| && !Abandoned(raw[i]) ==>
              c.entry <= raw[i].start && raw[i].end <= LastEnd(c.entry, raw)
  {
    hide LastEnd;
    var end := LastEnd(c.entry, raw);
    if RangeCovers(c.entry, end, raw) {
      forall i | 0 <= i < |raw| && !Abandoned(raw[i]) ensures c.entry <= raw[i].start && raw[i].end <= end {
        var last :| ClosedAt(c, raw[i], last);
        ClosedNonEmpty(c, raw[i], last);
        assert raw[i].Holds(raw[i].start) && raw[i].Holds(raw[i].end - 1);
        assert Covered(raw, raw[i].start) && Covered(raw, raw[i].end - 1);
      }
    } else {
      var x: Address :| Covered(raw, x) && !(c.entry <= x < end);
      var i :| 0 <= i < |raw| && raw[i].Holds(x);
    }
  }

  // ----- What is left out of the closed blocks -----

  /** The closed blocks hold every visited instruction. */
  ghost predicate AllInClosed(c: Scope, visited: set<Address>, bs: seq<Block>) {
    forall x :: x in visited && x !in c.before
      ==> exists i :: 0 <= i < |bs| && !Abandoned(bs[i]) && x in Own(c.bin, bs[i])
  }

  lemma AllInClosedIs(c: Scope, visited: set<Address>, bs: seq<Block>)
    requires Laid(c, visited, bs, {})
    ensures AllInClosed(c, visited, bs) <==> !AnyAbandoned(bs)
  {
    if i :| 0 <= i < |bs| && Abandoned(bs[i]) {
      var x := bs[i].start;
      assert x in Own(c.bin, bs[i]) && x in visited && x !in c.before;
      forall j | 0 <= j < |bs| && !Abandoned(bs[j]) ensures x !in Own(c.bin, bs[j]) {
        assert Own(c.bin, bs[i]) !! Own(c.bin, bs[j]);
      }
    } else {
      forall x | x in visited && x !in c.before
        ensures exists i :: 0 <= i < |bs| && !Abandoned(bs[i]) && x in Own(c.bin, bs[i])
      {
        assert Owned(c.bin, bs, x);
      }
    }
  }

  ghost predicate VisitedReached(c: Scope, visited: set<Address>) {
    && (forall x :: x in visited <==> x in c.before || c.Reached(x))
    && (forall x :: x in c.before ==> c.bin.Decodes(x))
  }

  lemma ReachedIsOpen(c: Scope, x: Address)
    requires c.Reached(x)
    ensures c.Open(x)
  {
    var p :| c.IsTrail(p, x);
    assert c.Open(p[|p| - 1]);
  }

  /** Behind an instruction of a closed block that does not end it comes a mapped address: the
      next instruction of the block, or one where nothing decodes. */
  lemma NextInBlock(c: Scope, b: Block, x: Address)
    requires Closed(c, b) && x in Own(c.bin, b) && c.bin.Decodes(x) && !c.bin.decode(x).value.EndsBlock()
    ensures c.bin.Next(x) in Own(c.bin, b) || (c.bin.IsWithinMapping(c.bin.Next(x)) && !c.bin.Decodes(c.bin.Next(x)))
  {
    var last :| ClosedAt(c, b, last);
    StraightBounds(c.bin, b.start, last);
    if x != last {
      InsnsNext(c.bin, b.start, last, x);
    }
  }

  lemma OwnOfClosed(c: Scope, b: Block)
    requires Closed(c, b)
    ensures Own(c.bin, b) == Insns(c.bin, b.start, b.end)
  {
    var last :| ClosedAt(c, b, last);
    ClosedNonEmpty(c, b, last);
  }

  /** Where no block is abandoned, the instruction behind one that does not end a block is in the
      same block. */
  lemma NextInSame(c: Scope, visited: set<Address>, bs: seq<Block>, x: Address) returns (i: nat)
    requires Laid(c, visited, bs, {}) && VisitedReached(c, visited) && !AnyAbandoned(bs)
    requires RunsPast(c, x)
    ensures i < |bs| && Closed(c, bs[i]) && x in Own(c.bin, bs[i])
    ensures c.bin.Next(x) in Own(c.bin, bs[i])
            || (c.bin.IsWithinMapping(c.bin.Next(x)) && !c.bin.Decodes(c.bin.Next(x)))
  {
    hide NextsBehind, Closed, Own;
    ReachedIsOpen(c, x);
    assert Owned(c.bin, bs, x);
    i :| 0 <= i < |bs| && x in Own(c.bin, bs[i]);
    assert Closed(c, bs[i]);
    NextInBlock(c, bs[i], x);
  }

  lemma SameOwner(c: Scope, visited: set<Address>, bs: seq<Block>, i: nat, j: nat, x: Address)
    requires Laid(c, visited, bs, {}) && i < |bs| && j < |bs| && x in Own(c.bin, bs[i]) && x in Own(c.bin, bs[j])
    ensures i == j
  {
    hide NextsBehind, Closed, Own;
  }

  lemma NextIsOpen(c: Scope, visited: set<Address>, bs: seq<Block>, x: Address)
    requires Laid(c, visited, bs, {}) && VisitedReached(c, visited) && !AnyAbandoned(bs)
    requires RunsPast(c, x)
    ensures c.bin.IsWithinMapping(c.bin.Next(x)) && c.bin.Next(x) !in c.before
  {
    var i := NextInSame(c, visited, bs, x);
    hide NextsBehind, Closed, Own;
    if c.bin.Next(x) in Own(c.bin, bs[i]) {
      ReachedIsOpen(c, c.bin.Next(x));
    }
  }

  lemma NextIsNotEntry(c: Scope, visited: set<Address>, bs: seq<Block>, x: Address)
    requires Laid(c, visited, bs, {}) && VisitedReached(c, visited) && !AnyAbandoned(bs)
    requires RunsPast(c, x) && c.bin.Decodes(c.bin.Next(x))
    ensures c.bin.Next(x) != c.entry
  {
    var i := NextInSame(c, visited, bs, x);
    OwnOfClosed(c, bs[i]);
    hide NextsBehind, Own;
    InsnsBounds(c.bin, bs[i].start, bs[i].end, x);
    if c.bin.Next(x) == c.entry {
      ClosedOwnsStart(c, bs[0]);
      SameOwner(c, visited, bs, 0, i, c.entry);
    }
  }

  lemma NextIsSingle(c: Scope, visited: set<Address>, bs: seq<Block>, x: Address, y: Address)
    requires Laid(c, visited, bs, {}) && VisitedReached(c, visited) && !AnyAbandoned(bs)
    requires RunsPast(c, x) && c.bin.Decodes(c.bin.Next(x))
    requires RunsPast(c, y)
    requires c.bin.Next(y) == c.bin.Next(x)
    ensures y == x
  {
    var i := NextInSame(c, visited, bs, x);
    var j := NextInSame(c, visited, bs, y);
    SameOwner(c, visited, bs, i, j, c.bin.Next(x));
    OwnOfClosed(c, bs[i]);
    EndTogether(c.bin, bs[i].start, bs[i].end, x, y);
  }

  /** Whether the closed blocks will hold every visited instruction can be told from the image.
      They do only if every reached instruction that does not end a block has a next address that is
      mapped, was not visited before, is not the entry, and is behind no other such instruction.
      They do if, besides, every way from the entry to the next address leads through the
      instruction. In between, where a jump from elsewhere leads there, it depends on the order of
      visits. */
  lemma LaidComplete(c: Scope, visited: set<Address>, bs: seq<Block>)
    requires Laid(c, visited, bs, {}) && VisitedReached(c, visited)
    ensures AllInClosed(c, visited, bs) ==> NextsSingle(c)
    ensures NextsBehind(c) ==> AllInClosed(c, visited, bs)
  {
    AllInClosedIs(c, visited, bs);
    if !AnyAbandoned(bs) {
      hide Laid, NextsBehind;
      forall x | RunsPast(c, x) ensures c.bin.IsWithinMapping(c.bin.Next(x)) && c.bin.Next(x) !in c.before {
        NextIsOpen(c, visited, bs, x);
      }
      forall x | RunsPast(c, x) && c.bin.Decodes(c.bin.Next(x)) ensures c.bin.Next(x) != c.entry {
        NextIsNotEntry(c, visited, bs, x);
      }
      forall x, y | RunsPast(c, x) && RunsPast(c, y) && c.bin.Decodes(c.bin.Next(x)) && c.bin.Next(y) == c.bin.Next(x)
        ensures y == x
      {
        NextIsSingle(c, visited, bs, x, y);
      }
    }
  }

  // ----- The range, seen from the image -----

  /** The instructions of a closed block lie between its bounds, and some begin and end there. */
  lemma ClosedBounds(c: Scope, b: Block) returns (last: Address)
    requires Closed(c, b)
    ensures forall x :: x in Own(c.bin, b) ==> c.bin.Decodes(x) && b.start <= x && c.bin.Next(x) <= b.end
    ensures b.start in Own(c.bin, b) && last in Own(c.bin, b) && c.bin.Decodes(last) && c.bin.Next(last) == b.end
  {
    last :| ClosedAt(c, b, last);
    OwnOfClosed(c, b);
    OwnsFirst(c, b, last);
    StraightBounds(c.bin, b.start, last);
    StraightNext(c.bin, b.start, last);
    OwnsLast(c.bin, b.start, last);
  }

  /** Without abandoned blocks the function's range holds its blocks exactly if no reached instruction
      begins in front of the entry or ends behind the block that was closed last. */
  lemma RangeByReach(c: Scope, visited: set<Address>, raw: seq<Block>)
    requires Laid(c, visited, raw, {}) && (forall x :: x in visited <==> x in c.before || c.Reached(x))
    requires !AnyAbandoned(raw)
    ensures RangeCovers(c.entry, LastEnd(c.entry, raw), raw) <==>
            forall x :: c.Reached(x) ==>
              c.bin.Decodes(x) && c.entry <= x && c.bin.Next(x) <= LastEnd(c.entry, raw)
  {
    hide LastEnd, NextsBehind, Closed, Own, RangeCovers;
    RangeExact(c, visited, raw);
    var end := LastEnd(c.entry, raw);
    if RangeCovers(c.entry, end, raw) {
      forall x | c.Reached(x) ensures c.bin.Decodes(x) && c.entry <= x && c.bin.Next(x) <= end {
        ReachedIsOpen(c, x);
        assert Owned(c.bin, raw, x);
        var i :| 0 <= i < |raw| && x in Own(c.bin, raw[i]);
        assert Closed(c, raw[i]);
        var last := ClosedBounds(c, raw[i]);
      }
    } else {
      var i :| 0 <= i < |raw| && !Abandoned(raw[i]) && !(c.entry <= raw[i].start && raw[i].end <= end);
      assert Closed(c, raw[i]);
      var last := ClosedBounds(c, raw[i]);
      assert c.Reached(raw[i].start) && c.Reached(last);
    }
  }
}
