/** One run of recursive descent, step by step: what each way of treating the current
    address does to the set of visited addresses, the work list and the blocks. */
module Descent {
  import opened Blocks
  import opened Image
  import opened Layout
  import opened Options

  ghost function Elements(s: seq<Address>): set<Address> {
    set a | a in s
  }

  /** What a branch at x puts on the work list. */
  function Pushed(c: Scope, visited: set<Address>, x: Address): seq<Address>
    requires c.bin.Decodes(x)
  {
    var t := c.bin.CodeTarget(x);
    if t.None? || t.value in visited then []
    else match c.bin.decode(x).value.category
      case CondBranch => [t.value]
      case UncondBranch => if InRecorded(c.known, t.value) then [] else [t.value]
      case _ => []
  }

  /** The call site that a branch at x records: a jump into a recorded function, or one
      whose target is not known. */
  function JumpSite(c: Scope, x: Address): Option<Address>
    requires c.bin.Decodes(x)
  {
    var insn, t := c.bin.decode(x).value, c.bin.CodeTarget(x);
    match insn.Op(0)
    case ImmOp(_) => if insn.category.UncondBranch? && t.Some? && InRecorded(c.known, t.value) then t else None
    case Unused => None
    case _ => Some(0)
  }

  /** A call site takes the place of the unresolved entry of its instruction. */
  function WithSite(sites: set<(Address, Address)>, x: Address, target: Option<Address>): set<(Address, Address)> {
    if target.None? then sites else sites - {(x, 0)} + {(x, target.value)}
  }

  /** The state at the head of the inner loop: pc is the current address; if a block is
      being decoded, it began at start and its last instruction so far is at last. */
  ghost predicate Running(c: Scope, visited: set<Address>, work: seq<Address>, bs: seq<Block>, pc: Address,
      start: Option<Address>, last: Address) {
    && Explored(c, visited, Elements(work) + {pc})
    && Laid(c, visited, bs, if start.Some? then Insns(c.bin, start.value, pc) else {})
    && (start.Some? && bs == [] ==> start.value == c.entry)
    && (start.Some? ==>
          && Straight(c.bin, start.value, last) && Straight(c.bin, start.value, pc)
          && c.bin.Decodes(last) && pc == c.bin.Next(last) && start.value <= last < pc
          && !c.bin.decode(last).value.EndsBlock()
          && (NextsBehind(c) ==> pc !in visited && c.bin.IsWithinMapping(pc)))
  }

  /** The state between two runs. */
  ghost predicate Rested(c: Scope, visited: set<Address>, work: seq<Address>, bs: seq<Block>) {
    Explored(c, visited, Elements(work)) && Laid(c, visited, bs, {})
  }

  lemma DropPending(c: Scope, visited: set<Address>, work: seq<Address>, pc: Address)
    requires Explored(c, visited, Elements(work) + {pc}) && (pc in visited || !c.Open(pc))
    ensures Explored(c, visited, Elements(work))
  {
    hide Justified;
    ExploredDrop(c, visited, Elements(work) + {pc}, pc);
    if pc in work {
      assert Elements(work) + {pc} == Elements(work);
    } else {
      assert Elements(work) + {pc} - {pc} == Elements(work);
    }
  }

  lemma RunBegins(c: Scope, visited: set<Address>, work: seq<Address>, bs: seq<Block>)
    requires Rested(c, visited, work, bs) && work != []
    ensures Running(c, visited, work[1..], bs, work[0], None, 0)
    ensures work[0] in visited ==> Rested(c, visited, work[1..], bs)
  {
    hide NextsBehind;
    assert Elements(work) == Elements(work[1..]) + {work[0]};
    if work[0] in visited {
      DropPending(c, visited, work[1..], work[0]);
    }
  }

  /** The address was visited, or is not mapped: the block is left as it is. */
  lemma RunAbandons(c: Scope, visited: set<Address>, work: seq<Address>, bs: seq<Block>, pc: Address,
      start: Option<Address>, last: Address)
    requires Running(c, visited, work, bs, pc, start, last)
    requires pc in visited || !c.bin.IsWithinMapping(pc)
    ensures start.None? ==> Rested(c, visited, work, bs)
    ensures start.Some? ==> Rested(c, visited, work, bs + [Block(start.value, 0, [], [])])
  {
    hide NextsBehind;
    DropPending(c, visited, work, pc);
    if start.Some? {
      StraightBounds(c.bin, start.value, pc);
      LaidAbandon(c, visited, bs, Insns(c.bin, start.value, pc), Block(start.value, 0, [], []));
    }
  }

  /** Nothing decodes at the address: the block ends in front of it. */
  lemma RunStuck(c: Scope, visited: set<Address>, work: seq<Address>, bs: seq<Block>, pc: Address,
      start: Option<Address>, last: Address)
    requires Running(c, visited, work, bs, pc, start, last)
    requires c.bin.IsWithinMapping(pc) && !c.bin.Decodes(pc)
    ensures start.None? ==> Rested(c, visited, work, bs)
    ensures start.Some? ==> pc > 0 && Rested(c, visited, work, bs + [Block(start.value, pc, [], [])])
  {
    hide NextsBehind;
    DropPending(c, visited, work, pc);
    if start.Some? {
      LaidClose(c, visited, bs, Insns(c.bin, start.value, pc), Block(start.value, pc, [], []), last);
    }
  }

  /** What the visit of pc itself does, whatever the instruction is. */
  lemma Visit(c: Scope, visited: set<Address>, work: seq<Address>, bs: seq<Block>, pc: Address,
      start: Option<Address>, last: Address)
    requires c.bin.Valid() && Running(c, visited, work, bs, pc, start, last)
    requires pc !in visited && c.bin.IsWithinMapping(pc) && c.bin.Decodes(pc)
    ensures var s := if start.Some? then start.value else pc;
            && s <= pc && Straight(c.bin, s, pc)
            && Insns(c.bin, s, c.bin.Next(pc)) == Insns(c.bin, s, pc) + {pc}
            && (!c.bin.decode(pc).value.EndsBlock() ==> Straight(c.bin, s, c.bin.Next(pc)))
            && Laid(c, visited + {pc}, bs, Insns(c.bin, s, c.bin.Next(pc)))
            && (bs == [] ==> s == c.entry)
    ensures c.Open(pc)
  {
    hide NextsBehind;
    var s := if start.Some? then start.value else pc;
    StraightNext(c.bin, s, pc);
    LaidVisit(c, visited, bs, Insns(c.bin, s, pc), pc);
    if bs == [] && start.None? {
      assert visited == c.before;
    }
  }

  /** Nothing is visited before the entry is. */
  lemma FirstIsEntry(c: Scope, visited: set<Address>, work: seq<Address>, bs: seq<Block>, pc: Address,
      start: Option<Address>, last: Address)
    requires Running(c, visited, work, bs, pc, start, last) && visited == c.before
    ensures pc == c.entry
  {
    hide NextsBehind, Laid;
  }

  lemma VisitedSome(c: Scope, visited: set<Address>, work: seq<Address>, bs: seq<Block>, pc: Address,
      start: Option<Address>, last: Address)
    requires Running(c, visited, work, bs, pc, start, last) && pc !in visited
    ensures visited + {pc} != c.before && c.before <= visited
  {
    assert pc in visited + {pc} && pc !in c.before;
  }

  /** A visited address may also still be on the list. */
  lemma ExploredAgain(c: Scope, visited: set<Address>, pending: set<Address>, pc: Address)
    requires Explored(c, visited, pending) && pc in visited && pc !in c.before
    ensures Explored(c, visited, pending + {pc})
  {
    VisitedJustified(c, visited, pending, pc);
    hide Justified, ReachedIn;
  }

  lemma PendingAfter(c: Scope, visited: set<Address>, work: seq<Address>, pc: Address, more: seq<Address>,
      next: set<Address>)
    requires Explored(c, visited, Elements(work) + {pc}) && c.Open(pc) && pc !in visited
    requires forall y :: y in Elements(more) + next ==> c.Leads(pc, y)
    requires forall y :: c.Leads(pc, y) ==> y in Elements(more) + next || y in visited || y == pc
    ensures Explored(c, visited + {pc}, Elements(work + more) + next)
    ensures visited == c.before ==> pc == c.entry
    ensures visited != c.before ==> pc != c.entry
  {
    hide Justified;
    var V, P := visited + {pc}, Elements(work) + {pc} - {pc} + (Elements(more) + next);
    ExploredVisit(c, visited, Elements(work) + {pc}, pc, Elements(more) + next);
    if pc in work && pc !in more && pc !in next {
      assert Elements(work + more) + next == P + {pc};
      ExploredAgain(c, V, P, pc);
    } else {
      assert Elements(work + more) + next == P;
    }
  }

  /** A leading unconditional jump: the trampoline block, without successors. */
  lemma RunTrampoline(c: Scope, visited: set<Address>, work: seq<Address>, bs: seq<Block>, pc: Address,
      start: Option<Address>, last: Address)
    requires c.bin.Valid() && Running(c, visited, work, bs, pc, start, last)
    requires pc !in visited && c.bin.IsWithinMapping(pc) && c.bin.Decodes(pc)
    requires visited == c.before && c.bin.decode(pc).value.category.UncondBranch?
    ensures Rested(c, visited + {pc}, work,
                   bs + [Block(if start.Some? then start.value else pc, c.bin.Next(pc), [], [])])
  {
    hide NextsBehind;
    var s := if start.Some? then start.value else pc;
    Visit(c, visited, work, bs, pc, start, last);
    assert pc == c.entry;
    PendingAfter(c, visited, work, pc, [], {});
    assert work + [] == work && Elements(work) + {} == Elements(work);
    LaidClose(c, visited + {pc}, bs, Insns(c.bin, s, c.bin.Next(pc)), Block(s, c.bin.Next(pc), [], []), pc);
  }

  /** A branch or return elsewhere closes the block; a conditional branch goes on behind it. */
  lemma RunEnds(c: Scope, visited: set<Address>, work: seq<Address>, bs: seq<Block>, pc: Address,
      start: Option<Address>, last: Address)
    requires c.bin.Valid() && Running(c, visited, work, bs, pc, start, last)
    requires pc !in visited && c.bin.IsWithinMapping(pc) && c.bin.Decodes(pc)
    requires c.bin.decode(pc).value.EndsBlock()
    requires visited == c.before ==> !c.bin.decode(pc).value.category.UncondBranch?
    ensures !c.IsTrampoline(pc)
    ensures var V := visited + {pc};
            var W := work + Pushed(c, V, pc);
            var bs' := bs + [Block(if start.Some? then start.value else pc, c.bin.Next(pc), c.SuccessorsAfter(pc), [])];
            if c.bin.decode(pc).value.category.CondBranch? then Running(c, V, W, bs', c.bin.Next(pc), None, pc)
            else Rested(c, V, W, bs')
  {
    hide NextsBehind;
    var s := if start.Some? then start.value else pc;
    var V := visited + {pc};
    Visit(c, visited, work, bs, pc, start, last);
    var next := if c.bin.decode(pc).value.category.CondBranch? then {c.bin.Next(pc)} else {};
    assert !c.IsTrampoline(pc) by {
      if visited != c.before {
        assert c.entry in visited;
      }
    }
    PendingAfter(c, visited, work, pc, Pushed(c, V, pc), next);
    assert next == {} ==> Elements(work + Pushed(c, V, pc)) + next == Elements(work + Pushed(c, V, pc));
    LaidClose(c, V, bs, Insns(c.bin, s, c.bin.Next(pc)), Block(s, c.bin.Next(pc), c.SuccessorsAfter(pc), []), pc);
  }

  /** Any other instruction goes on to the next address. */
  lemma RunGoesOn(c: Scope, visited: set<Address>, work: seq<Address>, bs: seq<Block>, pc: Address,
      start: Option<Address>, last: Address)
    requires c.bin.Valid() && Running(c, visited, work, bs, pc, start, last)
    requires pc !in visited && c.bin.IsWithinMapping(pc) && c.bin.Decodes(pc)
    requires !c.bin.decode(pc).value.EndsBlock()
    ensures Running(c, visited + {pc}, work, bs, c.bin.Next(pc), Some(if start.Some? then start.value else pc), pc)
  {
    hide NextsBehind;
    Visit(c, visited, work, bs, pc, start, last);
    PendingAfter(c, visited, work, pc, [], {c.bin.Next(pc)});
    assert work + [] == work;
    if NextsBehind(c) {
      NextUnvisited(c, visited, Elements(work) + {pc}, pc);
    }
  }

  lemma RestBegins(c: Scope)
    ensures Rested(c, c.before, [c.entry], [])
  {
    assert Elements([c.entry]) == {c.entry};
  }

  lemma RestedAll(c: Scope, visited: set<Address>, bs: seq<Block>)
    requires Rested(c, visited, [], bs)
    ensures forall x :: x in visited <==> x in c.before || c.Reached(x)
    ensures Laid(c, visited, bs, {})
  {
    assert Elements([]) == {};
    ExploredAll(c, visited);
  }
}
