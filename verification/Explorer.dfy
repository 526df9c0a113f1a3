/** Recursive descent over a binary: the work list inside one function, the queue of
    functions, and the linear sweep, all sharing one set of visited addresses. */
module Explorer {
  import opened Blocks
  import opened ControlFlow
  import opened Functions
  import opened Image
  import opened Options
  import opened Layout
  import opened ControlPaths
  import opened Descent
  import opened Records

  /** The mapped addresses that were not visited yet. */
  ghost function Unvisited(bin: Binary, visited: set<Address>): set<Address> {
    set a | bin.base <= a < bin.base + bin.size && a !in visited
  }

  lemma VisitedLess(bin: Binary, visited: set<Address>, pc: Address)
    requires bin.IsWithinMapping(pc) && pc !in visited
    ensures Unvisited(bin, visited + {pc}) < Unvisited(bin, visited)
  {
    assert pc in Unvisited(bin, visited);
  }

  ghost function StartOf(bb: BasicBlock?): Option<Address>
    reads bb
  {
    if bb == null then None else Some(bb.startAddress)
  }

  /** The block being decoded, if any, is not yet in the function and not yet closed. */
  ghost predicate OpenBlock(fn: Function, bb: BasicBlock?)
    reads fn`basicBlocks, bb
  {
    bb != null ==> bb !in fn.basicBlocks && bb.View() == Block(bb.startAddress, 0, [], [])
  }

  /** The function ends where the block that was closed last ends. */
  ghost predicate EndRight(fn: Function, entry: Address)
    reads fn`endAddress, fn`basicBlocks, fn.basicBlocks
  {
    fn.endAddress == LastEnd(entry, fn.Views())
  }

  class StaticPathExplorer {
    const bin: Binary
    var visited: set<Address>
    var functions: seq<FunctionRecord>
    var functionByStart: map<Address, Address> // start to end
    var functionWork: seq<Address>
    ghost var owned: seq<set<Address>> // the instructions of each function
    ghost var origins: set<Address> // what was given from outside or found by the sweep so far

    constructor (binary: Binary)
      requires binary.Valid()
      ensures bin == binary && Consistent() && Balanced(functionWork)
      ensures visited == {} && functions == [] && functionWork == [] && origins == {} && functionByStart == map[]
    {
      bin, visited, functions, functionByStart, functionWork, owned, origins := binary, {}, [], map[], [], [], {};
    }

    ghost predicate Consistent()
      reads this`visited, this`functions, this`functionByStart, this`owned
    {
      && bin.Valid()
      && Filed(bin, visited, functions, owned)
      && TableOf(functionByStart, functions)
      && AllInTurn(bin, functions, owned) && functionByStart == Table(functions) && visited == AllOwned(owned)
      && forall x :: x in visited ==> bin.IsWithinMapping(x) && bin.Decodes(x)
    }

    /** With this queue, nothing that was given, found or called is lost, and nothing is
        queued or recorded without a reason. */
    ghost predicate Balanced(queue: seq<Address>)
      reads this`visited, this`functions, this`origins
    {
      AllAccounted(bin, visited, queue, functions, origins) && AllWarranted(bin, visited, queue, functions, origins)
    }

    /** What a call puts on the function queue. */
    ghost function CallWork(x: Address): seq<Address>
      reads this`visited
      requires bin.Decodes(x)
    {
      var t := bin.CodeTarget(x);
      if t.None? || t.value in visited then [] else [t.value]
    }

    method HandleCall(pc: Address, fn: Function)
      requires bin.Decodes(pc)
      modifies this`functionWork, fn`callSites
      ensures functionWork == old(functionWork) + CallWork(pc)
      ensures fn.callSites == old(fn.callSites) - {(pc, 0)} + {(pc, bin.CallTarget(pc))}
    {
      var insn := bin.decode(pc).value;
      match insn.Op(0) {
        case ImmOp(_) =>
          var target := bin.DirectTarget(pc).value;
          fn.AddCallSite(pc, target);
          if bin.IsWithinMapping(target) && target !in visited && bin.IsExecutableAddress(target) {
            functionWork := functionWork + [target];
          }
        case MemOp(RIP, _, disp) =>
          fn.AddCallSite(pc, (bin.Next(pc) + disp) % ADDRESS_SPACE);
        case MemOp(NoBase, false, disp) =>
          fn.AddCallSite(pc, disp % ADDRESS_SPACE);
        case _ =>
          fn.AddCallSite(pc, 0);
      }
    }

    /** An unconditional jump queues its target twice: as code of this function and as a
        function. */
    ghost function FunctionWork(c: Scope, x: Address): seq<Address>
      reads this`visited
      requires c.bin.Decodes(x)
    {
      if c.bin.decode(x).value.category.UncondBranch? then Pushed(c, visited, x) else []
    }

    /** The successors of a branch, and what it queues and records. */
    method BranchTargets(pc: Address, fn: Function, bb: BasicBlock, queue: seq<Address>, ghost c: Scope)
        returns (work: seq<Address>)
      requires bin.Decodes(pc) && c.bin == bin && c.known == functionByStart && !c.IsTrampoline(pc)
      requires bin.decode(pc).value.category.CondBranch? || bin.decode(pc).value.category.UncondBranch?
      requires bb.successors == []
      modifies this`functionWork, fn`callSites, bb`successors
      ensures bb.successors == c.SuccessorsAfter(pc)
      ensures work == queue + Pushed(c, visited, pc)
      ensures functionWork == old(functionWork) + FunctionWork(c, pc)
      ensures fn.callSites == WithSite(old(fn.callSites), pc, JumpSite(c, pc))
    {
      hide InRecorded;
      work := queue;
      var insn := bin.decode(pc).value;
      match insn.Op(0) {
        case ImmOp(_) =>
          var target := bin.DirectTarget(pc).value;
          if bin.IsWithinMapping(target) && bin.IsExecutableAddress(target) {
            if insn.category.UncondBranch? {
              if InRecorded(functionByStart, target) {
                fn.AddCallSite(pc, target);
              } else if target !in visited {
                work := work + [target];
                functionWork := functionWork + [target];
              }
            } else {
              if target !in visited {
                work := work + [target];
              }
            }
            bb.AddSuccessor(target);
          }
        case Unused =>
        case _ =>
          fn.AddCallSite(pc, 0);
      }
      if insn.category.CondBranch? {
        bb.AddSuccessor(bin.Next(pc));
      }
    }

    /** Closes the block and hands it to the function. */
    method CloseBlock(fn: Function, bb: BasicBlock, end: Address, ghost entry: Address)
      requires fn.Valid() && bb !in fn.basicBlocks
      modifies fn`basicBlocks, fn`endAddress, bb`endAddress
      ensures fn.Valid() && fn.basicBlocks == old(fn.basicBlocks) + [bb] && fn.endAddress == end
      ensures fn.Views() == old(fn.Views()) + [old(bb.View()).(end := end)]
      ensures end > 0 ==> EndRight(fn, entry)
    {
      LastEndNext(entry, fn.Views(), bb.View().(end := end));
      bb.endAddress := end;
      fn.endAddress := bb.endAddress;
      assert fn.Views() == old(fn.Views());
      fn.AddBasicBlock(bb);
    }

    /** A branch closes the block bb and hands it to the function. */
    method HandleBranch(pc: Address, fn: Function, bb: BasicBlock, queue: seq<Address>, ghost c: Scope)
        returns (work: seq<Address>)
      requires bin.Decodes(pc) && c.bin == bin && c.known == functionByStart && !c.IsTrampoline(pc)
      requires bin.decode(pc).value.category.CondBranch? || bin.decode(pc).value.category.UncondBranch?
      requires fn.Valid() && bb !in fn.basicBlocks && bb.successors == [] && bb.predecessors == []
      modifies this`functionWork, fn`basicBlocks, fn`callSites, fn`endAddress, bb
      ensures fn.Valid() && fn.basicBlocks == old(fn.basicBlocks) + [bb] && fn.endAddress == bin.Next(pc)
      ensures fn.Views() == old(fn.Views()) + [Block(old(bb.startAddress), bin.Next(pc), c.SuccessorsAfter(pc), [])]
      ensures work == queue + Pushed(c, visited, pc)
      ensures functionWork == old(functionWork) + FunctionWork(c, pc)
      ensures bin.Next(pc) > 0 ==> EndRight(fn, c.entry)
      ensures fn.callSites == WithSite(old(fn.callSites), pc, JumpSite(c, pc))
    {
      ghost var bs := fn.Views();
      work := BranchTargets(pc, fn, bb, queue, c);
      hide Pushed;
      assert fn.Views() == bs;
      CloseBlock(fn, bb, bin.Next(pc), c.entry);
    }

    /** The end of a block at a branch elsewhere than at the start of the function, or at a
        return. */
    method EndBlock(pc: Address, fn: Function, bb: BasicBlock, queue: seq<Address>, ghost c: Scope)
        returns (work: seq<Address>)
      requires bin.Decodes(pc) && c.bin == bin && c.known == functionByStart && !c.IsTrampoline(pc)
      requires bin.decode(pc).value.EndsBlock()
      requires fn.Valid() && bb !in fn.basicBlocks && bb.successors == [] && bb.predecessors == []
      modifies this`functionWork, fn`basicBlocks, fn`callSites, fn`endAddress, bb
      ensures fn.Valid() && fn.basicBlocks == old(fn.basicBlocks) + [bb] && fn.endAddress == bin.Next(pc)
      ensures fn.Views() == old(fn.Views()) + [Block(old(bb.startAddress), bin.Next(pc), c.SuccessorsAfter(pc), [])]
      ensures work == queue + Pushed(c, visited, pc)
      ensures functionWork == old(functionWork) + FunctionWork(c, pc)
      ensures bin.Next(pc) > 0 ==> EndRight(fn, c.entry)
      ensures fn.callSites == if bin.decode(pc).value.category.Return? then old(fn.callSites)
                              else WithSite(old(fn.callSites), pc, JumpSite(c, pc))
    {
      if bin.decode(pc).value.category.Return? {
        work := queue;
        assert queue + Pushed(c, visited, pc) == queue;
        CloseBlock(fn, bb, bin.Next(pc), c.entry);
      } else {
        work := HandleBranch(pc, fn, bb, queue, c);
      }
    }

    method HandleTrampoline(pc: Address, fn: Function, bb: BasicBlock, ghost c: Scope)
        returns (isTrampoline: bool)
      requires c.bin == bin && pc == c.entry
      requires bin.Decodes(pc) && bin.Next(pc) > 0 && EndRight(fn, c.entry)
      requires fn.Valid() && bb !in fn.basicBlocks
      modifies fn`basicBlocks, fn`callSites, fn`endAddress, bb
      ensures EndRight(fn, c.entry) && (isTrampoline ==> SitesStep(c, pc, old(fn.callSites), fn.callSites))
      ensures fn.Valid() && isTrampoline == bin.decode(pc).value.category.UncondBranch?
      ensures if isTrampoline
              then fn.basicBlocks == old(fn.basicBlocks) + [bb] && fn.endAddress == bin.Next(pc)
                   && fn.callSites == WithSite(old(fn.callSites), pc, bin.DirectTarget(pc))
                   && fn.Views() == old(fn.Views()) + [old(bb.View()).(end := bin.Next(pc))]
              else fn.basicBlocks == old(fn.basicBlocks) && fn.Views() == old(fn.Views()) && bb.View() == old(bb.View())
                   && fn.callSites == old(fn.callSites) && fn.endAddress == old(fn.endAddress)
    {
      var insn := bin.decode(pc).value;
      if !insn.category.UncondBranch? {
        return false;
      }
      TrampolineStep(c, pc, fn.callSites);
      hide SitesStep;
      if insn.Op(0).ImmOp? {
        fn.AddCallSite(pc, bin.DirectTarget(pc).value);
      }
      CloseBlock(fn, bb, bin.Next(pc), c.entry);
      return true;
    }

    /** What is done with an instruction by its category: a call is recorded, a branch or
        return ends the block. */
    method Dispatch(pc: Address, fn: Function, bb: BasicBlock, queue: seq<Address>, ghost c: Scope)
          returns (work: seq<Address>)
      requires bin.Valid() && bin.Decodes(pc) && c.bin == bin && c.known == functionByStart
      requires bin.decode(pc).value.EndsBlock() ==> !c.IsTrampoline(pc)
      requires bin.Next(pc) > 0 && EndRight(fn, c.entry)
      requires fn.Valid() && bb !in fn.basicBlocks && bb.successors == [] && bb.predecessors == []
      modifies this`functionWork, fn`basicBlocks, fn`callSites, fn`endAddress, bb
      ensures fn.Valid() && EndRight(fn, c.entry)
      ensures if bin.decode(pc).value.EndsBlock()
              then fn.basicBlocks == old(fn.basicBlocks) + [bb] && work == queue + Pushed(c, visited, pc)
                   && fn.Views() == old(fn.Views())
                                    + [Block(old(bb.startAddress), bin.Next(pc), c.SuccessorsAfter(pc), [])]
              else fn.basicBlocks == old(fn.basicBlocks) && work == queue
                   && fn.Views() == old(fn.Views()) && bb.View() == old(bb.View())
      ensures old(functionWork) <= functionWork
      ensures forall a :: a in functionWork ==> a in old(functionWork) || bin.CodeTarget(pc) == Some(a)
      ensures SitesStep(c, pc, old(fn.callSites), fn.callSites) && CalleesQueued(c, pc, visited, functionWork)
    {
      hide InRecorded, SitesStep, JumpSite, WithSite, CalleesQueued;
      work := queue;
      ghost var sites := fn.callSites;
      var category := bin.decode(pc).value.category;
      if bin.decode(pc).value.EndsBlock() {
        if !category.Return? {
          BranchStep(c, pc, sites);
        } else {
          OtherStep(c, pc, sites);
        }
        work := EndBlock(pc, fn, bb, queue, c);
        BranchQueues(c, pc, visited, functionWork);
      } else if category.Call? {
        CallStep(c, pc, sites);
        HandleCall(pc, fn);
        CallQueues(c, pc, visited, functionWork);
      } else {
        OtherStep(c, pc, sites);
        OtherQueues(c, pc, visited, functionWork);
      }
    }

    /** The treatment of an instruction that has just been visited and is no trampoline; before
        and start are the state in front of it. */
    method Proceed(pc: Address, fn: Function, open: BasicBlock, queue: seq<Address>, ghost c: Scope,
        ghost before: set<Address>, ghost start: Option<Address>, ghost last: Address)
        returns (goesOn: bool, bb: BasicBlock?, work: seq<Address>)
      requires bin.Valid() && c.bin == bin && c.known == functionByStart && visited == before + {pc}
      requires bin.Decodes(pc) && bin.IsWithinMapping(pc) && pc !in before
      requires before == c.before ==> !bin.decode(pc).value.category.UncondBranch?
      requires fn.Valid() && OpenBlock(fn, open) && EndRight(fn, c.entry)
      requires open.startAddress == (if start.Some? then start.value else pc)
      requires Running(c, before, queue, fn.Views(), pc, start, last)
      modifies this`functionWork, fn`basicBlocks, fn`callSites, fn`endAddress, open
      ensures fn.Valid() && EndRight(fn, c.entry) && (bb == null || bb == open)
      ensures fn.basicBlocks == old(fn.basicBlocks) || fn.basicBlocks == old(fn.basicBlocks) + [open]
      ensures old(functionWork) <= functionWork
      ensures forall a :: a in functionWork ==> a in old(functionWork) || bin.CodeTarget(pc) == Some(a)
      ensures SitesStep(c, pc, old(fn.callSites), fn.callSites) && CalleesQueued(c, pc, visited, functionWork)
      ensures goesOn ==> OpenBlock(fn, bb) && Running(c, visited, work, fn.Views(), bin.Next(pc), StartOf(bb), pc)
      ensures !goesOn ==> Rested(c, visited, work, fn.Views())
    {
      hide Running, Rested, InRecorded, EndRight, Pushed, SitesStep, CalleesQueued;
      goesOn, bb := true, open;
      var insn := bin.decode(pc).value;
      if insn.EndsBlock() {
        RunEnds(c, before, queue, fn.Views(), pc, start, last);
        goesOn, bb := insn.category.CondBranch?, null;
      } else {
        RunGoesOn(c, before, queue, fn.Views(), pc, start, last);
      }
      work := Dispatch(pc, fn, open, queue, c);
    }

    /** One decoded instruction of the inner loop. Says whether the loop goes on, and with
        which open block. */
    method VisitInsn(pc: Address, fn: Function, open: BasicBlock?, queue: seq<Address>, insnCount: nat,
        ghost c: Scope, ghost last: Address) returns (goesOn: bool, bb: BasicBlock?, work: seq<Address>)
      requires bin.Valid() && c.bin == bin && c.known == functionByStart
      requires bin.Decodes(pc) && bin.IsWithinMapping(pc) && pc !in visited
      requires fn.Valid() && OpenBlock(fn, open)
      requires Running(c, visited, queue, fn.Views(), pc, StartOf(open), last)
      requires insnCount == 0 <==> visited == c.before
      requires EndRight(fn, c.entry)
      modifies this`visited, this`functionWork, fn`basicBlocks, fn`callSites, fn`endAddress, open
      ensures fn.Valid() && fresh(fn.Owned() - old(fn.Owned()) - {open}) && EndRight(fn, c.entry)
      ensures bb == null || bb == open || fresh(bb)
      ensures visited == old(visited) + {pc} && old(functionWork) <= functionWork
      ensures forall a :: a in functionWork ==> a in old(functionWork) || bin.CodeTarget(pc) == Some(a)
      ensures SitesStep(c, pc, old(fn.callSites), fn.callSites) && CalleesQueued(c, pc, visited, functionWork)
      ensures goesOn ==> OpenBlock(fn, bb) && Running(c, visited, work, fn.Views(), bin.Next(pc), StartOf(bb), pc)
      ensures !goesOn ==> Rested(c, visited, work, fn.Views())
    {
      hide Running, Rested, InRecorded;
      ghost var bs, start, V := fn.Views(), StartOf(open), visited;
      hide EndRight, Pushed, SitesStep, Insns, Straight, CalleesQueued;
      bb, work := open, queue;
      if bb == null {
        bb := new BasicBlock(pc);
      }
      visited := visited + {pc};
      if insnCount == 0 {
        FirstIsEntry(c, V, work, bs, pc, start, last);
        var isTrampoline := HandleTrampoline(pc, fn, bb, c);
        if isTrampoline {
          OtherQueues(c, pc, visited, functionWork);
          RunTrampoline(c, V, work, bs, pc, start, last);
          return false, null, work;
        }
      }
      goesOn, bb, work := Proceed(pc, fn, bb, work, c, V, start, last);
    }

    /** The exits of the inner loop in front of an instruction: the address was visited, is
        not mapped, or does not decode. An open block is handed to the function. */
    method RunIsOver(pc: Address, fn: Function, bb: BasicBlock?, work: seq<Address>, ghost c: Scope,
        ghost last: Address)
        returns (over: bool)
      requires c.bin == bin && fn.Valid() && OpenBlock(fn, bb)
      requires Running(c, visited, work, fn.Views(), pc, StartOf(bb), last) && EndRight(fn, c.entry)
      modifies fn`basicBlocks, fn`endAddress, bb
      ensures EndRight(fn, c.entry)
      ensures over <==> pc in visited || !bin.IsWithinMapping(pc) || !bin.Decodes(pc)
      ensures over ==> fn.Valid() && Rested(c, visited, work, fn.Views())
      ensures over ==> fn.basicBlocks == old(fn.basicBlocks) + if bb == null then [] else [bb]
      ensures !over ==> fn.basicBlocks == old(fn.basicBlocks) && fn.Views() == old(fn.Views())
      ensures !over && bb != null ==> bb.View() == old(bb.View())
    {
      hide Running, Rested, LastEnd;
      ghost var bs := fn.Views();
      if pc in visited || !bin.IsWithinMapping(pc) {
        RunAbandons(c, visited, work, bs, pc, StartOf(bb), last);
        if bb != null {
          LastEndNext(c.entry, bs, bb.View());
          fn.AddBasicBlock(bb);
        }
        return true;
      }
      if bin.decode(pc).None? {
        RunStuck(c, visited, work, bs, pc, StartOf(bb), last);
        if bb != null {
          CloseBlock(fn, bb, pc, c.entry);
        }
        return true;
      }
      return false;
    }

    /** One round of the inner loop: an exit, or a visit after which the run may go on. */
    method Advance(pc: Address, fn: Function, open: BasicBlock?, queue: seq<Address>, insnCount: nat, ghost c: Scope,
        ghost last: Address)
        returns (goesOn: bool, bb: BasicBlock?, work: seq<Address>, count: nat)
      requires bin.Valid() && c.bin == bin && c.known == functionByStart
      requires fn.Valid() && OpenBlock(fn, open)
      requires Running(c, visited, queue, fn.Views(), pc, StartOf(open), last)
      requires insnCount == 0 <==> visited == c.before
      requires Noted(c, visited, fn.callSites, functionWork) && EndRight(fn, c.entry)
      modifies this`visited, this`functionWork, fn`basicBlocks, fn`callSites, fn`endAddress, open
      ensures fn.Valid() && fresh(fn.Owned() - old(fn.Owned()) - {open}) && EndRight(fn, c.entry)
      ensures bb == null || bb == open || fresh(bb)
      ensures goesOn ==>
                bin.Decodes(pc) && OpenBlock(fn, bb)
                && Running(c, visited, work, fn.Views(), bin.Next(pc), StartOf(bb), pc)
      ensures !goesOn ==> Rested(c, visited, work, fn.Views())
      ensures count == 0 <==> visited == c.before
      ensures old(visited) <= visited && QueueGrows(bin, visited, old(functionWork), functionWork)
      ensures Noted(c, visited, fn.callSites, functionWork)
      ensures Unvisited(bin, visited) < Unvisited(bin, old(visited))
              || (!goesOn && visited == old(visited) && work == queue && functionWork == old(functionWork)
                  && fn.callSites == old(fn.callSites))
    {
      hide Running, Rested, Noted, QueueGrows, Unvisited, EndRight;
      QueueGrowsSelf(bin, visited, functionWork);
      goesOn, bb, work, count := false, open, queue, insnCount;
      var over := RunIsOver(pc, fn, bb, work, c, last);
      if over {
        return;
      }
      VisitedSome(c, visited, work, fn.Views(), pc, StartOf(bb), last);
      VisitedLess(bin, visited, pc);
      ghost var V, S, Q := visited, fn.callSites, functionWork;
      goesOn, bb, work := VisitInsn(pc, fn, bb, work, count, c, last);
      NotedNext(c, V, S, Q, pc, fn.callSites, functionWork);
      QueueGrowsNext(bin, V, Q, Q, pc, functionWork);
      count := count + 1;
    }

    /** The inner loop of function analysis: decode from first until the run ends. */
    method FollowRun(fn: Function, first: Address, queue: seq<Address>, insnCount: nat, ghost c: Scope)
        returns (work: seq<Address>, count: nat)
      requires bin.Valid() && c.bin == bin && c.known == functionByStart
      requires fn.Valid() && first !in visited
      requires Running(c, visited, queue, fn.Views(), first, None, 0)
      requires insnCount == 0 <==> visited == c.before
      requires Noted(c, visited, fn.callSites, functionWork) && EndRight(fn, c.entry)
      modifies this`visited, this`functionWork, fn`basicBlocks, fn`callSites, fn`endAddress
      ensures fn.Valid() && fresh(fn.Owned() - old(fn.Owned())) && EndRight(fn, c.entry)
      ensures Rested(c, visited, work, fn.Views())
      ensures count == 0 <==> visited == c.before
      ensures old(visited) <= visited && QueueGrows(bin, visited, old(functionWork), functionWork)
      ensures Noted(c, visited, fn.callSites, functionWork)
      ensures Unvisited(bin, visited) < Unvisited(bin, old(visited))
              || (visited == old(visited) && work == queue && functionWork == old(functionWork)
                  && fn.callSites == old(fn.callSites))
    {
      hide Running, Rested, Noted, QueueGrows, Unvisited, EndRight;
      QueueGrowsSelf(bin, visited, functionWork);
      work, count := queue, insnCount;
      var pc, bb: BasicBlock?, last := first, null, 0;
      while true
        invariant fn.Valid() && fresh(fn.Owned() - old(fn.Owned())) && EndRight(fn, c.entry)
        invariant OpenBlock(fn, bb) && (bb != null ==> fresh(bb))
        invariant Running(c, visited, work, fn.Views(), pc, StartOf(bb), last)
        invariant count == 0 <==> visited == c.before
        invariant old(visited) <= visited && QueueGrows(bin, visited, old(functionWork), functionWork)
        invariant Noted(c, visited, fn.callSites, functionWork)
        invariant Unvisited(bin, visited) < Unvisited(bin, old(visited))
                  || (visited == old(visited) && work == queue && functionWork == old(functionWork)
                      && fn.callSites == old(fn.callSites))
        decreases Unvisited(bin, visited)
      {
        ghost var V, Q := visited, functionWork;
        var goesOn;
        goesOn, bb, work, count := Advance(pc, fn, bb, work, count, c, last);
        QueueGrowsTrans(bin, V, visited, old(functionWork), Q, functionWork);
        if !goesOn {
          return;
        }
        last := pc;
        pc := bin.Next(pc);
      }
    }

    /** One address of the work list: a run, unless it was visited meanwhile. */
    method NextRun(fn: Function, queue: seq<Address>, insnCount: nat, ghost c: Scope)
        returns (work: seq<Address>, count: nat)
      requires bin.Valid() && c.bin == bin && c.known == functionByStart
      requires fn.Valid() && queue != [] && Rested(c, visited, queue, fn.Views())
      requires insnCount == 0 <==> visited == c.before
      requires Noted(c, visited, fn.callSites, functionWork) && EndRight(fn, c.entry)
      modifies this`visited, this`functionWork, fn`basicBlocks, fn`callSites, fn`endAddress
      ensures fn.Valid() && fresh(fn.Owned() - old(fn.Owned())) && EndRight(fn, c.entry)
      ensures Rested(c, visited, work, fn.Views())
      ensures count == 0 <==> visited == c.before
      ensures old(visited) <= visited && QueueGrows(bin, visited, old(functionWork), functionWork)
      ensures Noted(c, visited, fn.callSites, functionWork)
      ensures Unvisited(bin, visited) < Unvisited(bin, old(visited))
              || (visited == old(visited) && work == queue[1..] && functionWork == old(functionWork)
                  && fn.callSites == old(fn.callSites))
    {
      hide Rested, Running, Noted, QueueGrows, EndRight;
      var pc := queue[0];
      RunBegins(c, visited, queue, fn.Views());
      work, count := queue[1..], insnCount;
      QueueGrowsSelf(bin, visited, functionWork);
      if pc !in visited {
        work, count := FollowRun(fn, pc, work, insnCount, c);
      }
    }

    /** The work list of function analysis. */
    method Explore(fn: Function, start: Address, ghost c: Scope)
      requires bin.Valid() && fn.Valid() && fn.basicBlocks == [] && fn.callSites == {} && fn.endAddress == start
      requires c == Scope(bin, functionByStart, visited, start)
      modifies this`visited, this`functionWork, fn`basicBlocks, fn`callSites, fn`endAddress
      ensures fn.Valid() && fresh(fn.Owned()) && EndRight(fn, start)
      ensures forall x :: x in visited <==> x in c.before || c.Reached(x)
      ensures Laid(c, visited, fn.Views(), {})
      ensures old(visited) <= visited && QueueGrows(bin, visited, old(functionWork), functionWork)
      ensures Noted(c, visited, fn.callSites, functionWork)
      ensures Unvisited(bin, visited) < Unvisited(bin, old(visited))
              || (visited == old(visited) && functionWork == old(functionWork) && fn.callSites == old(fn.callSites))
    {
      NothingNoted(c, functionWork);
      hide Rested, Noted, QueueGrows;
      QueueGrowsSelf(bin, visited, functionWork);
      var work, insnCount := [start], 0;
      RestBegins(c);
      assert fn.Views() == [] && EndRight(fn, start);
      hide EndRight;
      while work != []
        invariant fn.Valid() && fresh(fn.Owned()) && EndRight(fn, start)
        invariant Rested(c, visited, work, fn.Views())
        invariant insnCount == 0 <==> visited == c.before
        invariant old(visited) <= visited && QueueGrows(bin, visited, old(functionWork), functionWork)
        invariant Noted(c, visited, fn.callSites, functionWork)
        invariant Unvisited(bin, visited) < Unvisited(bin, old(visited))
                  || (visited == old(visited) && functionWork == old(functionWork) && fn.callSites == old(fn.callSites))
        decreases Unvisited(bin, visited), |work|
      {
        ghost var V, Q := visited, functionWork;
        work, insnCount := NextRun(fn, work, insnCount, c);
        QueueGrowsTrans(bin, V, visited, old(functionWork), Q, functionWork);
      }
      RestedAll(c, visited, fn.Views());
    }

    /** Everything reached from start is decoded and laid out in blocks (raw), which are
        then normalised. */
    method AnalyzeFunction(fn: Function, start: Address) returns (ghost raw: seq<Block>)
      requires bin.Valid() && fn.Valid() && fn.basicBlocks == [] && fn.callSites == {} && fn.endAddress == start
      modifies this`visited, this`functionWork, fn
      ensures fn.Valid() && fresh(fn.Owned()) && fn.startAddress == start && fn.GraphExact()
      ensures fn.endAddress == LastEnd(start, raw)
      ensures var c := Scope(bin, functionByStart, old(visited), start);
              && (forall x :: x in visited <==> x in old(visited) || c.Reached(x))
              && Laid(c, visited, raw, {})
      ensures WellFormed(raw) && Refines(raw, fn.Views(), EntrySet(raw))
      ensures PredsComplete(fn.Views()) && PredsSound(fn.Views())
      ensures Tidy(raw, EntrySet(raw)) ==> PredsExact(fn.Views())
      ensures NoOverlap(bin, visited - old(visited)) ==> Normalised(raw, fn.Views())
      ensures NoOverlap(bin, visited - old(visited)) && EntriesAmong(raw, visited - old(visited)) ==>
                var c := Scope(bin, functionByStart, old(visited), start);
                TailsClosed(c, raw, fn.Views()) && Charted(c, visited, raw, fn.Views())
      ensures old(visited) <= visited && QueueGrows(bin, visited, old(functionWork), functionWork)
      ensures Noted(Scope(bin, functionByStart, old(visited), start), visited, fn.callSites, functionWork)
      ensures Unvisited(bin, visited) < Unvisited(bin, old(visited))
              || (visited == old(visited) && functionWork == old(functionWork) && fn.callSites == old(fn.callSites))
    {
      hide Laid, Refines, Normalised, NoOverlap, PredsComplete, PredsSound, WellFormed, Separate;
      hide Noted, QueueGrows, Settled, SameShapes, Function.GraphExact, EntriesAmong, TailsClosed, LastEnd;
      hide Tidy, PredsExact;
      fn.startAddress := start;
      ghost var c := Scope(bin, functionByStart, visited, start);
      Explore(fn, start, c);
      raw := fn.Views();
      LaidWellFormed(c, visited, raw);
      if NoOverlap(bin, visited - c.before) {
        LaidSeparate(c, visited, raw);
      }
      fn.NormalizeBasicBlocks();
      if NoOverlap(bin, visited - c.before) && EntriesAmong(raw, visited - c.before) {
        NormalisedTails(c, visited, raw, fn.Views());
      }
    }

    // ----- The queue of functions -----

    /** A new function, analysed and ready to be recorded. */
    method AnalyzeNew(pc: Address) returns (record: FunctionRecord)
      requires bin.Valid() && Filed(bin, visited, functions, owned)
      modifies this`visited, this`functionWork
      ensures record.start == pc && old(visited) <= visited
      ensures forall x :: x in visited <==>
                x in old(visited) || Scope(bin, functionByStart, old(visited), pc).Reached(x)
      ensures Filed(bin, visited, functions + [record], owned + [visited - old(visited)])
      ensures Analysed(Scope(bin, functionByStart, old(visited), pc), visited, record)
      ensures QueueGrows(bin, visited, old(functionWork), functionWork)
      ensures Unvisited(bin, visited) < Unvisited(bin, old(visited))
              || (visited == old(visited) && functionWork == old(functionWork) && record.sites == {})
    {
      hide Filed, Laid, Refines, Normalised, NoOverlap, PredsComplete, PredsSound, WellFormed, SitesRight;
      hide Noted, SitesExact, QueueGrows;
      hide Function.GraphExact;
      ghost var c := Scope(bin, functionByStart, visited, pc);
      var fn := new Function(pc);
      ghost var raw := AnalyzeFunction(fn, pc);
      record := FunctionRecord(fn.startAddress, fn.endAddress, fn.Views(), fn.callSites);
      SameBytesOfRefines(raw, record.blocks, EntrySet(raw));
      assert LaidOut(c, visited, raw, record);
      NotedRight(c, visited, record.sites, functionWork);
      FileNew(bin, c, visited, functions, owned, raw, record);
    }

    /** The targets that the call sites of a function put on the function queue. */
    predicate QueuesSite(site: (Address, Address))
      reads this`visited, this`functionByStart
    {
      site.1 != 0 && site.1 !in visited && bin.IsWithinMapping(site.1) && !InRecorded(functionByStart, site.1)
    }

    method QueueCallSites(callSites: set<(Address, Address)>)
      modifies this`functionWork
      ensures old(functionWork) <= functionWork
      ensures forall a :: a in functionWork <==>
                a in old(functionWork) || exists site :: site in callSites && QueuesSite(site) && site.1 == a
      ensures SitesQueued(bin, functionByStart, visited, functionWork, callSites)
      ensures callSites == {} ==> functionWork == old(functionWork)
    {
      hide InRecorded;
      var pending := callSites;
      while pending != {}
        invariant pending <= callSites
        invariant old(functionWork) <= functionWork
        invariant forall a :: a in functionWork ==>
                    a in old(functionWork) || exists site :: site in callSites && QueuesSite(site) && site.1 == a
        invariant forall site :: site in callSites - pending && QueuesSite(site) ==> site.1 in functionWork
        invariant callSites == {} ==> functionWork == old(functionWork)
        decreases pending
      {
        var site :| site in pending;
        pending := pending - {site};
        if site.1 != 0 && site.1 !in visited {
          if bin.IsWithinMapping(site.1) && !InRecorded(functionByStart, site.1) {
            assert QueuesSite(site);
            functionWork := functionWork + [site.1];
          }
        }
      }
      forall site | site in callSites && site.1 != 0 && site.1 !in visited && bin.IsWithinMapping(site.1)
          && !InRecorded(functionByStart, site.1) ensures site.1 in functionWork {
        assert QueuesSite(site);
      }
    }

    /** Analyse one function, queue the targets of its call sites, and record it. */
    method ProcessFunction(pc: Address)
      requires Consistent() && pc !in visited && !InRecorded(functionByStart, pc)
      requires Balanced([pc] + functionWork)
      modifies this
      ensures Consistent() && old(visited) <= visited
      ensures forall x :: x in visited <==>
                x in old(visited) || Scope(bin, old(functionByStart), old(visited), pc).Reached(x)
      ensures |functions| == |old(functions)| + 1 && old(functions) <= functions
                && functions[|functions| - 1].start == pc
      ensures functionByStart == old(functionByStart)[pc := functions[|functions| - 1].end]
      ensures owned == old(owned) + [visited - old(visited)]
      ensures Balanced(functionWork) && origins == old(origins) && old(functionWork) <= functionWork
      ensures bin.IsWithinMapping(pc) && bin.Decodes(pc) ==> pc in visited
      ensures SitesFound(bin, visited, functionWork, functions, functions[|functions| - 1].sites)
      ensures forall a :: a in functionWork ==> a in old(functionWork) || bin.IsWithinMapping(a)
      ensures forall a :: InRange(old(functions), a) ==> InRange(functions, a)
      ensures Unvisited(bin, visited) < Unvisited(bin, old(visited))
              || (visited == old(visited) && functionWork == old(functionWork))
    {
      hide Filed, TableOf, SitesQueued, AllAccounted, AllWarranted, QueueGrows, InRange, SitesFound;
      hide AllInTurn, Table, AllOwned, Analysed, InRecorded;
      ghost var V, Q, F := visited, functionWork, functions;
      var record := AnalyzeNew(pc);
      ghost var Q1 := functionWork;
      AnalysisVisits(Scope(bin, functionByStart, V, pc), visited);
      GrowsMapped(bin, visited, Q, Q1);
      QueueCallSites(record.sites);
      IndexNew(functionByStart, functions, record);
      QueuePrefix(bin, visited, Q, Q1, functionWork);
      ProcessedAccounted(bin, origins, pc, V, Q, F, functionByStart, visited, functionWork, record);
      ProcessedWarranted(bin, origins, pc, V, Q, F, visited, Q1, functionWork, record);
      ProcessedFound(bin, F, functionByStart, visited, functionWork, record);
      TurnNext(bin, functions, owned, record, visited);
      functions := functions + [record];
      functionByStart := functionByStart[record.start := record.end];
      owned := owned + [visited - V];
    }

    /** An address that leaves the queue without being analysed. */
    lemma Skip(pc: Address)
      requires Balanced([pc] + functionWork)
      requires pc in visited || InRange(functions, pc) || !bin.IsExecutableAddress(pc)
      ensures Balanced(functionWork)
    {
      SkippedAccounted(bin, origins, pc, visited, functionWork, functions);
      SkippedWarranted(bin, origins, pc, visited, functionWork, functions);
    }

    lemma SkipFound(pc: Address, Q: seq<Address>, n: nat, given: seq<Address>)
      requires Q == [pc] + functionWork && n <= |functions| && (pc in visited || InRange(functions, pc))
      ensures AllFound(bin, visited, Q, functions, n, given) ==>
                AllFound(bin, visited, functionWork, functions, n, given)
    {
      if AllFound(bin, visited, Q, functions, n, given) {
        FoundMore(bin, visited, Q, functions, n, given, visited, functionWork, functions);
      }
    }

    /** The queue Q began with pc, which was processed since. */
    lemma ProcessFound(pc: Address, V: set<Address>, Q: seq<Address>, F: seq<FunctionRecord>, n: nat,
        given: seq<Address>)
      requires AllFound(bin, V, Q, F, n, given) && n <= |F| && V <= visited && F <= functions && |functions| == |F| + 1
      requires Q != [] && Q[0] == pc && Q[1..] <= functionWork
      requires bin.IsWithinMapping(pc) && bin.Decodes(pc) ==> pc in visited
      requires SitesFound(bin, visited, functionWork, functions, functions[|F|].sites)
      requires forall a :: InRange(F, a) ==> InRange(functions, a)
      ensures AllFound(bin, visited, functionWork, functions, n, given)
    {
      hide InRange, SitesFound;
      forall a | a in Q ensures Found(bin, visited, functionWork, functions, a) {
        if a != pc {
          assert a in Q[1..];
          assert a in functionWork;
        }
      }
      FoundMore(bin, V, Q, F, n, given, visited, functionWork, functions);
    }

    /** What the loop over the function queue starts a function at. */
    predicate Startable(onlyExecutable: bool, a: Address)
      reads this`visited, this`functionByStart
    {
      a !in visited && !InRecorded(functionByStart, a) && (onlyExecutable ==> bin.IsExecutableAddress(a))
    }

    /** The loop over the function queue; the explorer proper starts functions only in
        executable ranges, the fallback anywhere. What comes first in the queue is analysed first. */
    method DrainQueue(onlyExecutable: bool)
      requires Consistent() && Balanced(functionWork)
      modifies this
      ensures Consistent() && Balanced(functionWork) && origins == old(origins)
      ensures functionWork == [] && old(visited) <= visited && old(functions) <= functions && old(owned) <= owned
      ensures onlyExecutable ==>
                forall k :: |old(functions)| <= k < |functions| ==> bin.IsExecutableAddress(functions[k].start)
      ensures !onlyExecutable ==> AllFound(bin, visited, [], functions, |old(functions)|, old(functionWork))
      ensures (forall a :: a in old(functionWork) ==> onlyExecutable || bin.IsWithinMapping(a)) ==>
                forall k :: |old(functions)| <= k < |functions| ==> bin.IsWithinMapping(functions[k].start)
      ensures old(functionWork != [] && Startable(onlyExecutable, functionWork[0])) ==>
                |old(functions)| < |functions| && functions[|old(functions)|].start == old(functionWork[0])
    {
      hide Filed, AllAccounted, AllWarranted, AllFound, InRange, SitesFound, TableOf, AllInTurn, Table, AllOwned;
      ghost var n, given := |functions|, functionWork;
      FoundFirst(bin, visited, functions, given);
      while functionWork != []
        invariant Consistent() && Balanced(functionWork) && origins == old(origins)
        invariant old(visited) <= visited && old(functions) <= functions && old(owned) <= owned
        invariant onlyExecutable ==> forall k :: n <= k < |functions| ==> bin.IsExecutableAddress(functions[k].start)
        invariant !onlyExecutable ==> AllFound(bin, visited, functionWork, functions, n, given)
        invariant (forall a :: a in given ==> onlyExecutable || bin.IsWithinMapping(a)) ==>
                    && (forall a :: a in functionWork ==> onlyExecutable || bin.IsWithinMapping(a))
                    && forall k :: n <= k < |functions| ==> bin.IsWithinMapping(functions[k].start)
        invariant given != [] && old(Startable(onlyExecutable, functionWork[0])) ==>
                    (functionWork == given && |functions| == n && visited == old(visited)
                     && functionByStart == old(functionByStart))
                    || (n < |functions| && functions[n].start == given[0])
        decreases Unvisited(bin, visited), |functionWork|
      {
        ghost var V, Q, F := visited, functionWork, functions;
        var pc := functionWork[0];
        functionWork := functionWork[1..];
        assert Q == [pc] + functionWork;
        if pc in visited {
          Skip(pc);
          SkipFound(pc, Q, n, given);
          continue;
        }
        if InRecorded(functionByStart, pc) {
          RecordedInRange(functionByStart, functions, pc);
          Skip(pc);
          SkipFound(pc, Q, n, given);
          continue;
        }
        if onlyExecutable && !bin.IsExecutableAddress(pc) {
          Skip(pc);
          continue;
        }
        ProcessFunction(pc);
        if !onlyExecutable {
          ProcessFound(pc, V, Q, F, n, given);
        }
      }
    }

    /** What the sweep may queue: an unvisited prologue outside the recorded functions. */
    predicate SweepFinds(a: Address)
      reads this`visited, this`functionByStart
    {
      && a !in visited && bin.Decodes(a) && bin.decode(a).value.IsPrologue()
      && bin.IsExecutableAddress(a) && !InRecorded(functionByStart, a)
    }

    /** Sweeps one range for prologues outside the recorded functions, stepping by whole
        instructions, or by one byte where nothing decodes. */
    method SweepRange(start: Address, end: Address)
      requires bin.Valid()
      modifies this`functionWork
      ensures old(functionWork) <= functionWork
      ensures forall a :: a in functionWork <==>
                a in old(functionWork) || (a in ScanStops(bin, visited, start, end) && SweepFinds(a))
    {
      hide InRecorded;
      var addr: int := start;
      ghost var stops, done: set<Address> := ScanStops(bin, visited, start, end), {};
      while addr < end
        invariant addr >= 0
        invariant stops == done + ScanStops(bin, visited, addr, end)
        invariant old(functionWork) <= functionWork
        invariant forall a :: a in functionWork <==> a in old(functionWork) || (a in done && SweepFinds(a))
        decreases end - addr
      {
        done := done + {addr};
        var insn := bin.decode(addr);
        if addr in visited || insn.None? {
          addr := addr + 1;
          continue;
        }
        if insn.value.IsPrologue() {
          if !InRecorded(functionByStart, addr) && bin.IsExecutableAddress(addr) {
            functionWork := functionWork + [addr];
          }
        }
        addr := bin.Next(addr);
      }
    }

    method Sweep()
      requires bin.Valid()
      modifies this`functionWork
      ensures old(functionWork) <= functionWork
      ensures forall a :: a in functionWork <==>
                a in old(functionWork) || (SweepStops(bin, visited, |bin.sections|, a) && SweepFinds(a))
    {
      hide SweepFinds;
      for i := 0 to |bin.sections|
        invariant old(functionWork) <= functionWork
        invariant forall a :: a in functionWork <==>
                    a in old(functionWork) || (SweepStops(bin, visited, i, a) && SweepFinds(a))
      {
        SweepRange(bin.sections[i].0, bin.sections[i].1);
      }
    }

    method QueueEntryPoints(entryPoints: set<Address>)
      modifies this`functionWork
      ensures old(functionWork) <= functionWork
      ensures forall a :: a in functionWork <==> a in old(functionWork) || a in entryPoints
    {
      var pending := entryPoints;
      while pending != {}
        invariant pending <= entryPoints && old(functionWork) <= functionWork
        invariant forall a :: a in functionWork <==> a in old(functionWork) || a in entryPoints - pending
        decreases pending
      {
        var entry :| entry in pending;
        pending := pending - {entry};
        functionWork := functionWork + [entry];
      }
    }

    /** The prologues at which the sweep stops are queued, if need be. */
    lemma SweptAccounted(a: Address)
      requires Consistent() && a in Prologues(bin, visited)
      requires SweepStops(bin, visited, |bin.sections|, a) && SweepFinds(a) ==> a in functionWork
      ensures Accounted(bin, visited, functionWork, functions, a)
    {
      hide Filed, SweepStops;
      if InRecorded(functionByStart, a) {
        RecordedInRange(functionByStart, functions, a);
      }
    }

    /** Addresses that are added to the origins and to the queue. */
    lemma MoreOrigins(queue: seq<Address>, o: set<Address>)
      requires AllAccounted(bin, visited, queue, functions, o) && AllWarranted(bin, visited, queue, functions, o)
      requires o <= origins && queue <= functionWork
      requires forall a :: a in functionWork ==> a in queue || a in origins
      requires forall a :: a in origins ==> a in o || Accounted(bin, visited, functionWork, functions, a)
      ensures Balanced(functionWork)
    {
      OriginsAccounted(bin, visited, queue, functions, o, functionWork, origins);
      OriginsWarranted(bin, visited, queue, functions, o, functionWork, origins);
    }

    lemma FoundIsPrologue(a: Address)
      requires bin.Valid() && SweepStops(bin, visited, |bin.sections|, a) && SweepFinds(a)
      ensures a in Prologues(bin, visited) && bin.IsWithinMapping(a)
    {
      hide SweepStops, InRecorded;
    }

    /** The whole exploration: from the entry points on the first run, later from one
        address if there is one, and then from what the sweep finds. Nothing is lost: not
        the roots, not the call sites of the functions, not the prologues at which the sweep
        stops (swept is what had been visited when it started); and nothing is recorded that
        does not come from one of these or from a direct branch. The functions that there were
        when the sweep started, of which there are proper many, own just what had been visited,
        and the new ones among them start at executable addresses; by then the roots and all that
        they call had been dealt with. What the later ones call is explored wherever it lies. */
    method Run(entryPoints: set<Address>, fromAddress: Address)
          returns (ghost roots: set<Address>, ghost swept: set<Address>, ghost proper: nat)
      requires Consistent() && Balanced(functionWork) && functionWork == []
      modifies this
      ensures Consistent() && Balanced(functionWork) && functionWork == []
      ensures old(visited) <= swept <= visited && old(functions) <= functions
      ensures roots == if old(functions) == [] then entryPoints else if fromAddress != 0 then {fromAddress} else {}
      ensures origins == old(origins) + roots + Prologues(bin, swept)
      ensures |old(functions)| <= proper <= |functions| == |owned|
      ensures AllAccounted(bin, swept, [], functions[..proper], old(origins) + roots)
      ensures forall x :: x in swept <==> OwnedBefore(owned, proper, x)
      ensures forall k :: |old(functions)| <= k < |functions| ==> bin.IsWithinMapping(functions[k].start)
      ensures forall k :: |old(functions)| <= k < proper ==> bin.IsExecutableAddress(functions[k].start)
      ensures forall k :: proper <= k < |functions| ==> SitesFound(bin, visited, [], functions, functions[k].sites)
    {
      hide SweepFinds, SweepStops, AllAccounted, AllWarranted, Filed, AllFound, SitesFound, OwnedBefore;
      hide AllInTurn, Table, AllOwned, Prologues, TableOf;
      roots := if functions == [] then entryPoints else if fromAddress != 0 then {fromAddress} else {};
      if functions == [] {
        QueueEntryPoints(entryPoints);
      } else if fromAddress != 0 {
        functionWork := functionWork + [fromAddress];
      }
      origins := origins + roots;
      MoreOrigins([], old(origins));
      DrainQueue(true);
      swept, proper := visited, |functions|;
      FiledOwned(bin, visited, functions, owned);
      ghost var functionsThen, ownedThen := functions, owned;
      Sweep();
      ghost var before := origins;
      origins := origins + Prologues(bin, visited);
      forall a | a in Prologues(bin, visited) ensures Accounted(bin, visited, functionWork, functions, a) {
        SweptAccounted(a);
      }
      forall a | a in functionWork ensures a in origins && bin.IsWithinMapping(a) {
        FoundIsPrologue(a);
      }
      MoreOrigins([], before);
      DrainQueue(false);
      FiledOwned(bin, visited, functions, owned);
      OwnedStill(ownedThen, owned);
      FoundLate(bin, visited, functions, proper);
      assert functions[..proper] == functionsThen;
    }
  }
}
