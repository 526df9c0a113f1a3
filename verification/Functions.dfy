/** Basic blocks and functions as they are updated in place: splitting, the
    splitting lookup, normalisation and construction of the block graph. */
module Functions {
  import opened Blocks
  import opened ControlFlow
  import opened GraphSearch

  function Without(s: seq<Address>, a: Address): (r: seq<Address>)
    ensures a !in r
    ensures forall x :: x in r <==> x in s && x != a
    ensures |r| <= |s|
  {
    if s == [] then [] else (if s[0] == a then [] else [s[0]]) + Without(s[1..], a)
  }

  lemma {:induction false} WithoutAppend(s: seq<Address>, x: Address, a: Address)
    ensures Without(s + [x], a) == Without(s, a) + if x == a then [] else [x]
  {
    if s == [] {
      assert s + [x] == [x];
    } else {
      var rest, first, more := s[1..], if s[0] == a then [] else [s[0]], if x == a then [] else [x];
      assert (s + [x])[0] == s[0] && (s + [x])[1..] == rest + [x];
      WithoutAppend(rest, x, a);
      assert first + (Without(rest, a) + more) == (first + Without(rest, a)) + more;
    }
  }

  class BasicBlock {
    var startAddress: Address
    var endAddress: Address
    var successors: seq<Address>
    var predecessors: seq<Address>

    constructor (start: Address)
      ensures View() == Block(start, 0, [], [])
    {
      startAddress, endAddress := start, 0;
      successors, predecessors := [], [];
    }

    function View(): Block
      reads this
    {
      Block(startAddress, endAddress, successors, predecessors)
    }

    method AddPredecessor(address: Address)
      modifies this`predecessors
      ensures predecessors == old(predecessors) + [address]
    {
      predecessors := predecessors + [address];
    }

    method AddSuccessor(address: Address)
      modifies this`successors
      ensures successors == old(successors) + [address]
    {
      successors := successors + [address];
    }

    /** Removes every copy of the address and keeps the order of the rest. */
    method RemoveSuccessor(address: Address)
      modifies this`successors
      ensures successors == Without(old(successors), address)
    {
      var kept := [];
      for i := 0 to |successors|
        invariant successors == old(successors)
        invariant kept == Without(successors[..i], address)
      {
        assert successors[..i + 1] == successors[..i] + [successors[i]];
        WithoutAppend(successors[..i], successors[i], address);
        if successors[i] != address {
          kept := kept + [successors[i]];
        }
      }
      assert successors[..|successors|] == successors;
      successors := kept;
    }

    method Split(address: Address) returns (newBlock: BasicBlock)
      modifies this
      ensures fresh(newBlock)
      ensures View() == Head(old(View()), address)
      ensures newBlock.View() == Tail(old(View()), address)
    {
      newBlock := new BasicBlock(address);
      newBlock.endAddress := endAddress;
      endAddress := address;
      newBlock.AddPredecessor(startAddress);
      for i := 0 to |successors|
        invariant View() == old(View()).(end := address)
        invariant newBlock.View() == Block(address, old(endAddress), successors[..i], [startAddress])
      {
        newBlock.AddSuccessor(successors[i]);
      }
      assert successors[..|successors|] == successors;
      successors := [];
      successors := successors + [newBlock.startAddress];
    }
  }

  function ViewsOf(blocks: seq<BasicBlock>): (r: seq<Block>)
    reads blocks
    ensures |r| == |blocks|
    ensures forall i :: 0 <= i < |r| ==> r[i] == blocks[i].View()
  {
    seq(|blocks|, i requires 0 <= i < |blocks| reads blocks => blocks[i].View())
  }

  /** vertexOf is the position of each block in the list. */
  ghost predicate Indexed(all: seq<BasicBlock>, vertexOf: map<BasicBlock, nat>) {
    && (forall b :: b in vertexOf ==> b in all)
    && (forall i :: 0 <= i < |all| ==> all[i] in vertexOf && vertexOf[all[i]] == i)
  }

  /** The indices are those of the blocks, one by one. */
  ghost predicate Named(all: seq<BasicBlock>, blocks: seq<BasicBlock>, indices: seq<nat>) {
    |blocks| == |indices| &&
    forall k :: 0 <= k < |blocks| ==> indices[k] < |all| && blocks[k] == all[indices[k]]
  }

  ghost predicate SameMembers(all: seq<BasicBlock>, blocks: set<BasicBlock>, indices: set<nat>) {
    forall i :: 0 <= i < |all| ==> (all[i] in blocks <==> i in indices)
  }

  lemma SameMembersAdd(all: seq<BasicBlock>, blocks: set<BasicBlock>, indices: set<nat>, i: nat)
    requires SameMembers(all, blocks, indices) && i < |all|
    requires forall j, k :: 0 <= j < k < |all| ==> all[j] != all[k]
    ensures SameMembers(all, blocks + {all[i]}, indices + {i})
  {
  }

  lemma NamedAppend(all: seq<BasicBlock>, blocks: seq<BasicBlock>, indices: seq<nat>, i: nat)
    requires Named(all, blocks, indices) && i < |all|
    ensures Named(all, blocks + [all[i]], indices + [i])
  {
  }

  class Function {
    var startAddress: Address
    var endAddress: Address
    var basicBlocks: seq<BasicBlock>
    var callSites: set<(Address, Address)>

    // branches found to go one way only: true means always taken
    var hasOpaquePredicates: bool
    var opaquePredicateAddresses: set<Address>
    var opaquePredicateResults: map<Address, bool>

    // the block graph: vertex i is the block vertices[i]; parallel edges are kept
    var vertices: seq<BasicBlock>
    var edges: seq<(nat, nat)>
    var vertexOf: map<BasicBlock, nat>

    constructor (start: Address)
      ensures Valid() && basicBlocks == []
      ensures startAddress == endAddress == start && callSites == {}
      ensures !hasOpaquePredicates && opaquePredicateAddresses == {} && opaquePredicateResults == map[]
    {
      startAddress, endAddress, basicBlocks, callSites := start, start, [], {};
      vertices, edges, vertexOf := [], [], map[];
      hasOpaquePredicates, opaquePredicateAddresses, opaquePredicateResults := false, {}, map[];
    }

    /** The function owns its blocks: no block occurs twice. */
    ghost predicate Valid()
      reads this`basicBlocks
    {
      forall i, j :: 0 <= i < j < |basicBlocks| ==> basicBlocks[i] != basicBlocks[j]
    }

    ghost function Owned(): set<BasicBlock>
      reads this`basicBlocks
    {
      set b | b in basicBlocks
    }

    function Views(): (r: seq<Block>)
      reads this`basicBlocks, basicBlocks
      ensures |r| == |basicBlocks|
      ensures forall i :: 0 <= i < |r| ==> r[i] == basicBlocks[i].View()
    {
      ViewsOf(basicBlocks)
    }

    /** A call site replaces the unresolved entry for the same call, if there is one. */
    method AddCallSite(call: Address, target: Address)
      modifies this`callSites
      ensures callSites == old(callSites) - {(call, 0)} + {(call, target)}
    {
      if (call, 0) in callSites {
        callSites := callSites - {(call, 0)};
      }
      callSites := callSites + {(call, target)};
    }

    method AddBasicBlock(bb: BasicBlock)
      requires Valid() && bb !in basicBlocks
      modifies this`basicBlocks
      ensures Valid() && basicBlocks == old(basicBlocks) + [bb]
      ensures Views() == old(Views()) + [bb.View()]
    {
      basicBlocks := basicBlocks + [bb];
    }

    /** The lookup in its mode without splitting (allowSplit == false). */
    method FindBasicBlock(address: Address) returns (block: BasicBlock?, ghost index: nat)
      ensures index == Lookup(Views(), address)
      ensures if index == |basicBlocks| then block == null else block == basicBlocks[index]
    {
      index := Lookup(Views(), address);
      for i := 0 to |basicBlocks|
        invariant i <= index
      {
        block := basicBlocks[i];
        assert Views()[i] == block.View();
        if block.startAddress <= address < block.endAddress {
          return;
        }
      }
      block := null;
    }

    /** The lookup in its splitting mode. The split, when there is one, is that of the
        block which Hit names; the new block goes to the end of the list. */
    method GetBasicBlockForAddress(address: Address) returns (block: BasicBlock?, wasSplit: bool)
      requires Valid()
      modifies this`basicBlocks, Owned()
      ensures Valid()
      ensures Views() == AfterHit(old(Views()), address)
      ensures wasSplit == Splits(old(Views()), address)
      ensures !wasSplit ==> basicBlocks == old(basicBlocks)
      ensures !wasSplit ==> var k := Hit(old(Views()), address);
                            if k == |basicBlocks| then block == null else block == basicBlocks[k]
      ensures wasSplit ==> block != null && fresh(block) && basicBlocks == old(basicBlocks) + [block]
      ensures fresh(Owned() - old(Owned()))
    {
      wasSplit := false;
      for i := 0 to |basicBlocks|
        invariant basicBlocks == old(basicBlocks) && Views() == old(Views())
        invariant forall j :: 0 <= j < i ==> !Hits(Views()[j], address)
      {
        block := basicBlocks[i];
        assert block.View() == Views()[i];
        if address == block.startAddress {
          assert Hits(Views()[i], address);
          return;
        }
        if block.startAddress < address < block.endAddress {
          assert Hits(Views()[i], address);
          var newBlock := block.Split(address);
          AddBasicBlock(newBlock);
          assert Views() == SplitAt(old(Views()), i, address);
          return newBlock, true;
        }
      }
      block := null;
    }

    // ----- The block graph -----

    /** The graph is exact: one vertex per block, and as a set the edges are the edges
        between blocks that leave a block reached from the entry block. Without an
        entry block there are no edges. */
    ghost predicate GraphExact()
      reads this, basicBlocks
    {
      var bs := Views();
      var e := Lookup(bs, startAddress);
      && vertices == basicBlocks
      && (forall b :: b in vertexOf ==> b in basicBlocks)
      && (forall i :: 0 <= i < |basicBlocks| ==> basicBlocks[i] in vertexOf && vertexOf[basicBlocks[i]] == i)
      && (forall i: nat, j: nat :: (i, j) in edges <==> e < |bs| && BlockReach(bs, e, i) && Edge(bs, i, j))
    }

    /** The body of the breadth-first loop for one block: adds the edges to the blocks of
        all its successors, and queues the unvisited ones. V and Q are the visited set
        and the queue by block index. */
    method LinkSuccessors(bb: BasicBlock, visited: set<BasicBlock>, toVisit: seq<BasicBlock>, graph: seq<(nat, nat)>,
        ghost bs: seq<Block>, ghost e: nat, ghost V: set<nat>, ghost Q: seq<nat>)
        returns (links: seq<(nat, nat)>, queue: seq<BasicBlock>, ghost Q': seq<nat>)
      requires Q != [] && Q[0] < |basicBlocks| && bb == basicBlocks[Q[0]]
      requires Indexed(basicBlocks, vertexOf) && bs == Views()
      requires Named(basicBlocks, toVisit, Q[1..]) && SameMembers(basicBlocks, visited, V)
      requires Searched(bs, e, graph, V, Q)
      ensures Searched(bs, e, links, V + {Q[0]}, Q')
      ensures Backlog(Q', V) == Backlog(Q[1..], V)
      ensures Named(basicBlocks, queue, Q')
    {
      links, queue, Q' := graph, toVisit, Q[1..];
      var from := vertexOf[bb];
      var succs := bb.successors;
      LinkBegin(bs, e, graph, V, Q);
      for k := 0 to |succs|
        invariant Linking(bs, e, links, V, Q', from, k)
        invariant Backlog(Q', V) == Backlog(Q[1..], V)
        invariant Named(basicBlocks, queue, Q')
      {
        var succBB, t := FindBasicBlock(succs[k]);
        if succBB == null || succBB !in vertexOf {
          LinkSkip(bs, e, links, V, Q', from, k);
          continue;
        }
        var to := vertexOf[succBB];
        LinkNext(bs, e, links, V, Q', from, k, to, if to in V then Q' else Q' + [to]);
        links := links + [(from, to)];
        if succBB !in visited {
          NamedAppend(basicBlocks, queue, Q', to);
          queue := queue + [basicBlocks[to]];
          Q' := Q' + [to];
        }
      }
      LinkEnd(bs, e, links, V, Q', from);
    }

    method AddVertices()
      requires Valid()
      modifies this`vertices, this`edges, this`vertexOf
      ensures vertices == basicBlocks && edges == [] && Indexed(basicBlocks, vertexOf)
    {
      vertices, edges, vertexOf := [], [], map[];
      for i := 0 to |basicBlocks|
        invariant vertices == basicBlocks[..i] && edges == []
        invariant Indexed(basicBlocks[..i], vertexOf)
      {
        assert basicBlocks[..i + 1] == basicBlocks[..i] + [basicBlocks[i]];
        vertices := vertices + [basicBlocks[i]];
        vertexOf := vertexOf[basicBlocks[i] := i];
      }
      assert basicBlocks[..|basicBlocks|] == basicBlocks;
    }

    /** The breadth-first traversal from the entry block; returns the edges it adds. */
    method Traverse(entry: BasicBlock, ghost e: nat) returns (graph: seq<(nat, nat)>)
      requires Valid() && Indexed(basicBlocks, vertexOf)
      requires e < |basicBlocks| && entry == basicBlocks[e]
      ensures forall i: nat, j: nat :: (i, j) in graph <==> BlockReach(Views(), e, i) && Edge(Views(), i, j)
    {
      ghost var bs := Views();
      var visited: set<BasicBlock> := {};
      var toVisit: seq<BasicBlock> := [entry];
      ghost var V: set<nat>, Q: seq<nat> := {}, [e];
      graph := [];
      BlockReachSelf(bs, e);
      while toVisit != []
        invariant Named(basicBlocks, toVisit, Q) && SameMembers(basicBlocks, visited, V)
        invariant Searched(bs, e, graph, V, Q)
        decreases Indices(|bs|) - V, Backlog(Q, V)
      {
        var bb := toVisit[0];
        ghost var Q0 := Q;
        graph, toVisit, Q := LinkSuccessors(bb, visited, toVisit[1..], graph, bs, e, V, Q);
        SearchProgress(|bs|, V, Q0, Q);
        SameMembersAdd(basicBlocks, visited, V, Q0[0]);
        visited, V := visited + {bb}, V + {Q0[0]};
      }
      assert Q == [];
      SearchDone(bs, e, graph, V);
    }

    method BuildCFG()
      requires Valid()
      modifies this`vertices, this`edges, this`vertexOf
      ensures GraphExact()
    {
      AddVertices();
      var entry, e := FindBasicBlock(startAddress);
      if entry == null {
        return;
      }
      edges := Traverse(entry, e);
    }

    // ----- Normalisation -----

    /** The first inner loop of normalisation, for block i: look up every entry inside it
        and stop at the first split. */
    method CutBlock(i: nat, entries: set<Address>) returns (wasSplit: bool)
      requires Valid() && i < |basicBlocks|
      modifies this`basicBlocks, Owned()
      ensures Valid() && fresh(Owned() - old(Owned()))
      ensures !wasSplit ==> basicBlocks == old(basicBlocks) && Views() == old(Views())
      ensures !wasSplit ==> forall e :: e in entries && Views()[i].Straddles(e) ==> !Splits(Views(), e)
      ensures wasSplit ==> exists e :: e in entries && IsStraddled(old(Views()), e) && Splits(old(Views()), e)
                                       && Views() == AfterHit(old(Views()), e)
    {
      wasSplit := false;
      ghost var bs := Views();
      var pending := entries;
      while pending != {}
        invariant pending <= entries
        invariant Valid() && basicBlocks == old(basicBlocks) && Views() == bs
        invariant forall e :: e in entries - pending && bs[i].Straddles(e) ==> !Splits(bs, e)
        decreases pending
      {
        var entry :| entry in pending;
        pending := pending - {entry};
        var bb := basicBlocks[i];
        assert bs[i] == bb.View();
        if entry == bb.startAddress {
          continue;
        }
        if bb.startAddress < entry < bb.endAddress {
          assert bs[i].Straddles(entry) && IsStraddled(bs, entry);
          var splitBlk;
          splitBlk, wasSplit := GetBasicBlockForAddress(entry);
          if wasSplit {
            return;
          }
        }
      }
    }

    /** Look up one successor of block i and record block i as its predecessor. */
    method RecordSuccessor(i: nat, succ: Address) returns (wasSplit: bool)
      requires Valid() && i < |basicBlocks|
      modifies this`basicBlocks, Owned()
      ensures Valid() && fresh(Owned() - old(Owned()))
      ensures wasSplit == Splits(old(Views()), succ)
      ensures Views() == AfterRecord(old(Views()), i, succ)
      ensures !wasSplit ==> basicBlocks == old(basicBlocks)
    {
      var startAddr := basicBlocks[i].startAddress;
      ghost var bs := Views();
      assert bs[i] == basicBlocks[i].View();
      var succBlk;
      succBlk, wasSplit := GetBasicBlockForAddress(succ);
      if succBlk == null {
        return;
      }
      ghost var cs := Views();
      ghost var k := if wasSplit then |bs| else Hit(bs, succ);
      assert succBlk == basicBlocks[k];
      succBlk.AddPredecessor(startAddr);
      assert Views() == WithPred(cs, k, startAddr);
    }

    /** The second inner loop, for block i: look up every successor, record block i as a
        predecessor of what is found, and stop at the first split. */
    method RecordSuccessors(i: nat, ghost entries: set<Address>, ghost bs0: seq<Block>) returns (wasSplit: bool)
      requires Valid() && i < |basicBlocks| && Refines(bs0, Views(), entries)
      modifies this`basicBlocks, Owned()
      ensures Valid() && fresh(Owned() - old(Owned()))
      ensures Refines(bs0, Views(), entries)
      ensures WellFormed(bs0) && old(PredsSound(Views())) ==> PredsSound(Views())
      ensures old(Tidy(Views(), entries) && NoneInside(Views()[i], entries)) ==> Tidy(Views(), entries)
      ensures wasSplit ==> CutCount(entries, Views()) < old(CutCount(entries, Views()))
      ensures Settled(old(Views()), entries) ==> !wasSplit
      ensures !wasSplit ==> basicBlocks == old(basicBlocks)
      ensures !wasSplit ==> PredsGrow(old(Views()), Views()) && RecordedTo(Views(), i, |Views()[i].succs|)
    {
      hide Refines, PredsSound, WellFormed, Splits, AfterRecord, Settled, Tidy, NoneInside;
      wasSplit := false;
      var succs := basicBlocks[i].successors;
      ghost var bs := Views();
      for k := 0 to |succs|
        invariant Valid() && basicBlocks == old(basicBlocks) && bs == Views()
        invariant Refines(bs0, bs, entries)
        invariant PredsGrow(old(Views()), bs) && bs[i].succs == succs && RecordedTo(bs, i, k)
        invariant WellFormed(bs0) && PredsSound(old(Views())) ==> PredsSound(bs)
        invariant old(Tidy(Views(), entries) && NoneInside(Views()[i], entries)) ==>
                    Tidy(bs, entries) && NoneInside(bs[i], entries)
      {
        RecordStep(bs0, old(Views()), bs, entries, i, k);
        RefinesEntries(bs0, bs, entries, i);
        AfterRecordTidy(bs, entries, i, succs[k]);
        wasSplit := RecordSuccessor(i, succs[k]);
        bs := Views();
        if wasSplit {
          return;
        }
      }
    }

    /** The entry set: every start and successor, and then once more the successors that
        lie inside their own block. */
    method CollectEntries() returns (entries: set<Address>)
      ensures entries == EntrySet(Views())
    {
      entries := {};
      ghost var bs := Views();
      for i := 0 to |basicBlocks|
        invariant entries == EntrySet(bs[..i])
      {
        var bb := basicBlocks[i];
        assert bs[i] == bb.View();
        EntrySetNext(bs, i);
        entries := entries + {bb.startAddress} + (set x | x in bb.successors);
      }
      assert bs[..|bs|] == bs;
      for i := 0 to |basicBlocks|
        invariant entries == EntrySet(bs)
      {
        var bb := basicBlocks[i];
        assert bs[i] == bb.View();
        for k := 0 to |bb.successors|
          invariant entries == EntrySet(bs)
        {
          var succ := bb.successors[k];
          if bb.startAddress < succ < bb.endAddress {
            assert succ in bs[i].succs;
            entries := entries + {succ};
          }
        }
      }
    }

    /** One run through all blocks, from the reset label; again means: reset. */
    method NormalizePass(entries: set<Address>, ghost bs0: seq<Block>) returns (again: bool)
      requires Valid() && Refines(bs0, Views(), entries)
      modifies this`basicBlocks, Owned()
      ensures Valid() && fresh(Owned() - old(Owned()))
      ensures Refines(bs0, Views(), entries)
      ensures WellFormed(bs0) && old(PredsSound(Views())) ==> PredsSound(Views())
      ensures old(Tidy(Views(), entries)) ==> Tidy(Views(), entries)
      ensures again ==> CutCount(entries, Views()) < old(CutCount(entries, Views()))
      ensures Settled(old(Views()), entries) ==> !again
      ensures !again ==> Passed(old(Views()), Views(), entries, |basicBlocks|)
    {
      hide Refines, PredsSound, WellFormed, Splits, AfterHit, Settled, Tidy, NoneInside;
      again := false;
      ghost var bs1, bs := Views(), Views();
      PassedNone(bs1, entries);
      hide Passed;
      for i := 0 to |basicBlocks|
        invariant Valid() && basicBlocks == old(basicBlocks) && bs == Views()
        invariant Refines(bs0, bs, entries) && Passed(bs1, bs, entries, i)
        invariant WellFormed(bs0) && PredsSound(bs1) ==> PredsSound(bs)
        invariant Tidy(bs1, entries) ==> Tidy(bs, entries)
      {
        PassedShapes(bs1, bs, entries, i);
        SettledSameShapes(bs1, bs, entries);
        again := CutBlock(i, entries);
        if again {
          ghost var e :| e in entries && IsStraddled(bs, e) && Splits(bs, e) && Views() == AfterHit(bs, e);
          NotSettled(bs, entries, e);
          AfterHitRefines(bs0, bs, entries, e);
          CutCountShapes(entries, bs1, bs);
          AfterHitTidy(bs, entries, e);
          return;
        }
        UncutHasNoneInside(bs, entries, i);
        again := RecordSuccessors(i, entries, bs0);
        if again {
          CutCountShapes(entries, bs1, bs);
          return;
        }
        PassedNext(bs1, bs, Views(), entries, i);
        bs := Views();
      }
    }

    /** The passes, until one runs through without a split. */
    method SplitAll(entries: set<Address>)
      requires Valid() && EntriesIn(Views(), entries)
      modifies this`basicBlocks, Owned()
      ensures Valid() && fresh(Owned() - old(Owned()))
      ensures Refines(old(Views()), Views(), entries)
      ensures WellFormed(old(Views())) && PredsSound(old(Views())) ==> PredsSound(Views())
      ensures Tidy(old(Views()), entries) ==> Tidy(Views(), entries)
      ensures exists bs1 :: Passed(bs1, Views(), entries, |Views()|)
      ensures Settled(old(Views()), entries) ==> SameShapes(old(Views()), Views())
    {
      hide Refines, PredsSound, WellFormed, Passed, Settled, SameShapes, Tidy;
      ghost var bs0 := Views();
      RefinesSelf(bs0, entries);
      ShapesSelf(bs0);
      ghost var bs1 := bs0;
      var again := true;
      while again
        invariant Valid() && fresh(Owned() - old(Owned()))
        invariant Refines(bs0, Views(), entries)
        invariant WellFormed(bs0) && PredsSound(bs0) ==> PredsSound(Views())
        invariant Tidy(bs0, entries) ==> Tidy(Views(), entries)
        invariant !again ==> Passed(bs1, Views(), entries, |Views()|)
        invariant Settled(bs0, entries) ==> SameShapes(bs0, Views())
        decreases if again then CutCount(entries, Views()) + 1 else 0
      {
        bs1 := Views();
        again := NormalizePass(entries, bs0);
        StillSettled(bs0, bs1, Views(), entries, again);
      }
    }

    method NormalizeBasicBlocks()
      requires Valid()
      modifies this`basicBlocks, Owned(), this`vertices, this`edges, this`vertexOf
      ensures Valid() && GraphExact() && fresh(Owned() - old(Owned()))
      ensures Refines(old(Views()), Views(), EntrySet(old(Views())))
      ensures PredsComplete(Views())
      ensures WellFormed(old(Views())) && PredsSound(old(Views())) ==> PredsSound(Views())
      ensures Tidy(old(Views()), EntrySet(old(Views()))) ==> PredsExact(Views())
      ensures Separate(old(Views())) ==> Normalised(old(Views()), Views())
      ensures Settled(Views(), EntrySet(Views()))
      ensures Settled(old(Views()), EntrySet(old(Views()))) ==> SameShapes(old(Views()), Views())
    {
      hide Refines, PredsSound, WellFormed, Passed, PredsComplete, Normalised, Separate, Settled, SameShapes;
      hide Tidy, PredsExact, EntrySet, GraphExact, EntriesIn;
      var entries := CollectEntries();
      ghost var bs0 := Views();
      SplitAll(entries);
      ghost var bs := Views();
      ghost var bs1 :| Passed(bs1, bs, entries, |bs|);
      PassedAll(bs0, bs1, bs, entries);
      if Tidy(bs, entries) {
        TidyIsExact(bs, entries);
      }
      BuildCFG();
      assert Views() == bs;
    }
  }
}
