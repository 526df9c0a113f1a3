/** The breadth-first search that builds the block graph, on block indices: a queue in
    which a block may stand many times, reprocessing on every pop, parallel edges. */
module GraphSearch {
  import opened Blocks
  import opened ControlFlow

  /** How many pops come before the first unvisited block. */
  ghost function Backlog(queue: seq<nat>, visited: set<nat>): nat {
    if queue == [] || queue[0] !in visited then 0 else 1 + Backlog(queue[1..], visited)
  }

  /** Queueing an unvisited block at the end leaves the backlog as it is. */
  lemma {:induction false} BacklogAppend(queue: seq<nat>, visited: set<nat>, t: nat)
    requires t !in visited
    ensures Backlog(queue + [t], visited) == Backlog(queue, visited)
  {
    if queue == [] {
      assert queue + [t] == [t];
    } else {
      assert (queue + [t])[1..] == queue[1..] + [t];
      BacklogAppend(queue[1..], visited, t);
    }
  }

  ghost function Indices(n: nat): (r: set<nat>)
    ensures forall i :: i in r <==> 0 <= i < n
  {
    if n == 0 then {} else Indices(n - 1) + {n - 1}
  }

  /** Although a pop may lengthen the queue, either the popped block is visited for the
      first time or the first unvisited block has moved one place closer to the front. */
  lemma SearchProgress(n: nat, visited: set<nat>, queue: seq<nat>, queue': seq<nat>)
    requires queue != [] && queue[0] < n
    requires Backlog(queue', visited) == Backlog(queue[1..], visited)
    ensures var visited' := visited + {queue[0]};
            if queue[0] in visited
            then visited' == visited && Backlog(queue', visited) < Backlog(queue, visited)
            else Indices(n) - visited' < Indices(n) - visited
  {
    if queue[0] in visited {
      assert visited + {queue[0]} == visited;
    } else {
      assert queue[0] in Indices(n) - visited;
    }
  }

  ghost predicate Known(visited: set<nat>, queue: seq<nat>, b: nat, j: nat) {
    j in visited || j in queue || j == b
  }

  ghost predicate Linked(bs: seq<Block>, edges: seq<(nat, nat)>, visited: set<nat>, queue: seq<nat>, b: nat,
      s: Address) {
    var t := Lookup(bs, s);
    t < |bs| ==> (b, t) in edges && Known(visited, queue, b, t)
  }

  /** What holds of edges, visited blocks and queue while block b is linked to the blocks
      of its first k successors. */
  ghost predicate Linking(bs: seq<Block>, e: nat, edges: seq<(nat, nat)>, visited: set<nat>, queue: seq<nat>, b: nat,
      k: nat) {
    && b < |bs| && k <= |bs[b].succs| && BlockReach(bs, e, b)
    && Known(visited, queue, b, e)
    && (forall i :: i in visited || i in queue ==> i < |bs| && BlockReach(bs, e, i))
    && (forall p :: p in edges ==> BlockReach(bs, e, p.0) && Edge(bs, p.0, p.1))
    && (forall i, j: nat :: i in visited && Edge(bs, i, j) ==> (i, j) in edges && Known(visited, queue, b, j))
    && (forall n :: 0 <= n < k ==> Linked(bs, edges, visited, queue, b, bs[b].succs[n]))
  }

  /** The invariant of the search from block e. */
  ghost predicate Searched(bs: seq<Block>, e: nat, edges: seq<(nat, nat)>, visited: set<nat>, queue: seq<nat>) {
    && (e in visited || e in queue)
    && (forall i :: i in visited || i in queue ==> i < |bs| && BlockReach(bs, e, i))
    && (forall p :: p in edges ==> BlockReach(bs, e, p.0) && Edge(bs, p.0, p.1))
    && (forall i, j: nat :: i in visited && Edge(bs, i, j) ==> (i, j) in edges && (j in visited || j in queue))
  }

  lemma LinkBegin(bs: seq<Block>, e: nat, edges: seq<(nat, nat)>, visited: set<nat>, queue: seq<nat>)
    requires Searched(bs, e, edges, visited, queue) && queue != []
    ensures Linking(bs, e, edges, visited, queue[1..], queue[0], 0)
  {
    assert queue[0] in queue && forall i :: i in queue <==> i == queue[0] || i in queue[1..];
  }

  /** One successor of b: it is linked to the block t that holds it, which is queued
      unless it was visited. */
  lemma LinkNext(bs: seq<Block>, e: nat, edges: seq<(nat, nat)>, visited: set<nat>, queue: seq<nat>, b: nat, k: nat,
      t: nat, queue': seq<nat>)
    requires Linking(bs, e, edges, visited, queue, b, k) && k < |bs[b].succs|
    requires t == Lookup(bs, bs[b].succs[k]) < |bs|
    requires queue' == if t in visited then queue else queue + [t]
    ensures Linking(bs, e, edges + [(b, t)], visited, queue', b, k + 1)
    ensures Backlog(queue', visited) == Backlog(queue, visited)
  {
    assert Edge(bs, b, t);
    BlockReachStep(bs, e, b, t);
    if t !in visited {
      BacklogAppend(queue, visited, t);
    }
    assert forall j :: Known(visited, queue, b, j) ==> Known(visited, queue', b, j);
  }

  lemma LinkSkip(bs: seq<Block>, e: nat, edges: seq<(nat, nat)>, visited: set<nat>, queue: seq<nat>, b: nat, k: nat)
    requires Linking(bs, e, edges, visited, queue, b, k) && k < |bs[b].succs|
    requires Lookup(bs, bs[b].succs[k]) == |bs|
    ensures Linking(bs, e, edges, visited, queue, b, k + 1)
  {
  }

  lemma LinkEnd(bs: seq<Block>, e: nat, edges: seq<(nat, nat)>, visited: set<nat>, queue: seq<nat>, b: nat)
    requires b < |bs| && Linking(bs, e, edges, visited, queue, b, |bs[b].succs|)
    ensures Searched(bs, e, edges, visited + {b}, queue)
  {
    forall j: nat | Edge(bs, b, j) ensures (b, j) in edges && Known(visited, queue, b, j) {
      var s :| s in bs[b].succs && Lookup(bs, s) == j;
      var n :| 0 <= n < |bs[b].succs| && bs[b].succs[n] == s;
      assert Linked(bs, edges, visited, queue, b, bs[b].succs[n]);
    }
  }

  /** With the queue empty, the edges are exactly those that leave reached blocks. */
  lemma SearchDone(bs: seq<Block>, e: nat, edges: seq<(nat, nat)>, visited: set<nat>)
    requires Searched(bs, e, edges, visited, [])
    ensures forall i: nat, j: nat :: (i, j) in edges <==> BlockReach(bs, e, i) && Edge(bs, i, j)
  {
    forall i: nat, j: nat | BlockReach(bs, e, i) && Edge(bs, i, j) ensures (i, j) in edges {
      var p :| IsBlockPath(bs, p, e, i);
      ClosedContainsReach(bs, visited, p, e, i);
    }
  }
}
