/** Ordering passes by their declared dependencies, and running them in that order. */
module Scheduling {

  datatype Name = Name(text: string)

  /** The registered passes with the dependencies each one declares; these may name passes
      that are not registered, repeat, or form cycles. */
  type Passes = map<Name, seq<Name>>

  // ----- What the order is about -----

  ghost predicate DependsOn(passes: Passes, p: Name, d: Name) {
    p in passes && d in passes && d in passes[p]
  }

  /** Each name depends on the next one. */
  ghost predicate IsChain(passes: Passes, c: seq<Name>) {
    forall k :: 0 <= k < |c| - 1 ==> DependsOn(passes, c[k], c[k + 1])
  }

  ghost predicate Distinct(s: seq<Name>) {
    forall i, j :: 0 <= i < j < |s| ==> s[i] != s[j]
  }

  /** Some chain of dependencies from p runs into a cycle. */
  ghost predicate ReachesCycle(passes: Passes, p: Name) {
    exists c :: |c| > 0 && c[0] == p && IsChain(passes, c) && !Distinct(c)
  }

  ghost function Elements(s: seq<Name>): set<Name> {
    set x | x in s
  }

  /** No pass twice, and every pass behind all its registered dependencies. */
  ghost predicate IsOrdered(passes: Passes, order: seq<Name>) {
    && Distinct(order)
    && (forall k :: 0 <= k < |order| ==> order[k] in passes)
    && (forall k, d :: 0 <= k < |order| && DependsOn(passes, order[k], d) ==> d in order[..k])
  }

  // ----- Counting open dependencies -----

  /** How many of the listed dependencies are registered and not done, with repetitions. */
  function Open(passes: Passes, list: seq<Name>, done: set<Name>): nat {
    if list == [] then 0
    else
      Open(passes, list[..|list| - 1], done)
      + if list[|list| - 1] in passes && list[|list| - 1] !in done then 1 else 0
  }

  lemma OpenNext(passes: Passes, list: seq<Name>, k: nat, done: set<Name>)
    requires k < |list|
    ensures Open(passes, list[..k + 1], done) ==
            Open(passes, list[..k], done) + if list[k] in passes && list[k] !in done then 1 else 0
    ensures multiset(list[..k + 1]) == multiset(list[..k]) + multiset{list[k]}
  {
    assert list[..k + 1] == list[..k] + [list[k]];
    assert list[..k + 1][..k] == list[..k];
  }

  /** When a pass gets done, each mention of it is closed. */
  lemma {:induction false} OpenDone(passes: Passes, list: seq<Name>, done: set<Name>, d: Name)
    requires d in passes && d !in done
    ensures Open(passes, list, done) == Open(passes, list, done + {d}) + multiset(list)[d]
  {
    if list != [] {
      var front, last := list[..|list| - 1], list[|list| - 1];
      OpenDone(passes, front, done, d);
      assert list == front + [last];
    }
  }

  lemma {:induction false} OpenZero(passes: Passes, list: seq<Name>, done: set<Name>)
    ensures Open(passes, list, done) == 0 <==> forall d :: d in list && d in passes ==> d in done
  {
    if list != [] {
      var front, last := list[..|list| - 1], list[|list| - 1];
      OpenZero(passes, front, done);
      assert list == front + [last];
    }
  }

  // ----- Cycles -----

  lemma {:induction false} Pigeonhole(c: seq<Name>, s: set<Name>)
    requires |c| > |s| && forall k :: 0 <= k < |c| ==> c[k] in s
    ensures !Distinct(c)
    decreases |s|
  {
    var last := c[|c| - 1];
    if j :| 0 <= j < |c| - 1 && c[j] == last {
    } else {
      var front := c[..|c| - 1];
      Pigeonhole(front, s - {last});
      var i, j :| 0 <= i < j < |front| && front[i] == front[j];
      assert c[i] == c[j];
    }
  }

  ghost predicate DependsInto(passes: Passes, s: set<Name>, x: Name) {
    exists d :: d in s && DependsOn(passes, x, d)
  }

  /** Every member of the set depends on a member. */
  ghost predicate Stuck(passes: Passes, s: set<Name>) {
    forall x :: x in s ==> DependsInto(passes, s, x)
  }

  lemma OneStuck(passes: Passes, s: set<Name>, p: Name) returns (d: Name)
    requires p in s && Stuck(passes, s)
    ensures d in s && DependsOn(passes, p, d)
  {
    assert DependsInto(passes, s, p);
    hide Stuck;
    d :| d in s && DependsOn(passes, p, d);
  }

  /** Chains in such a set are as long as one likes. */
  lemma {:induction false} LongChain(passes: Passes, s: set<Name>, p: Name, n: nat) returns (c: seq<Name>)
    requires p in s && Stuck(passes, s)
    ensures |c| == n + 1 && c[0] == p && IsChain(passes, c) && forall k :: 0 <= k < |c| ==> c[k] in s
    decreases n
  {
    hide Stuck;
    c := [p];
    if n > 0 {
      var d := OneStuck(passes, s, p);
      var rest := LongChain(passes, s, d, n - 1);
      c := [p] + rest;
      forall k | 0 <= k < |c| - 1 ensures DependsOn(passes, c[k], c[k + 1]) {
        if k > 0 {
          assert c[k] == rest[k - 1] && c[k + 1] == rest[k];
        }
      }
    }
  }

  lemma StuckReachesCycle(passes: Passes, s: set<Name>, p: Name)
    requires p in s && Stuck(passes, s)
    ensures ReachesCycle(passes, p)
  {
    hide Stuck;
    var c := LongChain(passes, s, p, |s|);
    Pigeonhole(c, s);
  }

  /** Along a chain from an ordered pass, positions go down. */
  lemma {:induction false} ChainDescends(passes: Passes, order: seq<Name>, c: seq<Name>, n: nat) returns (i: nat)
    requires IsOrdered(passes, order) && IsChain(passes, c) && n < |c| && c[0] in order
    ensures i < |order| && order[i] == c[n]
    ensures forall m, j :: 0 <= m < n && 0 <= j < |order| && order[j] == c[m] ==> i < j
    decreases n
  {
    if n == 0 {
      i :| 0 <= i < |order| && order[i] == c[0];
    } else {
      var h := ChainDescends(passes, order, c, n - 1);
      assert DependsOn(passes, c[n - 1], c[n - 1 + 1]);
      assert c[n] in order[..h];
      i :| 0 <= i < h && order[i] == c[n];
    }
  }

  lemma OrderedReachesNoCycle(passes: Passes, order: seq<Name>, p: Name)
    requires IsOrdered(passes, order) && p in order
    ensures !ReachesCycle(passes, p)
  {
    forall c | |c| > 0 && c[0] == p && IsChain(passes, c) ensures Distinct(c) {
      forall m, n | 0 <= m < n < |c| ensures c[m] != c[n] {
        var i := ChainDescends(passes, order, c, n);
        var j := ChainDescends(passes, order, c, m);
      }
    }
  }

  // ----- The sort -----

  /** How often n stands in the list of d. */
  ghost function Mentions(adj: map<Name, seq<Name>>, d: Name, n: Name): nat {
    if d in adj then multiset(adj[d])[n] else 0
  }

  /** After the dependencies of the passes in known were entered: the in-degrees count them,
      and the adjacency lists name each dependent as often as it mentions the pass. */
  ghost predicate Entered(passes: Passes, known: set<Name>, adj: map<Name, seq<Name>>, inDegree: map<Name, nat>) {
    && adj.Keys == passes.Keys && inDegree.Keys == passes.Keys
    && (forall n :: n in passes ==> inDegree[n] == if n in known then Open(passes, passes[n], {}) else 0)
    && (forall d, n :: d in passes ==>
          Mentions(adj, d, n) == if n in known && n in passes then multiset(passes[n])[d] else 0)
  }

  lemma EnteredNext(passes: Passes, known: set<Name>, adj: map<Name, seq<Name>>, inDegree: map<Name, nat>, name: Name,
      adj': map<Name, seq<Name>>, inDegree': map<Name, nat>)
    requires Entered(passes, known, adj, inDegree) && name in passes && name !in known
    requires adj'.Keys == passes.Keys && inDegree' == inDegree[name := Open(passes, passes[name], {})]
    requires forall d, n :: d in passes ==>
               Mentions(adj', d, n) == Mentions(adj, d, n) + if n == name then multiset(passes[name])[d] else 0
    ensures Entered(passes, known + {name}, adj', inDegree')
  {
    hide Mentions;
  }

  lemma MentionsNext(adj: map<Name, seq<Name>>, dep: Name, name: Name)
    requires dep in adj
    ensures forall d, n :: d in adj ==>
              Mentions(adj[dep := adj[dep] + [name]], d, n) ==
              Mentions(adj, d, n) + if d == dep && n == name then 1 else 0
  {
  }

  /** The dependencies of one pass. */
  method EnterPass(passes: Passes, name: Name, adj0: map<Name, seq<Name>>, inDegree0: map<Name, nat>)
      returns (adj: map<Name, seq<Name>>, inDegree: map<Name, nat>)
    requires name in passes && adj0.Keys == passes.Keys && inDegree0.Keys == passes.Keys
    requires inDegree0[name] == 0
    ensures adj.Keys == passes.Keys && inDegree == inDegree0[name := Open(passes, passes[name], {})]
    ensures forall d, n :: d in passes ==>
              Mentions(adj, d, n) == Mentions(adj0, d, n) + if n == name then multiset(passes[name])[d] else 0
  {
    adj, inDegree := adj0, inDegree0;
    var deps := passes[name];
    for k := 0 to |deps|
      invariant adj.Keys == passes.Keys && inDegree == inDegree0[name := Open(passes, deps[..k], {})]
      invariant forall d, n :: d in passes ==>
                  Mentions(adj, d, n) == Mentions(adj0, d, n) + if n == name then multiset(deps[..k])[d] else 0
    {
      OpenNext(passes, deps, k, {});
      var dep := deps[k];
      if dep !in passes {
        continue;
      }
      MentionsNext(adj, dep, name);
      hide Mentions;
      adj := adj[dep := adj[dep] + [name]];
      inDegree := inDegree[name := inDegree[name] + 1];
    }
    assert deps[..|deps|] == deps;
  }

  method BuildGraph(passes: Passes) returns (adj: map<Name, seq<Name>>, inDegree: map<Name, nat>)
    ensures Entered(passes, passes.Keys, adj, inDegree)
  {
    adj := map n | n in passes :: [];
    inDegree := map n | n in passes :: 0;
    var pending := passes.Keys;
    assert passes.Keys - pending == {};
    assert Entered(passes, {}, adj, inDegree);
    hide Mentions;
    while pending != {}
      invariant pending <= passes.Keys
      invariant Entered(passes, passes.Keys - pending, adj, inDegree)
      decreases pending
    {
      var name :| name in pending;
      ghost var known := passes.Keys - pending;
      pending := pending - {name};
      assert passes.Keys - pending == known + {name};
      var adj', inDegree' := EnterPass(passes, name, adj, inDegree);
      EnteredNext(passes, known, adj, inDegree, name, adj', inDegree');
      adj, inDegree := adj', inDegree';
    }
  }

  // ----- The main loop -----

  /** order was taken off the queue; the dependents in rest, as often as they stand there,
      have not been told yet about the last pass of order. */
  ghost predicate Releasing(passes: Passes, order: seq<Name>, queue: seq<Name>, inDegree: map<Name, nat>,
      rest: seq<Name>) {
    && inDegree.Keys == passes.Keys
    && IsOrdered(passes, order) && Distinct(order + queue)
    && (forall n :: n in queue || n in rest ==> n in passes)
    && (forall n :: n in passes ==> inDegree[n] == Open(passes, passes[n], Elements(order)) + multiset(rest)[n])
    && (forall n :: n in passes ==> (inDegree[n] == 0 <==> n in order || n in queue))
  }

  lemma DistinctAppend(s: seq<Name>, x: Name)
    requires Distinct(s) && x !in s
    ensures Distinct(s + [x])
  {
  }

  /** A pass of which nothing is open can be appended to the order. */
  lemma OrderedAppend(passes: Passes, order: seq<Name>, name: Name)
    requires IsOrdered(passes, order) && name in passes && name !in order
    requires Open(passes, passes[name], Elements(order)) == 0
    ensures IsOrdered(passes, order + [name])
  {
    var order' := order + [name];
    DistinctAppend(order, name);
    OpenZero(passes, passes[name], Elements(order));
    forall k, d | 0 <= k < |order'| && DependsOn(passes, order'[k], d) ensures d in order'[..k] {
      assert order'[..k] == if k < |order| then order[..k] else order;
    }
  }

  lemma DistinctSplit(order: seq<Name>, queue: seq<Name>)
    requires Distinct(order + queue) && queue != []
    ensures queue[0] !in order && Distinct(order + [queue[0]] + queue[1..])
    ensures forall n :: n in order + queue <==> n in order + [queue[0]] + queue[1..]
  {
    assert order + queue == order + [queue[0]] + queue[1..];
    forall i | 0 <= i < |order| ensures order[i] != queue[0] {
      assert (order + queue)[i] != (order + queue)[|order|];
    }
  }

  /** The first pass of the queue is appended to the order: all it depends on is there. */
  lemma TakeNext(passes: Passes, order: seq<Name>, queue: seq<Name>, adj: map<Name, seq<Name>>,
      inDegree: map<Name, nat>, inDegree0: map<Name, nat>)
    requires Releasing(passes, order, queue, inDegree, []) && queue != []
    requires Entered(passes, passes.Keys, adj, inDegree0)
    ensures queue[0] in passes
    ensures Releasing(passes, order + [queue[0]], queue[1..], inDegree, adj[queue[0]])
  {
    var name := queue[0];
    var order' := order + [name];
    DistinctSplit(order, queue);
    assert name in queue && name in passes && inDegree[name] == 0;
    OrderedAppend(passes, order, name);
    assert Elements(order') == Elements(order) + {name};
    forall n | n in passes ensures inDegree[n] == Open(passes, passes[n], Elements(order')) + multiset(adj[name])[n] {
      OpenDone(passes, passes[n], Elements(order), name);
      assert Mentions(adj, name, n) == multiset(passes[n])[name];
    }
    forall n | n in queue[1..] || n in adj[name] ensures n in passes {
      assert n in adj[name] ==> Mentions(adj, name, n) > 0;
    }
    forall n | n in passes ensures n in order || n in queue <==> n in order' || n in queue[1..] {
      assert n in order + queue <==> n in order' + queue[1..];
    }
  }

  /** One dependent is told; it is queued when nothing it depends on is open. */
  lemma ReleaseOne(passes: Passes, order: seq<Name>, queue: seq<Name>, inDegree: map<Name, nat>, rest: seq<Name>)
    requires Releasing(passes, order, queue, inDegree, rest) && rest != []
    ensures var d := rest[0];
            && d in inDegree && inDegree[d] > 0
            && Releasing(passes, order, if inDegree[d] == 1 then queue + [d] else queue,
                         inDegree[d := inDegree[d] - 1], rest[1..])
  {
    hide IsOrdered, Open;
    var d := rest[0];
    assert rest == [d] + rest[1..];
    assert multiset(rest) == multiset{d} + multiset(rest[1..]);
    assert d in rest;
    assert inDegree[d] > 0;
    if inDegree[d] == 1 {
      DistinctAppend(order + queue, d);
      assert order + queue + [d] == order + (queue + [d]);
    }
  }

  method Release(passes: Passes, dependents: seq<Name>, queue0: seq<Name>, inDegree0: map<Name, nat>,
      ghost order: seq<Name>)
      returns (queue: seq<Name>, inDegree: map<Name, nat>)
    requires Releasing(passes, order, queue0, inDegree0, dependents)
    ensures Releasing(passes, order, queue, inDegree, [])
  {
    hide Releasing;
    queue, inDegree := queue0, inDegree0;
    assert dependents[0..] == dependents;
    for j := 0 to |dependents|
      invariant Releasing(passes, order, queue, inDegree, dependents[j..])
    {
      var dependent := dependents[j];
      ReleaseOne(passes, order, queue, inDegree, dependents[j..]);
      assert dependents[j..][0] == dependent && dependents[j..][1..] == dependents[j + 1..];
      inDegree := inDegree[dependent := inDegree[dependent] - 1];
      if inDegree[dependent] == 0 {
        queue := queue + [dependent];
      }
    }
    assert dependents[|dependents|..] == [];
  }

  /** The passes without registered dependencies, in any order. */
  method CollectRoots(passes: Passes, inDegree: map<Name, nat>) returns (queue: seq<Name>)
    requires inDegree.Keys == passes.Keys
    ensures Distinct(queue) && forall n :: n in queue <==> n in passes && inDegree[n] == 0
  {
    queue := [];
    var pending := passes.Keys;
    while pending != {}
      invariant pending <= passes.Keys && Distinct(queue)
      invariant forall n :: n in queue <==> n in passes && n !in pending && inDegree[n] == 0
      decreases pending
    {
      var name :| name in pending;
      pending := pending - {name};
      if inDegree[name] == 0 {
        DistinctAppend(queue, name);
        queue := queue + [name];
      }
    }
  }

  /** An order without repetitions is no longer than there are passes. */
  lemma OrderBounded(passes: Passes, order: seq<Name>, queue: seq<Name>, inDegree: map<Name, nat>, rest: seq<Name>)
    requires Releasing(passes, order, queue, inDegree, rest)
    ensures |order| <= |passes| && IsOrdered(passes, order)
  {
    if |order| > |passes.Keys| {
      Pigeonhole(order, passes.Keys);
    }
  }

  /** When the queue is empty, what is missing from the order depends on a cycle. */
  lemma MissingReachesCycle(passes: Passes, order: seq<Name>, inDegree: map<Name, nat>, p: Name)
    requires Releasing(passes, order, [], inDegree, []) && p in passes
    ensures p in order <==> !ReachesCycle(passes, p)
  {
    if p in order {
      OrderedReachesNoCycle(passes, order, p);
    } else {
      var s := passes.Keys - Elements(order);
      forall x | x in s ensures DependsInto(passes, s, x) {
        OpenZero(passes, passes[x], Elements(order));
        var d :| d in passes[x] && d in passes && d !in Elements(order);
        assert DependsOn(passes, x, d);
      }
      StuckReachesCycle(passes, s, p);
    }
  }

  lemma BeginSort(passes: Passes, queue: seq<Name>, adj: map<Name, seq<Name>>, inDegree: map<Name, nat>)
    requires Entered(passes, passes.Keys, adj, inDegree)
    requires Distinct(queue) && forall n :: n in queue <==> n in passes && inDegree[n] == 0
    ensures Releasing(passes, [], queue, inDegree, [])
  {
    hide Mentions;
    assert [] + queue == queue && Elements([]) == {};
  }

  /** Whatever order the queue starts in: the passes that reach no dependency cycle, each
      once and behind all its registered dependencies. */
  method TopologicalSort(passes: Passes) returns (order: seq<Name>)
    ensures IsOrdered(passes, order)
    ensures forall p :: p in passes ==> (p in order <==> !ReachesCycle(passes, p))
  {
    var adj, inDegree := BuildGraph(passes);
    var queue := CollectRoots(passes, inDegree);
    order := [];
    BeginSort(passes, queue, adj, inDegree);
    hide Releasing, Entered, IsOrdered;
    ghost var entered := inDegree;
    while queue != []
      invariant Releasing(passes, order, queue, inDegree, [])
      decreases |passes| - |order|
    {
      TakeNext(passes, order, queue, adj, inDegree, entered);
      OrderBounded(passes, order + [queue[0]], queue[1..], inDegree, adj[queue[0]]);
      var name := queue[0];
      order := order + [name];
      queue, inDegree := Release(passes, adj[name], queue[1..], inDegree, order);
    }
    forall p | p in passes ensures p in order <==> !ReachesCycle(passes, p) {
      MissingReachesCycle(passes, order, inDegree, p);
    }
    OrderBounded(passes, order, [], inDegree, []);
  }

  lemma {:induction false} DistinctSize(s: seq<Name>)
    requires Distinct(s)
    ensures |Elements(s)| == |s|
  {
    if s != [] {
      var front, last := s[..|s| - 1], s[|s| - 1];
      assert s == front + [last];
      assert forall i :: 0 <= i < |front| ==> front[i] == s[i] != last;
      DistinctSize(front);
      assert Elements(s) == Elements(front) + {last};
    }
  }

  lemma SubsetSameSize(a: set<Name>, b: set<Name>)
    requires a <= b && |a| == |b|
    ensures a == b
  {
    assert |b - a| == 0;
  }

  /** Every registered pass is ordered exactly when no pass reaches a cycle. */
  lemma AllOrderedIffAcyclic(passes: Passes, order: seq<Name>)
    requires IsOrdered(passes, order)
    requires forall p :: p in passes ==> (p in order <==> !ReachesCycle(passes, p))
    ensures |order| == |passes| <==> forall p :: p in passes ==> !ReachesCycle(passes, p)
  {
    DistinctSize(order);
    assert Elements(order) <= passes.Keys;
    if |order| == |passes| {
      SubsetSameSize(Elements(order), passes.Keys);
    } else {
      assert Elements(order) != passes.Keys;
      var p :| p in passes && p !in Elements(order);
    }
  }

  // ----- Running the passes -----

  datatype Phase = PreRun | Run | PostRun

  datatype Event = Event(name: Name, phase: Phase, ok: bool)

  function PhaseAt(k: nat): Phase {
    if k % 3 == 0 then PreRun else if k % 3 == 1 then Run else PostRun
  }

  /** The log calls the three phases of each pass in order; every call but the last
      returned true. */
  ghost predicate Follows(order: seq<Name>, log: seq<Event>) {
    && |log| <= 3 * |order|
    && (forall k :: 0 <= k < |log| ==> log[k].name == order[k / 3] && log[k].phase == PhaseAt(k))
    && (forall k :: 0 <= k < |log| - 1 ==> log[k].ok)
  }

  /** Every call returned what it does after the calls before it. */
  ghost predicate Answers(behave: (Name, Phase, seq<Event>) -> bool, log: seq<Event>) {
    forall k :: 0 <= k < |log| ==> log[k].ok == behave(log[k].name, log[k].phase, log[..k])
  }

  ghost predicate AllOk(log: seq<Event>) {
    forall k :: 0 <= k < |log| ==> log[k].ok
  }

  lemma LogNext(behave: (Name, Phase, seq<Event>) -> bool, order: seq<Name>, log: seq<Event>, i: nat, j: nat, ok: bool)
    requires Follows(order, log) && Answers(behave, log) && AllOk(log)
    requires i < |order| && j < 3 && |log| == 3 * i + j
    requires ok == behave(order[i], PhaseAt(j), log)
    ensures var log' := log + [Event(order[i], PhaseAt(j), ok)];
            Follows(order, log') && Answers(behave, log') && (ok ==> AllOk(log'))
  {
    var log' := log + [Event(order[i], PhaseAt(j), ok)];
    assert PhaseAt(|log|) == PhaseAt(j) && |log| / 3 == i;
    forall k | 0 <= k < |log'| ensures log'[k].ok == behave(log'[k].name, log'[k].phase, log'[..k]) {
      assert log'[..k] == log[..k];
      assert log[..|log|] == log;
    }
  }

  /** A Run comes directly behind the PreRun of the same pass, which returned true, and a PostRun
      behind such a Run. A PreRun is the first call of all, or comes behind a PostRun that returned
      true. */
  ghost predicate StagedAt(log: seq<Event>, k: nat)
    requires k < |log|
  {
    match log[k].phase
    case PreRun => k == 0 || (log[k - 1].phase.PostRun? && log[k - 1].ok)
    case Run => k > 0 && log[k - 1] == Event(log[k].name, PreRun, true)
    case PostRun => k > 0 && log[k - 1] == Event(log[k].name, Run, true)
  }

  ghost predicate Staged(log: seq<Event>) {
    forall k :: 0 <= k < |log| ==> StagedAt(log, k)
  }

  lemma FollowsStaged(order: seq<Name>, log: seq<Event>)
    requires Follows(order, log)
    ensures Staged(log)
  {
    forall k | 0 <= k < |log| ensures StagedAt(log, k) {
      if k > 0 {
        assert log[k - 1].ok && log[k - 1].phase == PhaseAt(k - 1);
        assert k % 3 != 0 ==> k / 3 == (k - 1) / 3;
      }
    }
  }

  /** Calls phase j of the i-th pass. */
  method Call(behave: (Name, Phase, seq<Event>) -> bool, order: seq<Name>, i: nat, j: nat, log0: seq<Event>)
      returns (ok: bool, log: seq<Event>)
    requires Follows(order, log0) && Answers(behave, log0) && AllOk(log0)
    requires i < |order| && j < 3 && |log0| == 3 * i + j
    ensures ok == behave(order[i], PhaseAt(j), log0) && log == log0 + [Event(order[i], PhaseAt(j), ok)]
    ensures Follows(order, log) && Answers(behave, log) && Staged(log) && (ok ==> AllOk(log))
  {
    ok := behave(order[i], PhaseAt(j), log0);
    log := log0 + [Event(order[i], PhaseAt(j), ok)];
    LogNext(behave, order, log0, i, j, ok);
    FollowsStaged(order, log);
  }

  /** Runs the passes in dependency order and stops at the first call that returns false.
      What a call returns may depend on everything that was called before. */
  method RunAll(passes: Passes, behave: (Name, Phase, seq<Event>) -> bool)
        returns (ok: bool, log: seq<Event>, order: seq<Name>)
    ensures IsOrdered(passes, order)
    ensures forall p :: p in passes ==> (p in order <==> !ReachesCycle(passes, p))
    ensures Follows(order, log) && Answers(behave, log) && Staged(log)
    ensures ok <==> order != [] && |log| == 3 * |order| && log[|log| - 1].ok
    ensures !ok ==> order == [] || (log != [] && !log[|log| - 1].ok)
  {
    order := TopologicalSort(passes);
    ok, log := false, [];
    assert Follows(order, log) && Answers(behave, log) && AllOk(log);
    hide Follows, Answers, Staged, IsOrdered, ReachesCycle;
    for i := 0 to |order|
      invariant |log| == 3 * i && Follows(order, log) && Answers(behave, log) && AllOk(log)
      invariant ok <==> i > 0
    {
      ok, log := Call(behave, order, i, 0, log);
      if !ok {
        return;
      }
      ok, log := Call(behave, order, i, 1, log);
      if !ok {
        return;
      }
      ok, log := Call(behave, order, i, 2, log);
      if !ok {
        return;
      }
    }
    FollowsStaged(order, log);
  }

  /** No pass is started before every registered dependency has finished successfully. */
  lemma DependenciesFinished(passes: Passes, order: seq<Name>, log: seq<Event>, k: nat, d: Name)
    requires IsOrdered(passes, order) && Follows(order, log)
    requires k < |log| && log[k].phase.PreRun? && DependsOn(passes, log[k].name, d)
    ensures exists j :: 0 <= j < k && log[j] == Event(d, PostRun, true)
  {
    var i := k / 3;
    assert d in order[..i];
    var h :| 0 <= h < i && order[h] == d;
    var j := 3 * h + 2;
    assert j < k && j / 3 == h && log[j].phase == PhaseAt(j);
    assert log[j] == Event(d, PostRun, true);
  }
}
