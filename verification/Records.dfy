/** The recorded functions of a module: what holds of each, that their bytes do not
    overlap, and that no call target is lost. */
module Records {
  import opened Blocks
  import opened ControlFlow
  import opened Descent
  import opened Image
  import opened Layout
  import opened Options

  /** A function as the module keeps it after it was analysed. */
  datatype FunctionRecord = FunctionRecord(start: Address, end: Address, blocks: seq<Block>,
      sites: set<(Address, Address)>)

  /** x is a byte of one of these instructions. */
  ghost predicate BelongsTo(bin: Binary, insns: set<Address>, x: Address) {
    exists a :: a in insns && bin.Decodes(a) && a <= x < bin.Next(a)
  }

  /** Each of these instructions that is a call is a call site with its target, and every
      call site is one of these instructions with its target, or with 0 for an unknown one. */
  ghost predicate SitesRight(bin: Binary, insns: set<Address>, sites: set<(Address, Address)>) {
    && (forall x :: x in insns && bin.Decodes(x) && bin.decode(x).value.category.Call? ==>
          (x, bin.CallTarget(x)) in sites)
    && (forall site :: site in sites ==>
          site.0 in insns && bin.Decodes(site.0) && (site.1 == 0 || site.1 == bin.CallTarget(site.0)))
  }

  /** Every byte of the function belongs to one of its own instructions; each of its calls
      is among its call sites; its blocks are in normal form if its instructions do not
      overlap; and its predecessor lists are right. */
  ghost predicate RecordLaid(bin: Binary, f: FunctionRecord, own: set<Address>) {
    && (forall x :: Covered(f.blocks, x) ==> BelongsTo(bin, own, x))
    && SitesRight(bin, own, f.sites)
    && (NoOverlap(bin, own) ==> Separate(f.blocks) && NormalForm(f.blocks))
    && PredsComplete(f.blocks) && PredsSound(f.blocks)
  }

  /** The recorded functions with the instructions that each one owns: every visited
      instruction has exactly one owner. */
  ghost predicate Filed(bin: Binary, visited: set<Address>, functions: seq<FunctionRecord>, owned: seq<set<Address>>) {
    && |functions| == |owned|
    && (forall k :: 0 <= k < |functions| ==> RecordLaid(bin, functions[k], owned[k]) && owned[k] <= visited)
    && (forall j, k :: 0 <= j < k < |owned| ==> owned[j] !! owned[k])
    && (forall x :: x in visited ==> exists k :: 0 <= k < |owned| && x in owned[k])
  }

  lemma NoOverlapSubset(bin: Binary, insns: set<Address>, more: set<Address>)
    requires insns <= more && NoOverlap(bin, more)
    ensures NoOverlap(bin, insns)
  {
    assert forall a :: a in insns ==> a in more;
  }

  lemma OneInstruction(bin: Binary, visited: set<Address>, own: set<Address>, own': set<Address>, x: Address)
    requires NoOverlap(bin, visited) && own <= visited && own' <= visited
    requires BelongsTo(bin, own, x) && BelongsTo(bin, own', x)
    ensures !(own !! own')
  {
    var a :| a in own && bin.Decodes(a) && a <= x < bin.Next(a);
    var b :| b in own' && bin.Decodes(b) && b <= x < bin.Next(b);
    assert a in visited && b in visited;
    assert a == b;
  }

  /** If visited instructions do not overlap, no byte belongs to two functions and every
      function is in normal form. */
  lemma FiledApart(bin: Binary, visited: set<Address>, functions: seq<FunctionRecord>, owned: seq<set<Address>>)
    requires Filed(bin, visited, functions, owned) && NoOverlap(bin, visited)
    ensures forall k :: 0 <= k < |functions| ==> Separate(functions[k].blocks) && NormalForm(functions[k].blocks)
    ensures forall j, k, x :: 0 <= j < k < |functions| && Covered(functions[j].blocks, x) ==>
              !Covered(functions[k].blocks, x)
  {
    forall k | 0 <= k < |functions| ensures Separate(functions[k].blocks) && NormalForm(functions[k].blocks) {
      NoOverlapSubset(bin, owned[k], visited);
      assert RecordLaid(bin, functions[k], owned[k]);
    }
    forall j, k, x | 0 <= j < k < |functions| && Covered(functions[j].blocks, x)
      ensures !Covered(functions[k].blocks, x) {
      if Covered(functions[k].blocks, x) {
        assert RecordLaid(bin, functions[j], owned[j]) && RecordLaid(bin, functions[k], owned[k]);
        assert BelongsTo(bin, owned[j], x) && BelongsTo(bin, owned[k], x);
        OneInstruction(bin, visited, owned[j], owned[k], x);
      }
    }
  }

  /** Recording the function that an analysis has just produced. */
  lemma FileNew(bin: Binary, c: Scope, visited: set<Address>, functions: seq<FunctionRecord>, owned: seq<set<Address>>,
      raw: seq<Block>, f: FunctionRecord)
    requires Filed(bin, c.before, functions, owned) && c.bin == bin && c.before <= visited
    requires Laid(c, visited, raw, {}) && SameBytes(raw, f.blocks)
    requires NoOverlap(bin, visited - c.before) ==> Normalised(raw, f.blocks)
    requires PredsComplete(f.blocks) && PredsSound(f.blocks)
    requires SitesRight(bin, visited - c.before, f.sites)
    ensures Filed(bin, visited, functions + [f], owned + [visited - c.before])
  {
    var own := visited - c.before;
    var all := owned + [own];
    forall x | x in visited ensures exists k :: 0 <= k < |all| && x in all[k] {
      if x in c.before {
        var k :| 0 <= k < |owned| && x in owned[k];
        assert x in all[k];
      } else {
        assert x in all[|owned|];
      }
    }
    forall x | Covered(f.blocks, x) ensures BelongsTo(bin, own, x) {
      assert Covered(raw, x);
      var i :| 0 <= i < |raw| && raw[i].Holds(x);
      var a := HeldByOwn(c, raw[i], x);
      assert a in own;
    }
    assert RecordLaid(bin, f, own);
  }

  /** The lookup table holds ends of recorded functions. */
  ghost predicate TableOf(known: map<Address, Address>, functions: seq<FunctionRecord>) {
    forall s :: s in known ==>
      exists k :: 0 <= k < |functions| && functions[k].start == s && functions[k].end == known[s]
  }

  ghost predicate InRange(functions: seq<FunctionRecord>, a: Address) {
    exists k :: 0 <= k < |functions| && functions[k].start <= a < functions[k].end
  }

  lemma RecordedInRange(known: map<Address, Address>, functions: seq<FunctionRecord>, a: Address)
    requires TableOf(known, functions) && InRecorded(known, a)
    ensures InRange(functions, a)
  {
    var s :| s in known && s <= a < known[s];
    var k :| 0 <= k < |functions| && functions[k].start == s && functions[k].end == known[s];
  }

  lemma IndexNew(known: map<Address, Address>, functions: seq<FunctionRecord>, f: FunctionRecord)
    requires TableOf(known, functions)
    ensures TableOf(known[f.start := f.end], functions + [f])
    ensures forall a :: InRange(functions, a) ==> InRange(functions + [f], a)
  {
    var all := functions + [f];
    assert all[|functions|] == f;
    assert forall k :: 0 <= k < |functions| ==> all[k] == functions[k];
  }

  // ----- How the records came about -----

  /** The instruction at x is a call site with this target, where 0 stands for one that is not
      known: every call; a leading jump, if it is direct; any other direct jump into a recorded
      function; and any other branch through a register or memory. */
  ghost predicate SiteAt(c: Scope, x: Address, t: Address) {
    c.bin.Decodes(x) &&
    var i := c.bin.decode(x).value;
    var throughOperand := !i.Op(0).ImmOp? && !i.Op(0).Unused?;
    match i.category
    case Call => t == c.bin.CallTarget(x)
    case UncondBranch =>
      if x == c.entry then i.Op(0).ImmOp? && t == c.bin.CallTarget(x)
      else (GoesTo(c.bin, x, t) && InRecorded(c.known, t)) || (throughOperand && t == 0)
    case CondBranch => throughOperand && t == 0
    case _ => false
  }

  /** The call sites are exactly those of these instructions. */
  ghost predicate SitesExact(c: Scope, insns: set<Address>, sites: set<(Address, Address)>) {
    forall x: Address, t: Address :: (x, t) in sites <==> x in insns && SiteAt(c, x, t)
  }

  /** The function has the blocks that were laid out (raw), split at entries, and ends where the one
      that was closed last does. */
  ghost predicate LaidOut(c: Scope, visited: set<Address>, raw: seq<Block>, f: FunctionRecord) {
    && Laid(c, visited, raw, {}) && WellFormed(raw) && Refines(raw, f.blocks, EntrySet(raw))
    && f.end == LastEnd(c.entry, raw)
    && (NoOverlap(c.bin, visited - c.before) ==> Normalised(raw, f.blocks))
  }

  /** What the analysis of a function in this scope leaves: exactly the reached instructions visited,
      laid out in blocks and split at entries, and its call sites. */
  ghost predicate Analysed(c: Scope, visited: set<Address>, f: FunctionRecord) {
    && f.start == c.entry && (forall x :: x in visited <==> x in c.before || c.Reached(x))
    && SitesExact(c, visited - c.before, f.sites)
    && PredsComplete(f.blocks) && PredsSound(f.blocks)
    && exists raw :: LaidOut(c, visited, raw, f)
  }

  /** The table by start that these functions leave, recorded in this order. */
  ghost function Table(functions: seq<FunctionRecord>): map<Address, Address> {
    if functions == [] then map[]
    else
      var f := functions[|functions| - 1];
      Table(functions[..|functions| - 1])[f.start := f.end]
  }

  ghost function AllOwned(owned: seq<set<Address>>): set<Address> {
    if owned == [] then {} else AllOwned(owned[..|owned| - 1]) + owned[|owned| - 1]
  }

  /** A function is begun at an address that was not visited and is in no recorded function. */
  ghost predicate IsNew(c: Scope) {
    c.entry !in c.before && !InRecorded(c.known, c.entry)
  }

  /** The k-th function was analysed when the functions before it had been recorded and their
      instructions visited, and it owns what that added. */
  ghost predicate AnalysedInTurn(bin: Binary, functions: seq<FunctionRecord>, owned: seq<set<Address>>, k: nat)
    requires k < |functions| == |owned|
  {
    var c := Scope(bin, Table(functions[..k]), AllOwned(owned[..k]), functions[k].start);
    IsNew(c) && Analysed(c, AllOwned(owned[..k + 1]), functions[k])
  }

  ghost predicate AllInTurn(bin: Binary, functions: seq<FunctionRecord>, owned: seq<set<Address>>) {
    |functions| == |owned| && forall k :: 0 <= k < |functions| ==> AnalysedInTurn(bin, functions, owned, k)
  }

  lemma TurnNext(bin: Binary, functions: seq<FunctionRecord>, owned: seq<set<Address>>, f: FunctionRecord,
      visited: set<Address>)
    requires AllInTurn(bin, functions, owned) && AllOwned(owned) <= visited
    requires var c := Scope(bin, Table(functions), AllOwned(owned), f.start); IsNew(c) && Analysed(c, visited, f)
    ensures AllInTurn(bin, functions + [f], owned + [visited - AllOwned(owned)])
    ensures Table(functions + [f]) == Table(functions)[f.start := f.end]
    ensures AllOwned(owned + [visited - AllOwned(owned)]) == visited
  {
    hide Analysed, IsNew;
    var F, O := functions + [f], owned + [visited - AllOwned(owned)];
    assert F[..|functions|] == functions && O[..|owned|] == owned;
    assert AllOwned(O) == visited;
    hide AllOwned, Table;
    forall k | 0 <= k < |F| ensures AnalysedInTurn(bin, F, O, k) {
      if k < |functions| {
        assert AnalysedInTurn(bin, functions, owned, k);
        assert F[..k] == functions[..k] && O[..k] == owned[..k] && O[..k + 1] == owned[..k + 1];
      } else {
        assert O[..k + 1] == O;
      }
    }
  }

  /** One of the first n functions owns the address. */
  ghost predicate OwnedBefore(owned: seq<set<Address>>, n: nat, x: Address) {
    exists k :: 0 <= k < n && k < |owned| && x in owned[k]
  }

  lemma FiledOwned(bin: Binary, visited: set<Address>, functions: seq<FunctionRecord>, owned: seq<set<Address>>)
    requires Filed(bin, visited, functions, owned)
    ensures |owned| == |functions| && forall x :: x in visited <==> OwnedBefore(owned, |functions|, x)
  {
  }

  lemma OwnedStill(owned: seq<set<Address>>, more: seq<set<Address>>)
    requires owned <= more
    ensures forall x :: OwnedBefore(owned, |owned|, x) <==> OwnedBefore(more, |owned|, x)
  {
    assert forall k :: 0 <= k < |owned| ==> owned[k] == more[k];
  }

  // ----- Nothing that was called is lost -----

  /** The call sites after a visit of x, from those before: only its own may go or come. */
  ghost predicate SitesStep(c: Scope, x: Address, sites: set<(Address, Address)>, sites': set<(Address, Address)>) {
    && (forall y: Address, t: Address :: y != x ==> ((y, t) in sites' <==> (y, t) in sites))
    && ((forall t :: (x, t) !in sites) ==> forall t: Address :: (x, t) in sites' <==> SiteAt(c, x, t))
  }

  /** The instruction at x calls the function at y, or jumps there from behind the entry, and no
      recorded function is known to hold that. */
  ghost predicate Calls(c: Scope, x: Address, y: Address) {
    && c.bin.Decodes(x) && GoesTo(c.bin, x, y)
    && (c.bin.decode(x).value.category.Call?
        || (c.bin.decode(x).value.category.UncondBranch? && x != c.entry && !InRecorded(c.known, y)))
  }

  ghost predicate CalleesQueued(c: Scope, x: Address, visited: set<Address>, queue: seq<Address>) {
    forall y: Address :: Calls(c, x, y) ==> y in visited || y in queue
  }

  /** What is kept of the visited instructions: the call sites, and the queue, which holds what they
      call unless that was visited. */
  ghost predicate Noted(c: Scope, visited: set<Address>, sites: set<(Address, Address)>, queue: seq<Address>) {
    && SitesExact(c, visited - c.before, sites)
    && forall x :: x in visited - c.before ==> CalleesQueued(c, x, visited, queue)
  }

  lemma NothingNoted(c: Scope, queue: seq<Address>)
    ensures Noted(c, c.before, {}, queue)
  {
    assert c.before - c.before == {};
  }

  lemma CallQueues(c: Scope, x: Address, visited: set<Address>, queue: seq<Address>)
    requires c.bin.Valid() && c.bin.Decodes(x)
    requires c.bin.CodeTarget(x).None? || c.bin.CodeTarget(x).value in visited || c.bin.CodeTarget(x).value in queue
    ensures CalleesQueued(c, x, visited, queue)
  {
    forall y: Address | Calls(c, x, y) ensures c.bin.CodeTarget(x) == Some(y) {
      CodeTargetGoesTo(c.bin, x, y);
    }
  }

  lemma BranchQueues(c: Scope, x: Address, visited: set<Address>, queue: seq<Address>)
    requires c.bin.Valid() && c.bin.Decodes(x) && c.bin.decode(x).value.EndsBlock()
    requires c.bin.decode(x).value.category.UncondBranch? ==> forall a :: a in Pushed(c, visited, x) ==> a in queue
    ensures CalleesQueued(c, x, visited, queue)
  {
    forall y: Address | Calls(c, x, y) ensures y in visited || y in queue {
      CodeTargetGoesTo(c.bin, x, y);
      hide GoesTo;
      assert y !in visited ==> y in Pushed(c, visited, x);
    }
  }

  lemma OtherQueues(c: Scope, x: Address, visited: set<Address>, queue: seq<Address>)
    requires c.bin.Decodes(x) && !c.bin.decode(x).value.category.Call?
    requires c.bin.decode(x).value.category.UncondBranch? ==> x == c.entry
    ensures CalleesQueued(c, x, visited, queue)
  {
  }

  lemma CallStep(c: Scope, x: Address, sites: set<(Address, Address)>)
    requires c.bin.Decodes(x) && c.bin.decode(x).value.category.Call?
    ensures SitesStep(c, x, sites, sites - {(x, 0)} + {(x, c.bin.CallTarget(x))})
  {
  }

  lemma JumpSiteAt(c: Scope, x: Address, t: Address)
    requires c.bin.Valid() && c.bin.Decodes(x) && !c.IsTrampoline(x)
    requires c.bin.decode(x).value.category.CondBranch? || c.bin.decode(x).value.category.UncondBranch?
    ensures SiteAt(c, x, t) <==> JumpSite(c, x) == Some(t)
  {
    CodeTargetGoesTo(c.bin, x, t);
    hide InRecorded, GoesTo;
  }

  lemma BranchStep(c: Scope, x: Address, sites: set<(Address, Address)>)
    requires c.bin.Valid() && c.bin.Decodes(x) && !c.IsTrampoline(x)
    requires c.bin.decode(x).value.category.CondBranch? || c.bin.decode(x).value.category.UncondBranch?
    ensures SitesStep(c, x, sites, WithSite(sites, x, JumpSite(c, x)))
  {
    hide SiteAt, JumpSite;
    forall t: Address ensures SiteAt(c, x, t) <==> JumpSite(c, x) == Some(t) {
      JumpSiteAt(c, x, t);
    }
  }

  lemma TrampolineStep(c: Scope, x: Address, sites: set<(Address, Address)>)
    requires c.bin.Decodes(x) && c.bin.decode(x).value.category.UncondBranch? && x == c.entry
    ensures SitesStep(c, x, sites, WithSite(sites, x, c.bin.DirectTarget(x)))
  {
  }

  lemma OtherStep(c: Scope, x: Address, sites: set<(Address, Address)>)
    requires c.bin.Decodes(x) && !c.bin.decode(x).value.category.Call?
    requires !c.bin.decode(x).value.category.CondBranch? && !c.bin.decode(x).value.category.UncondBranch?
    ensures SitesStep(c, x, sites, sites)
  {
  }

  lemma CalleesStill(c: Scope, x: Address, visited: set<Address>, queue: seq<Address>, visited': set<Address>,
      queue': seq<Address>)
    requires CalleesQueued(c, x, visited, queue) && visited <= visited' && queue <= queue'
    ensures CalleesQueued(c, x, visited', queue')
  {
    assert forall y :: y in queue ==> y in queue';
  }

  lemma SitesExactNext(c: Scope, visited: set<Address>, sites: set<(Address, Address)>,
      x: Address, sites': set<(Address, Address)>)
    requires SitesExact(c, visited - c.before, sites) && x !in visited && c.before <= visited
    requires SitesStep(c, x, sites, sites')
    ensures SitesExact(c, visited + {x} - c.before, sites')
  {
    hide SiteAt;
    assert x in visited + {x} - c.before;
    assert forall t :: (x, t) !in sites;
  }

  lemma NotedNext(c: Scope, visited: set<Address>, sites: set<(Address, Address)>, queue: seq<Address>,
      x: Address, sites': set<(Address, Address)>, queue': seq<Address>)
    requires Noted(c, visited, sites, queue) && x !in visited && c.before <= visited && queue <= queue'
    requires SitesStep(c, x, sites, sites') && CalleesQueued(c, x, visited + {x}, queue')
    ensures Noted(c, visited + {x}, sites', queue')
  {
    SitesExactNext(c, visited, sites, x, sites');
    hide SitesExact, SitesStep, CalleesQueued;
    forall y | y in visited + {x} - c.before ensures CalleesQueued(c, y, visited + {x}, queue') {
      if y != x {
        assert y in visited - c.before;
        CalleesStill(c, y, visited, queue, visited + {x}, queue');
      }
    }
  }

  /** In particular every call is a call site with its target, and every call site has the target
      of its instruction, or 0. */
  lemma NotedRight(c: Scope, visited: set<Address>, sites: set<(Address, Address)>, queue: seq<Address>)
    requires c.bin.Valid() && Noted(c, visited, sites, queue)
    ensures SitesExact(c, visited - c.before, sites) && SitesRight(c.bin, visited - c.before, sites)
  {
    hide CalleesQueued;
    forall site | site in sites
      ensures site.0 in visited - c.before && c.bin.Decodes(site.0)
              && (site.1 == 0 || site.1 == c.bin.CallTarget(site.0))
    {
      assert (site.0, site.1) in sites;
      CodeTargetGoesTo(c.bin, site.0, site.1);
    }
  }

  /** The address was visited, is queued, lies in a recorded function, or cannot be decoded. */
  ghost predicate Found(bin: Binary, visited: set<Address>, queue: seq<Address>, functions: seq<FunctionRecord>,
      a: Address) {
    a in visited || a in queue || InRange(functions, a) || !bin.IsWithinMapping(a) || !bin.Decodes(a)
  }

  /** The same, or it is not executable. */
  ghost predicate Accounted(bin: Binary, visited: set<Address>, queue: seq<Address>, functions: seq<FunctionRecord>,
      a: Address) {
    Found(bin, visited, queue, functions, a) || !bin.IsExecutableAddress(a)
  }

  /** Every known target among the sites is found, executable or not. */
  ghost predicate SitesFound(bin: Binary, visited: set<Address>, queue: seq<Address>,
      functions: seq<FunctionRecord>, sites: set<(Address, Address)>) {
    forall site :: site in sites && site.1 != 0 ==> Found(bin, visited, queue, functions, site.1)
  }

  /** All call sites of the functions from the n-th one on, and all of these addresses. */
  ghost predicate AllFound(bin: Binary, visited: set<Address>, queue: seq<Address>,
      functions: seq<FunctionRecord>, n: nat, addresses: seq<Address>) {
    && (forall k :: n <= k < |functions| ==> SitesFound(bin, visited, queue, functions, functions[k].sites))
    && (forall a :: a in addresses ==> Found(bin, visited, queue, functions, a))
  }

  lemma FoundMore(bin: Binary, V: set<Address>, Q: seq<Address>, F: seq<FunctionRecord>, n: nat, As: seq<Address>,
      V': set<Address>, Q': seq<Address>, F': seq<FunctionRecord>)
    requires AllFound(bin, V, Q, F, n, As) && n <= |F|
    requires V <= V' && F <= F' && forall a :: InRange(F, a) ==> InRange(F', a)
    requires forall a :: a in Q ==> Found(bin, V', Q', F', a)
    requires forall k :: |F| <= k < |F'| ==> SitesFound(bin, V', Q', F', F'[k].sites)
    ensures AllFound(bin, V', Q', F', n, As)
  {
    assert forall a :: Found(bin, V, Q, F, a) ==> Found(bin, V', Q', F', a);
    forall k | n <= k < |F'| ensures SitesFound(bin, V', Q', F', F'[k].sites) {
      if k < |F| {
        assert F'[k] == F[k];
        assert SitesFound(bin, V, Q, F, F[k].sites);
      }
    }
  }

  /** Every known target among the sites is accounted for. */
  ghost predicate SitesAccounted(bin: Binary, visited: set<Address>, queue: seq<Address>,
      functions: seq<FunctionRecord>, sites: set<(Address, Address)>) {
    forall site :: site in sites && site.1 != 0 ==> Accounted(bin, visited, queue, functions, site.1)
  }

  /** All call sites of recorded functions, and all origins: the addresses that were given
      from outside or found by the sweep. */
  ghost predicate AllAccounted(bin: Binary, visited: set<Address>, queue: seq<Address>,
      functions: seq<FunctionRecord>, origins: set<Address>) {
    && (forall k :: 0 <= k < |functions| ==> SitesAccounted(bin, visited, queue, functions, functions[k].sites))
    && (forall a :: a in origins ==> Accounted(bin, visited, queue, functions, a))
  }

  /** More visited addresses, and more records with their call sites queued, do no harm; an
      address may leave the queue once it is accounted for otherwise. */
  lemma AccountedMore(bin: Binary, V: set<Address>, Q: seq<Address>, F: seq<FunctionRecord>, origins: set<Address>,
      V': set<Address>, Q': seq<Address>, F': seq<FunctionRecord>)
    requires AllAccounted(bin, V, Q, F, origins)
    requires V <= V' && F <= F' && forall a :: InRange(F, a) ==> InRange(F', a)
    requires forall a :: a in Q ==> Accounted(bin, V', Q', F', a)
    requires forall k :: |F| <= k < |F'| ==> SitesAccounted(bin, V', Q', F', F'[k].sites)
    ensures AllAccounted(bin, V', Q', F', origins)
  {
    assert forall a :: Accounted(bin, V, Q, F, a) ==> Accounted(bin, V', Q', F', a);
    forall k | 0 <= k < |F'| ensures SitesAccounted(bin, V', Q', F', F'[k].sites) {
      if k < |F| {
        assert F'[k] == F[k];
        assert SitesAccounted(bin, V, Q, F, F[k].sites);
      }
    }
  }

  lemma FoundFirst(bin: Binary, visited: set<Address>, functions: seq<FunctionRecord>, queue: seq<Address>)
    ensures AllFound(bin, visited, queue, functions, |functions|, queue)
  {
  }

  lemma FoundLate(bin: Binary, visited: set<Address>, functions: seq<FunctionRecord>, n: nat)
    requires exists addresses :: AllFound(bin, visited, [], functions, n, addresses)
    ensures forall k :: n <= k < |functions| ==> SitesFound(bin, visited, [], functions, functions[k].sites)
  {
  }

  /** What taking the call sites of a function into the queue achieves: a known target is
      queued if it is mapped, not visited and not in a recorded function. */
  ghost predicate SitesQueued(bin: Binary, known: map<Address, Address>, visited: set<Address>, queue: seq<Address>,
      sites: set<(Address, Address)>) {
    forall site :: site in sites && site.1 != 0 && site.1 !in visited && bin.IsWithinMapping(site.1)
        && !InRecorded(known, site.1)
      ==> site.1 in queue
  }

  /** The state after one function was processed: pc left the queue, its analysis visited
      more and queued more, its call sites were queued, and it was recorded. */
  lemma ProcessedAccounted(bin: Binary, origins: set<Address>, pc: Address, V: set<Address>, Q: seq<Address>,
      F: seq<FunctionRecord>, known: map<Address, Address>, V': set<Address>, Q': seq<Address>, f: FunctionRecord)
    requires AllAccounted(bin, V, [pc] + Q, F, origins) && TableOf(known, F)
    requires V <= V' && Q <= Q'
    requires bin.IsWithinMapping(pc) && bin.Decodes(pc) ==> pc in V'
    requires SitesQueued(bin, known, V', Q', f.sites)
    ensures AllAccounted(bin, V', Q', F + [f], origins)
  {
    var F' := F + [f];
    assert forall k :: 0 <= k < |F| ==> F'[k] == F[k];
    assert forall a :: a in Q ==> a in Q';
    forall site | site in f.sites && site.1 != 0 ensures Accounted(bin, V', Q', F', site.1) {
      if InRecorded(known, site.1) {
        RecordedInRange(known, F, site.1);
      }
    }
    AccountedMore(bin, V, [pc] + Q, F, origins, V', Q', F');
  }

  /** So the known call-site targets of the function itself are found, executable or not. */
  lemma ProcessedFound(bin: Binary, F: seq<FunctionRecord>, known: map<Address, Address>, V: set<Address>,
      Q: seq<Address>, f: FunctionRecord)
    requires TableOf(known, F) && SitesQueued(bin, known, V, Q, f.sites)
    ensures SitesFound(bin, V, Q, F + [f], f.sites)
  {
    assert forall k :: 0 <= k < |F| ==> (F + [f])[k] == F[k];
    forall site | site in f.sites && site.1 != 0 ensures Found(bin, V, Q, F + [f], site.1) {
      if InRecorded(known, site.1) {
        RecordedInRange(known, F, site.1);
      }
    }
  }

  /** An address that is taken off the queue without being analysed. */
  lemma SkippedAccounted(bin: Binary, origins: set<Address>, pc: Address, V: set<Address>, Q: seq<Address>,
      F: seq<FunctionRecord>)
    requires AllAccounted(bin, V, [pc] + Q, F, origins)
    requires pc in V || InRange(F, pc) || !bin.IsExecutableAddress(pc)
    ensures AllAccounted(bin, V, Q, F, origins)
  {
    AccountedMore(bin, V, [pc] + Q, F, origins, V, Q, F);
  }

  lemma AnalysisVisits(c: Scope, visited: set<Address>)
    requires forall x :: x in visited <==> x in c.before || c.Reached(x)
    ensures c.bin.IsWithinMapping(c.entry) && c.bin.Decodes(c.entry) ==> c.entry in visited
    ensures forall x :: x in visited && x !in c.before ==> c.bin.IsWithinMapping(x) && c.bin.Decodes(x)
  {
    if c.Open(c.entry) {
      ReachedEntry(c);
    }
    forall x | c.Reached(x) ensures c.Open(x) {
      var p :| c.IsTrail(p, x);
    }
  }

  lemma SameBytesOfRefines(bs: seq<Block>, cs: seq<Block>, E: set<Address>)
    requires Refines(bs, cs, E)
    ensures SameBytes(bs, cs)
  {
  }

  /** More origins, all of them accounted for, and a longer queue. */
  lemma OriginsAccounted(bin: Binary, visited: set<Address>, queue: seq<Address>, functions: seq<FunctionRecord>,
      origins: set<Address>, queue': seq<Address>, origins': set<Address>)
    requires AllAccounted(bin, visited, queue, functions, origins) && queue <= queue'
    requires forall a :: a in origins' ==> a in origins || Accounted(bin, visited, queue', functions, a)
    ensures AllAccounted(bin, visited, queue', functions, origins')
  {
    assert forall a :: a in queue ==> a in queue';
    AccountedMore(bin, visited, queue, functions, origins, visited, queue', functions);
  }

  // ----- Nothing is made up -----

  /** Some direct call or branch among these instructions has this target. */
  ghost predicate LedTo(bin: Binary, insns: set<Address>, a: Address) {
    exists x :: x in insns && bin.Decodes(x) && bin.CodeTarget(x) == Some(a)
  }

  /** The queue was lengthened by targets of these instructions. */
  ghost predicate QueueGrows(bin: Binary, insns: set<Address>, queue: seq<Address>, queue': seq<Address>) {
    queue <= queue' && forall a :: a in queue' ==> a in queue || LedTo(bin, insns, a)
  }

  lemma QueueGrowsSelf(bin: Binary, insns: set<Address>, queue: seq<Address>)
    ensures QueueGrows(bin, insns, queue, queue)
  {
  }

  lemma QueueGrowsNext(bin: Binary, visited: set<Address>, queue: seq<Address>, queue1: seq<Address>, x: Address,
      queue2: seq<Address>)
    requires QueueGrows(bin, visited, queue, queue1) && bin.Decodes(x)
    requires queue1 <= queue2 && forall a :: a in queue2 ==> a in queue1 || bin.CodeTarget(x) == Some(a)
    ensures QueueGrows(bin, visited + {x}, queue, queue2)
  {
    assert x in visited + {x};
    assert forall a :: LedTo(bin, visited, a) ==> LedTo(bin, visited + {x}, a);
  }

  lemma QueueGrowsTrans(bin: Binary, visited: set<Address>, visited': set<Address>,
      queue: seq<Address>, queue1: seq<Address>, queue2: seq<Address>)
    requires visited <= visited'
    requires QueueGrows(bin, visited, queue, queue1) && QueueGrows(bin, visited', queue1, queue2)
    ensures QueueGrows(bin, visited', queue, queue2)
  {
    assert forall a :: LedTo(bin, visited, a) ==> LedTo(bin, visited', a);
  }

  lemma GrowsMapped(bin: Binary, insns: set<Address>, queue: seq<Address>, queue': seq<Address>)
    requires QueueGrows(bin, insns, queue, queue')
    ensures forall a :: a in queue' ==> a in queue || bin.IsWithinMapping(a)
  {
  }

  lemma QueuePrefix(bin: Binary, insns: set<Address>, queue: seq<Address>, queue1: seq<Address>, queue2: seq<Address>)
    requires QueueGrows(bin, insns, queue, queue1) && queue1 <= queue2
    ensures queue <= queue2
  {
  }

  /** Some call site has this target, which is known. */
  ghost predicate IsSite(functions: seq<FunctionRecord>, a: Address) {
    a != 0 && exists k, x :: 0 <= k < |functions| && (x, a) in functions[k].sites
  }

  /** The address comes from outside or from the sweep, or is the target of a visited
      instruction or of a recorded call site. */
  ghost predicate Warranted(bin: Binary, visited: set<Address>, functions: seq<FunctionRecord>,
      origins: set<Address>, a: Address) {
    a in origins || LedTo(bin, visited, a) || IsSite(functions, a)
  }

  /** All that is queued, and the starts of all recorded functions. */
  ghost predicate AllWarranted(bin: Binary, visited: set<Address>, queue: seq<Address>,
      functions: seq<FunctionRecord>, origins: set<Address>) {
    && (forall a :: a in queue ==> Warranted(bin, visited, functions, origins, a))
    && (forall k :: 0 <= k < |functions| ==> Warranted(bin, visited, functions, origins, functions[k].start))
  }

  lemma WarrantedMore(bin: Binary, V: set<Address>, F: seq<FunctionRecord>, origins: set<Address>,
      V': set<Address>, F': seq<FunctionRecord>, origins': set<Address>, a: Address)
    requires Warranted(bin, V, F, origins, a) && V <= V' && F <= F' && origins <= origins'
    ensures Warranted(bin, V', F', origins', a)
  {
    if IsSite(F, a) {
      var k, x :| 0 <= k < |F| && (x, a) in F[k].sites;
      assert (x, a) in F'[k].sites;
    }
  }

  lemma ProcessedWarranted(bin: Binary, origins: set<Address>, pc: Address, V: set<Address>, Q: seq<Address>,
      F: seq<FunctionRecord>, V': set<Address>, Q1: seq<Address>, Q': seq<Address>, f: FunctionRecord)
    requires AllWarranted(bin, V, [pc] + Q, F, origins) && V <= V' && f.start == pc
    requires QueueGrows(bin, V', Q, Q1)
    requires forall a :: a in Q' ==> a in Q1 || exists site :: site in f.sites && site.1 == a && a != 0
    ensures AllWarranted(bin, V', Q', F + [f], origins)
  {
    var F' := F + [f];
    forall a | Warranted(bin, V, F, origins, a) ensures Warranted(bin, V', F', origins, a) {
      WarrantedMore(bin, V, F, origins, V', F', origins, a);
    }
    forall a | a in Q' ensures Warranted(bin, V', F', origins, a) {
      if a in Q1 {
        assert a in Q ==> a in [pc] + Q;
      } else {
        var site :| site in f.sites && site.1 == a;
        assert (site.0, a) in F'[|F|].sites;
      }
    }
    assert pc in [pc] + Q;
  }

  lemma SkippedWarranted(bin: Binary, origins: set<Address>, pc: Address, V: set<Address>, Q: seq<Address>,
      F: seq<FunctionRecord>)
    requires AllWarranted(bin, V, [pc] + Q, F, origins)
    ensures AllWarranted(bin, V, Q, F, origins)
  {
    assert forall a :: a in Q ==> a in [pc] + Q;
  }

  lemma OriginsWarranted(bin: Binary, visited: set<Address>, queue: seq<Address>, functions: seq<FunctionRecord>,
      origins: set<Address>, queue': seq<Address>, origins': set<Address>)
    requires AllWarranted(bin, visited, queue, functions, origins) && origins <= origins'
    requires forall a :: a in queue' ==> a in queue || a in origins'
    ensures AllWarranted(bin, visited, queue', functions, origins')
  {
    forall a | Warranted(bin, visited, functions, origins, a) ensures Warranted(bin, visited, functions, origins', a) {
      WarrantedMore(bin, visited, functions, origins, visited, functions, origins', a);
    }
  }
}
