/** The mapped image as the explorer sees it: an abstract decoder, the instruction
    graph it defines, and runs of consecutive instructions. */
module Image {
  import opened Blocks
  import opened Instructions
  import opened Options
  import opened Words

  const ADDRESS_SPACE: nat := 0x1_0000_0000_0000_0000
  const MAX_INSTRUCTION_LENGTH: nat := 15

  /** A loaded binary: where it is mapped, its executable ranges, and its decoder. */
  datatype Binary = Binary(base: Address, size: nat, sections: seq<(Address, Address)>,
      decode: Address -> Option<Instruction>)
  {
    /** The mapping ends early enough for an instruction that begins in it not to run
        past the end of the address space, the executable ranges lie in the mapping, and what
        is decoded at an address says so and has the length of an x86 instruction. */
    ghost predicate Valid() {
      && base + size + MAX_INSTRUCTION_LENGTH <= ADDRESS_SPACE
      && (forall s :: s in sections ==> base <= s.0 < s.1 <= base + size)
      && (forall a :: decode(a).Some? ==>
            decode(a).value.address == a && 1 <= decode(a).value.length <= MAX_INSTRUCTION_LENGTH)
    }

    predicate IsWithinMapping(a: Address) {
      base <= a < base + size
    }

    predicate IsExecutableAddress(a: Address) {
      exists i :: 0 <= i < |sections| && sections[i].0 <= a < sections[i].1
    }

    predicate Decodes(a: Address) {
      decode(a).Some?
    }

    /** The address after the instruction at a. */
    function Next(a: Address): (n: Address)
      requires Decodes(a)
    {
      a + decode(a).value.length
    }

    /** The target of a direct call or branch at a, modulo the width of an address. */
    function DirectTarget(a: Address): Option<Address>
      requires Decodes(a)
    {
      if decode(a).value.Op(0).ImmOp? then Some((Next(a) + decode(a).value.Op(0).value) % ADDRESS_SPACE) else None
    }

    /** The target recorded for a call at a; 0 stands for one that is not known. */
    function CallTarget(a: Address): Address
      requires Decodes(a)
    {
      match decode(a).value.Op(0)
      case ImmOp(value) => (Next(a) + value) % ADDRESS_SPACE
      case MemOp(RIP, _, disp) => (Next(a) + disp) % ADDRESS_SPACE
      case MemOp(NoBase, false, disp) => disp % ADDRESS_SPACE
      case _ => 0
    }

    /** The direct target of a branch at a, if it may be explored. */
    function CodeTarget(a: Address): Option<Address>
      requires Decodes(a)
    {
      var t := DirectTarget(a);
      if t.Some? && IsWithinMapping(t.value) && IsExecutableAddress(t.value) then t else None
    }
  }

  /** The recorded functions, start to end, as a lookup by address sees them: the one
      with the greatest start not after a, provided it ends after a. */
  predicate InRecorded(known: map<Address, Address>, a: Address) {
    exists s :: s in known && s <= a < known[s] && forall t :: t in known && t <= a ==> t <= s
  }

  /** Some recorded function has the address in its range. */
  ghost predicate InSomeRange(known: map<Address, Address>, a: Address) {
    exists s :: s in known && s <= a < known[s]
  }

  /** Where a range that began inside another one is over before that, or is empty, a further one
      has begun. */
  ghost predicate NoneHidden(known: map<Address, Address>) {
    forall s, t :: s in known && t in known && s < t && Max(t, known[t]) < known[s] ==>
      exists u :: u in known && t < u <= Max(t, known[t])
  }

  lemma {:induction false} GreatestStart(starts: set<Address>, a: Address) returns (g: Address)
    requires exists s :: s in starts && s <= a
    ensures g in starts && g <= a && forall t :: t in starts && t <= a ==> t <= g
    decreases starts
  {
    var s :| s in starts && s <= a;
    g := s;
    if t :| t in starts && s < t <= a {
      assert t in starts - {s};
      g := GreatestStart(starts - {s}, a);
      assert forall u :: u in starts ==> u == s || u in starts - {s};
    }
  }

  lemma HiddenIsMissed(known: map<Address, Address>, s: Address, t: Address)
    requires s in known && t in known && s < t && Max(t, known[t]) < known[s]
    requires forall u :: u in known && u <= Max(t, known[t]) ==> u <= t
    ensures exists a :: InSomeRange(known, a) && !InRecorded(known, a)
  {
    var a: Address := Max(t, known[t]);
    assert InSomeRange(known, a) && !InRecorded(known, a);
  }

  lemma NextBegun(known: map<Address, Address>, s: Address, t: Address) returns (u: Address)
    requires NoneHidden(known) && s in known && t in known && s < t && Max(t, known[t]) < known[s]
    ensures u in known && t < u <= Max(t, known[t])
  {
    u :| u in known && t < u <= Max(t, known[t]);
  }

  lemma InRangeIsSeen(known: map<Address, Address>, a: Address)
    requires NoneHidden(known) && InSomeRange(known, a)
    ensures InRecorded(known, a)
  {
    hide NoneHidden;
    var s :| s in known && s <= a < known[s];
    var g := GreatestStart(known.Keys, a);
    if known[g] <= a {
      var u := NextBegun(known, s, g);
    }
  }

  /** The lookup by address misses no function that has the address in its range exactly when
      no range hides what is behind it of another. */
  lemma LookupExact(known: map<Address, Address>)
    ensures forall a :: InRecorded(known, a) ==> InSomeRange(known, a)
    ensures (forall a :: InSomeRange(known, a) ==> InRecorded(known, a)) <==> NoneHidden(known)
  {
    if NoneHidden(known) {
      forall a: Address | InSomeRange(known, a) ensures InRecorded(known, a) {
        InRangeIsSeen(known, a);
      }
    } else {
      var s, t :| s in known && t in known && s < t && Max(t, known[t]) < known[s]
                  && forall u :: u in known && u <= Max(t, known[t]) ==> u <= t;
      HiddenIsMissed(known, s, t);
    }
  }

  // ----- The linear sweep -----

  /** Where the sweep goes from a: behind the instruction, or to the next byte if a was
      visited or nothing decodes there. */
  function ScanNext(bin: Binary, visited: set<Address>, a: Address): Address {
    if a in visited || !bin.Decodes(a) then a + 1 else bin.Next(a)
  }

  /** The addresses at which the sweep of a range stops. */
  ghost function ScanStops(bin: Binary, visited: set<Address>, lo: Address, hi: Address): set<Address>
    requires bin.Valid()
    decreases hi - lo
  {
    if lo >= hi then {} else {lo} + ScanStops(bin, visited, ScanNext(bin, visited, lo), hi)
  }

  lemma {:induction false} ScanBounds(bin: Binary, visited: set<Address>, lo: Address, hi: Address)
    requires bin.Valid()
    ensures forall s :: s in ScanStops(bin, visited, lo, hi) ==> lo <= s < hi
    decreases hi - lo
  {
    if lo < hi {
      ScanBounds(bin, visited, ScanNext(bin, visited, lo), hi);
    }
  }

  /** Every address of the range is a stop, or lies behind one inside an instruction that
      decodes there and was not visited; it is never both. */
  lemma {:induction false} ScanExact(bin: Binary, visited: set<Address>, lo: Address, hi: Address, x: Address)
    requires bin.Valid() && lo <= x < hi
    ensures x in ScanStops(bin, visited, lo, hi) <==>
            !exists s :: s in ScanStops(bin, visited, lo, hi) && s !in visited && bin.Decodes(s)
                         && s < x < s + bin.decode(s).value.length
    ensures forall s :: s in ScanStops(bin, visited, lo, hi) ==> lo <= s < hi
    decreases hi - lo
  {
    var next := ScanNext(bin, visited, lo);
    var rest := ScanStops(bin, visited, next, hi);
    ScanBounds(bin, visited, next, hi);
    if next <= x {
      ScanExact(bin, visited, next, hi, x);
      if s :| s in rest && s !in visited && bin.Decodes(s) && s < x < s + bin.decode(s).value.length {
        assert s in ScanStops(bin, visited, lo, hi);
      }
    } else if lo < x {
      assert lo in ScanStops(bin, visited, lo, hi);
    }
  }

  /** The sweep of the first n executable ranges stops at a. */
  ghost predicate SweepStops(bin: Binary, visited: set<Address>, n: nat, a: Address)
    requires bin.Valid() && n <= |bin.sections|
  {
    exists i :: 0 <= i < n && a in ScanStops(bin, visited, bin.sections[i].0, bin.sections[i].1)
  }

  /** The prologues at which the sweep stops. */
  ghost function Prologues(bin: Binary, visited: set<Address>): (r: set<Address>)
    requires bin.Valid()
    ensures forall a :: a in r <==> SweepStops(bin, visited, |bin.sections|, a) && bin.Decodes(a)
                                    && bin.decode(a).value.IsPrologue() && bin.IsExecutableAddress(a)
  {
    set i, a | 0 <= i < |bin.sections| && a in ScanStops(bin, visited, bin.sections[i].0, bin.sections[i].1)
               && bin.Decodes(a) && bin.decode(a).value.IsPrologue() && bin.IsExecutableAddress(a) :: a
  }

  // ----- The instruction graph of one function -----

  /** What is fixed while one function is analysed. */
  datatype Scope = Scope(bin: Binary, known: map<Address, Address>, before: set<Address>, entry: Address)
  {
    /** An unconditional jump as the very first instruction is a trampoline. */
    predicate IsTrampoline(x: Address) {
      x == entry && bin.Decodes(x) && bin.decode(x).value.category.UncondBranch?
    }

    /** The explorer follows x to y. */
    ghost predicate Leads(x: Address, y: Address) {
      && bin.Decodes(x)
      && !IsTrampoline(x)
      && match bin.decode(x).value.category {
           case Return => false
           case UncondBranch => bin.CodeTarget(x) == Some(y) && !InRecorded(known, y)
           case CondBranch => y == bin.Next(x) || bin.CodeTarget(x) == Some(y)
           case _ => y == bin.Next(x)
         }
    }

    /** x can be visited: mapped, decodable, and not visited before. */
    ghost predicate Open(x: Address) {
      bin.IsWithinMapping(x) && bin.Decodes(x) && x !in before
    }

    ghost predicate IsTrail(p: seq<Address>, x: Address) {
      && |p| > 0 && p[0] == entry && p[|p| - 1] == x
      && (forall k :: 0 <= k < |p| ==> Open(p[k]))
      && (forall k :: 0 <= k < |p| - 1 ==> Leads(p[k], p[k + 1]))
    }

    /** x is reached from the entry through addresses that can be visited. */
    ghost predicate Reached(x: Address) {
      exists p :: IsTrail(p, x)
    }

    /** The successors recorded for a block whose last instruction is at x. */
    function SuccessorsAfter(x: Address): seq<Address>
      requires bin.Decodes(x)
    {
      var cat := bin.decode(x).value.category;
      if IsTrampoline(x) || !(cat.CondBranch? || cat.UncondBranch?) then []
      else (if bin.CodeTarget(x).Some? then [bin.CodeTarget(x).value] else [])
           + if cat.CondBranch? then [bin.Next(x)] else []
    }
  }

  /** Two addresses are the same modulo the width of an address. */
  predicate SameAddress(x: int, y: int) {
    (x - y) % ADDRESS_SPACE == 0
  }

  /** The address is mapped, in an executable range, and where the branch at x goes by its immediate. */
  ghost predicate GoesTo(bin: Binary, x: Address, y: Address)
    requires bin.Decodes(x)
  {
    var i := bin.decode(x).value;
    && i.Op(0).ImmOp? && SameAddress(y, x + i.length + i.Op(0).value)
    && bin.base <= y < bin.base + bin.size && exists s :: s in bin.sections && s.0 <= y < s.1
  }

  lemma SameResidue(x: int, y: Address)
    requires SameAddress(y, x) && y < ADDRESS_SPACE
    ensures x % ADDRESS_SPACE == y
  {
  }

  lemma CodeTargetGoesTo(bin: Binary, x: Address, y: Address)
    requires bin.Valid() && bin.Decodes(x)
    ensures bin.CodeTarget(x) == Some(y) <==> GoesTo(bin, x, y)
  {
    var i := bin.decode(x).value;
    if i.Op(0).ImmOp? && SameAddress(y, x + i.length + i.Op(0).value) && bin.IsWithinMapping(y) {
      SameResidue(x + i.length + i.Op(0).value, y);
    }
  }

  /** What an instruction leads to, by its category. */
  lemma LeadsExactly(c: Scope, x: Address, y: Address)
    requires c.bin.Valid() && c.bin.Decodes(x)
    ensures var next := x + c.bin.decode(x).value.length;
            c.Leads(x, y) <==>
            match c.bin.decode(x).value.category
            case Return => false
            case CondBranch => y == next || GoesTo(c.bin, x, y)
            case UncondBranch => GoesTo(c.bin, x, y) && x != c.entry && !InRecorded(c.known, y)
            case Call => y == next
            case System => y == next
            case General => y == next
  {
    CodeTargetGoesTo(c.bin, x, y);
    hide InRecorded, GoesTo;
  }

  /** The target recorded for a call: where a direct one goes, the address of the operand if no
      register takes part in that, and 0 otherwise. An index is not looked at beside RIP, where
      there is none. */
  lemma CallTargetIs(bin: Binary, x: Address)
    requires bin.Valid() && bin.Decodes(x)
    ensures var i, t := bin.decode(x).value, bin.CallTarget(x);
            var op := if i.Op(0).MemOp? && i.Op(0).base.RIP? then i.Op(0).(indexed := false) else i.Op(0);
            && t < ADDRESS_SPACE
            && (op.ImmOp? ==> SameAddress(t, x + i.length + op.value))
            && (i.KnownAddress(op).Some? ==> t == Unsigned(i.KnownAddress(op).value))
            && (!op.ImmOp? && i.KnownAddress(op).None? ==> t == 0)
  {
    var i := bin.decode(x).value;
    if i.Op(0).MemOp? && i.Op(0).base.RIP? {
      UnsignedOfWrap(x + i.length + i.Op(0).disp);
    }
  }

  /** x is a reached instruction that does not end a block. */
  ghost predicate RunsPast(c: Scope, x: Address) {
    c.Reached(x) && c.bin.Decodes(x) && !c.bin.decode(x).value.EndsBlock()
  }

  /** Execution runs on from every such instruction: the next address is mapped and was not visited
      before. */
  ghost predicate NextsOpen(c: Scope) {
    forall x :: RunsPast(c, x) ==> c.bin.IsWithinMapping(c.bin.Next(x)) && c.bin.Next(x) !in c.before
  }

  /** Besides, where something decodes at the next address, that is not the entry and is behind no
      other such instruction. */
  ghost predicate NextsSingle(c: Scope) {
    && NextsOpen(c)
    && (forall x :: RunsPast(c, x) && c.bin.Decodes(c.bin.Next(x)) ==> c.bin.Next(x) != c.entry)
    && forall x, y :: RunsPast(c, x) && RunsPast(c, y) && c.bin.Decodes(c.bin.Next(x)) ==>
         c.bin.Next(y) != c.bin.Next(x) || y == x
  }

  /** Besides, every way from the entry to the next address leads through the instruction. */
  ghost predicate NextsBehind(c: Scope) {
    NextsOpen(c) && forall x, p :: RunsPast(c, x) && c.IsTrail(p, c.bin.Next(x)) ==> x in p
  }

  lemma ReachedEntry(c: Scope)
    requires c.Open(c.entry)
    ensures c.Reached(c.entry)
  {
    assert c.IsTrail([c.entry], c.entry);
  }

  lemma TrailNext(c: Scope, p: seq<Address>, x: Address, y: Address)
    requires c.IsTrail(p, x) && c.Leads(x, y) && c.Open(y)
    ensures c.IsTrail(p + [y], y)
  {
    var q := p + [y];
    forall k | 0 <= k < |q| - 1 ensures c.Leads(q[k], q[k + 1]) {
      if k < |p| - 1 {
        assert q[k] == p[k] && q[k + 1] == p[k + 1];
      }
    }
  }

  lemma ReachedStep(c: Scope, x: Address, y: Address)
    requires c.Reached(x) && c.Leads(x, y) && c.Open(y)
    ensures c.Reached(y)
  {
    var p :| c.IsTrail(p, x);
    TrailNext(c, p, x, y);
  }

  lemma TrailGoesOn(c: Scope, p: seq<Address>, x: Address)
    requires c.IsTrail(p, x)
    ensures |p| == 1 || exists y :: c.Leads(c.entry, y) && c.Open(y)
  {
    if |p| > 1 {
      assert c.Leads(p[0], p[0 + 1]) && c.Open(p[0 + 1]);
    }
  }

  // ----- The state of the exploration -----

  /** The address is the entry or is led to by an instruction that was visited. */
  ghost predicate Justified(c: Scope, visited: set<Address>, a: Address) {
    a == c.entry || exists x :: x in visited && x !in c.before && c.Leads(x, a)
  }

  predicate Among(p: seq<Address>, visited: set<Address>) {
    forall k :: 0 <= k < |p| ==> p[k] in visited
  }

  /** x is reached through addresses that have been visited. */
  ghost predicate ReachedIn(c: Scope, visited: set<Address>, x: Address) {
    exists p :: c.IsTrail(p, x) && Among(p, visited)
  }

  /** visited is what has been visited so far, pending what is still to be looked at. */
  ghost predicate Explored(c: Scope, visited: set<Address>, pending: set<Address>) {
    && c.before <= visited
    && (forall x :: x in visited && x !in c.before ==> ReachedIn(c, visited, x))
    && (forall a :: a in pending ==> Justified(c, visited, a))
    && (c.Open(c.entry) ==> c.entry in visited || c.entry in pending)
    && (forall x, y :: x in visited && x !in c.before && c.Leads(x, y) && c.Open(y) ==> y in visited || y in pending)
    && (visited == c.before ==> forall a :: a in pending ==> a == c.entry)
    && (visited != c.before ==> c.entry in visited)
  }

  lemma VisitedJustified(c: Scope, visited: set<Address>, pending: set<Address>, a: Address)
    requires Explored(c, visited, pending) && a in visited && a !in c.before
    ensures Justified(c, visited, a)
  {
    assert ReachedIn(c, visited, a);
    var p :| c.IsTrail(p, a) && Among(p, visited);
    if |p| > 1 {
      assert c.Leads(p[|p| - 2], p[|p| - 2 + 1]) && c.Open(p[|p| - 2]) && p[|p| - 2] in visited;
    }
  }

  /** A pending address that was visited, or cannot be, needs no more attention. */
  lemma ExploredDrop(c: Scope, visited: set<Address>, pending: set<Address>, a: Address)
    requires Explored(c, visited, pending) && (a in visited || !c.Open(a))
    ensures Explored(c, visited, pending - {a})
  {
  }

  lemma PendingReached(c: Scope, visited: set<Address>, pending: set<Address>, a: Address)
    requires Explored(c, visited, pending) && a in pending && c.Open(a)
    ensures ReachedIn(c, visited + {a}, a)
  {
    if a == c.entry {
      assert c.IsTrail([a], a) && Among([a], visited + {a});
    } else {
      assert Justified(c, visited, a);
      var x :| x in visited && x !in c.before && c.Leads(x, a);
      assert ReachedIn(c, visited, x);
      var p :| c.IsTrail(p, x) && Among(p, visited);
      TrailNext(c, p, x, a);
      assert Among(p + [a], visited + {a});
    }
  }

  lemma ReachedInMore(c: Scope, visited: set<Address>, a: Address, x: Address)
    requires ReachedIn(c, visited, x)
    ensures ReachedIn(c, visited + {a}, x)
  {
    var p :| c.IsTrail(p, x) && Among(p, visited);
    assert Among(p, visited + {a});
  }

  lemma ReachedInIs(c: Scope, visited: set<Address>, x: Address)
    requires ReachedIn(c, visited, x)
    ensures c.Reached(x)
  {
  }

  lemma JustifiedMore(c: Scope, visited: set<Address>, a: Address)
    ensures forall b :: Justified(c, visited, b) ==> Justified(c, visited + {a}, b)
    ensures a !in c.before ==> forall b :: c.Leads(a, b) ==> Justified(c, visited + {a}, b)
  {
    assert a in visited + {a};
  }

  /** Visiting a: whatever it leads to becomes pending, unless it was visited. */
  lemma ExploredVisit(c: Scope, visited: set<Address>, pending: set<Address>, a: Address, more: set<Address>)
    requires Explored(c, visited, pending) && a in pending && a !in visited && c.Open(a)
    requires forall y :: y in more ==> c.Leads(a, y)
    requires forall y :: c.Leads(a, y) ==> y in more || y in visited || y == a
    ensures Explored(c, visited + {a}, pending - {a} + more)
    ensures c.Reached(a)
    ensures visited == c.before ==> a == c.entry
    ensures visited != c.before ==> a != c.entry
  {
    PendingReached(c, visited, pending, a);
    ReachedInIs(c, visited + {a}, a);
    assert a in visited + {a} && visited + {a} != c.before;
    JustifiedMore(c, visited, a);
    hide Justified, ReachedIn;
    forall x | x in visited + {a} && x !in c.before ensures ReachedIn(c, visited + {a}, x) {
      if x != a {
        ReachedInMore(c, visited, a, x);
      }
    }
  }

  lemma WayAround(c: Scope, visited: set<Address>, pending: set<Address>, x: Address, a: Address)
    requires Explored(c, visited, pending) && x in visited && x !in c.before && a !in visited
    ensures exists p :: c.IsTrail(p, x) && a !in p
  {
    assert ReachedIn(c, visited, x);
    var p :| c.IsTrail(p, x) && Among(p, visited);
    assert a !in p;
  }

  /** Where every way to the next address behind a leads through a, it was not visited before a is. */
  lemma NextUnvisited(c: Scope, visited: set<Address>, pending: set<Address>, a: Address)
    requires Explored(c, visited, pending) && a !in visited && RunsPast(c, a) && NextsBehind(c)
    requires c.bin.decode(a).value.length > 0
    ensures c.bin.Next(a) !in visited + {a} && c.bin.IsWithinMapping(c.bin.Next(a))
  {
    var next := c.bin.Next(a);
    if next in visited && next !in c.before {
      WayAround(c, visited, pending, next, a);
    }
  }

  lemma {:induction false} TrailVisited(c: Scope, visited: set<Address>, p: seq<Address>, x: Address)
    requires Explored(c, visited, {}) && c.IsTrail(p, x)
    ensures x in visited
    decreases |p|
  {
    assert c.Open(p[|p| - 1]);
    if |p| == 1 {
    } else {
      var q := p[..|p| - 1];
      assert forall k :: 0 <= k < |p| - 1 ==> c.Leads(p[k], p[k + 1]);
      assert c.IsTrail(q, p[|p| - 2]);
      TrailVisited(c, visited, q, p[|p| - 2]);
      assert c.Leads(p[|p| - 2], p[|p| - 2 + 1]) && c.Open(p[|p| - 2]);
    }
  }

  /** With nothing pending, exactly the reached addresses have been added. */
  lemma ExploredAll(c: Scope, visited: set<Address>)
    requires Explored(c, visited, {})
    ensures forall x :: x in visited <==> x in c.before || c.Reached(x)
  {
    forall x | x in visited && x !in c.before ensures c.Reached(x) {
      ReachedInIs(c, visited, x);
    }
    forall x: Address | c.Reached(x) ensures x in visited {
      var p :| c.IsTrail(p, x);
      TrailVisited(c, visited, p, x);
    }
  }
}
