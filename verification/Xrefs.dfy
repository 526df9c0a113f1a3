/** Cross-references under three indexes that must agree: the set of all of them, and two
    multimaps from which the queries are answered. */
module Xrefs {
  import opened Blocks

  datatype Xref = Xref(from: Address, to: Address, kind: string)

  /** A multimap: the references under each key, in no particular order. */
  type Index = map<Address, seq<Xref>>

  datatype Side = From | To
  {
    function Key(x: Xref): Address {
      if From? then x.from else x.to
    }
  }

  function Bucket(index: Index, a: Address): seq<Xref> {
    if a in index then index[a] else []
  }

  /** How often the multimap holds x under a. */
  ghost function Copies(index: Index, a: Address, x: Xref): nat {
    multiset(Bucket(index, a))[x]
  }

  /** The multimap holds every member of the set exactly once under its own key, and nothing
      else. */
  ghost predicate Indexes(index: Index, all: set<Xref>, side: Side) {
    forall a, x :: Copies(index, a, x) == if x in all && side.Key(x) == a then 1 else 0
  }

  /** Lists the members of the set, each once. */
  ghost predicate Lists(results: seq<Xref>, members: set<Xref>) {
    forall x :: multiset(results)[x] == if x in members then 1 else 0
  }

  lemma {:induction false} ListsSize(results: seq<Xref>, members: set<Xref>)
    requires Lists(results, members)
    ensures |results| == |members|
    decreases |results|
  {
    if results == [] {
      forall x ensures x !in members {
        assert multiset(results)[x] == if x in members then 1 else 0;
      }
    } else {
      var x, rest := results[0], results[1..];
      assert results == [x] + rest;
      assert x in results && multiset(results)[x] > 0;
      assert Lists(rest, members - {x}) by {
        forall y ensures multiset(rest)[y] == if y in members - {x} then 1 else 0 {
          assert multiset(results)[y] == multiset{x}[y] + multiset(rest)[y];
        }
      }
      ListsSize(rest, members - {x});
    }
  }

  /** The members with this address on this side. */
  ghost function Matching(all: set<Xref>, side: Side, a: Address): set<Xref> {
    set x | x in all && side.Key(x) == a
  }

  ghost function OfKind(members: set<Xref>, kind: string): set<Xref> {
    set x | x in members && x.kind == kind
  }

  lemma BucketLists(index: Index, all: set<Xref>, side: Side, a: Address)
    requires Indexes(index, all, side)
    ensures Lists(Bucket(index, a), Matching(all, side, a))
    ensures |Bucket(index, a)| == |Matching(all, side, a)|
  {
    var members := Matching(all, side, a);
    forall x ensures multiset(Bucket(index, a))[x] == if x in members then 1 else 0 {
      assert Copies(index, a, x) == if x in all && side.Key(x) == a then 1 else 0;
    }
    ListsSize(Bucket(index, a), members);
  }

  function Emplaced(index: Index, a: Address, x: Xref): Index {
    index[a := Bucket(index, a) + [x]]
  }

  lemma EmplacedIndexes(index: Index, all: set<Xref>, side: Side, x: Xref)
    requires Indexes(index, all, side) && x !in all
    ensures Indexes(Emplaced(index, side.Key(x), x), all + {x}, side)
  {
    var index' := Emplaced(index, side.Key(x), x);
    forall a, y ensures Copies(index', a, y) == if y in all + {x} && side.Key(y) == a then 1 else 0 {
      assert Copies(index, a, y) == if y in all && side.Key(y) == a then 1 else 0;
      assert Copies(index', a, y) == Copies(index, a, y) + if a == side.Key(x) && y == x then 1 else 0;
    }
  }

  /** The reference named by the caller is looked for by its other side and its kind. */
  predicate Names(y: Xref, side: Side, x: Xref) {
    y.kind == x.kind && if side.From? then y.to == x.to else y.from == x.from
  }

  /** The first such entry under the key of x is erased. */
  function Erased(bucket: seq<Xref>, side: Side, x: Xref): seq<Xref> {
    if bucket == [] then []
    else if Names(bucket[0], side, x) then bucket[1..]
    else [bucket[0]] + Erased(bucket[1..], side, x)
  }

  lemma {:induction false} ErasedIs(bucket: seq<Xref>, side: Side, x: Xref)
    requires forall y :: y in bucket ==> side.Key(y) == side.Key(x)
    ensures multiset(Erased(bucket, side, x)) == multiset(bucket) - multiset{x}
  {
    if bucket != [] {
      var y, rest := bucket[0], bucket[1..];
      assert bucket == [y] + rest;
      assert y in bucket;
      if Names(y, side, x) {
        assert y == x;
      } else {
        ErasedIs(rest, side, x);
        assert multiset([y] + Erased(rest, side, x)) == multiset{y} + (multiset(rest) - multiset{x});
      }
    }
  }

  /** Erasing under its key a member of the indexed set leaves an index of the rest. */
  lemma ErasedIndexes(index: Index, all: set<Xref>, side: Side, x: Xref, index': Index)
    requires Indexes(index, all, side) && x in all
    requires forall a :: Bucket(index', a) ==
              if a == side.Key(x) then Erased(Bucket(index, a), side, x) else Bucket(index, a)
    ensures Indexes(index', all - {x}, side)
  {
    var k := side.Key(x);
    forall y | y in Bucket(index, k) ensures side.Key(y) == k {
      assert Copies(index, k, y) > 0;
    }
    ErasedIs(Bucket(index, k), side, x);
    forall a, y ensures Copies(index', a, y) == if y in all - {x} && side.Key(y) == a then 1 else 0 {
      assert Copies(index, a, y) == if y in all && side.Key(y) == a then 1 else 0;
      if a == k {
        assert multiset(Bucket(index', a)) == multiset(Bucket(index, a)) - multiset{x};
      }
    }
  }

  lemma {:induction false} ErasedAt(bucket: seq<Xref>, side: Side, x: Xref, n: nat)
    requires n <= |bucket| && forall k :: 0 <= k < n ==> !Names(bucket[k], side, x)
    ensures n == |bucket| ==> Erased(bucket, side, x) == bucket
    ensures n < |bucket| && Names(bucket[n], side, x) ==> Erased(bucket, side, x) == bucket[..n] + bucket[n + 1..]
  {
    if n > 0 {
      var rest := bucket[1..];
      assert forall k :: 0 <= k < n - 1 ==> rest[k] == bucket[k + 1];
      ErasedAt(rest, side, x, n - 1);
      assert bucket == [bucket[0]] + rest;
      if n < |bucket| && Names(bucket[n], side, x) {
        assert rest[n - 1] == bucket[n];
        assert bucket[..n] + bucket[n + 1..] == [bucket[0]] + (rest[..n - 1] + rest[n..]);
      }
    }
  }

  /** The loop that looks for the entry and erases it. */
  method EraseOne(index: Index, side: Side, x: Xref) returns (index': Index)
    ensures forall a :: Bucket(index', a) ==
              if a == side.Key(x) then Erased(Bucket(index, a), side, x) else Bucket(index, a)
  {
    var key := side.Key(x);
    var range := Bucket(index, key);
    for i := 0 to |range|
      invariant forall k :: 0 <= k < i ==> !Names(range[k], side, x)
    {
      if Names(range[i], side, x) {
        ErasedAt(range, side, x, i);
        return index[key := range[..i] + range[i + 1..]];
      }
    }
    ErasedAt(range, side, x, |range|);
    return index;
  }

  class XrefManager {
    var byFrom: Index
    var byTo: Index
    var all: set<Xref>

    ghost predicate Valid()
      reads this
    {
      Indexes(byFrom, all, From) && Indexes(byTo, all, To)
    }

    constructor ()
      ensures Valid() && all == {}
    {
      byFrom, byTo, all := map[], map[], {};
    }

    method AddXref(from: Address, to: Address, kind: string)
      requires Valid()
      modifies this
      ensures Valid() && all == old(all) + {Xref(from, to, kind)}
    {
      hide Indexes;
      var x := Xref(from, to, kind);
      if x !in all {
        EmplacedIndexes(byFrom, all, From, x);
        EmplacedIndexes(byTo, all, To, x);
        all := all + {x};
        byFrom := Emplaced(byFrom, from, x);
        byTo := Emplaced(byTo, to, x);
      }
    }

    method RemoveXref(from: Address, to: Address, kind: string)
      requires Valid()
      modifies this
      ensures Valid() && all == old(all) - {Xref(from, to, kind)}
    {
      hide Indexes, Erased;
      var x := Xref(from, to, kind);
      if x !in all {
        return;
      }
      var from' := EraseOne(byFrom, From, x);
      var to' := EraseOne(byTo, To, x);
      ErasedIndexes(byFrom, all, From, x, from');
      ErasedIndexes(byTo, all, To, x, to');
      all, byFrom, byTo := all - {x}, from', to';
    }

    method Clear()
      modifies this
      ensures Valid() && all == {}
    {
      byFrom, byTo, all := map[], map[], {};
    }

    /** The references from or to an address. */
    method GetXrefs(side: Side, address: Address) returns (results: seq<Xref>)
      requires Valid()
      ensures Lists(results, Matching(all, side, address))
    {
      results := [];
      var range := Bucket(if side.From? then byFrom else byTo, address);
      for i := 0 to |range|
        invariant results == range[..i]
      {
        results := results + [range[i]];
      }
      BucketLists(if side.From? then byFrom else byTo, all, side, address);
      assert results == range;
    }

    /** Those of one kind: calls, jumps or data references. */
    method GetXrefsOfKind(side: Side, address: Address, kind: string) returns (results: seq<Xref>)
      requires Valid()
      ensures Lists(results, OfKind(Matching(all, side, address), kind))
    {
      results := [];
      var range := Bucket(if side.From? then byFrom else byTo, address);
      for i := 0 to |range|
        invariant forall x :: multiset(results)[x] == if x.kind == kind then multiset(range[..i])[x] else 0
      {
        assert range[..i + 1] == range[..i] + [range[i]];
        if range[i].kind == kind {
          results := results + [range[i]];
        }
      }
      BucketLists(if side.From? then byFrom else byTo, all, side, address);
      assert range[..|range|] == range;
    }

    method GetXrefCount(side: Side, address: Address) returns (count: nat)
      requires Valid()
      ensures count == |Matching(all, side, address)|
    {
      BucketLists(if side.From? then byFrom else byTo, all, side, address);
      count := |Bucket(if side.From? then byFrom else byTo, address)|;
    }

    method HasXrefs(side: Side, address: Address) returns (has: bool)
      requires Valid()
      ensures has <==> exists x :: x in all && side.Key(x) == address
    {
      BucketLists(if side.From? then byFrom else byTo, all, side, address);
      has := Bucket(if side.From? then byFrom else byTo, address) != [];
      if x :| x in all && side.Key(x) == address {
        assert x in Matching(all, side, address);
      }
      if has {
        ghost var x :| x in Matching(all, side, address);
      }
    }
  }
}
