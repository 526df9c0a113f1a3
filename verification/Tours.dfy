/** Paths through the graph of a function, with what the machine does on the way. */
module Tours {
  import opened Blocks
  import opened ControlFlow
  import opened Instructions
  import opened Machine

  /** The blocks gone through, and the states of the run through each. */
  datatype Tour = Tour(walk: seq<nat>, runs: seq<seq<State>>)

  ghost predicate RunsThrough(bs: seq<Block>, code: Code, t: Tour, preserved: set<Register>, i: nat)
    requires |t.walk| == |t.runs| && i < |t.walk|
  {
    t.walk[i] < |bs| && RunsInto(InsnsOf(code, bs[t.walk[i]]), t.runs[i], preserved)
  }

  ghost predicate GoesOn(bs: seq<Block>, code: Code, t: Tour, i: nat)
    requires |t.walk| == |t.runs| && i < |t.walk| - 1
  {
    && Edge(bs, t.walk[i], t.walk[i + 1])
    && |t.runs[i]| == |InsnsOf(code, bs[t.walk[i]])| + 1
    && t.runs[i + 1] != [] && t.runs[i][|t.runs[i]| - 1] == t.runs[i + 1][0]
  }

  /** The tour begins at block 0, which is the entry block, and follows edges. Each run but the last
      one goes through the whole block, and each begins in the state in which the one before it
      ended. */
  ghost predicate IsTour(bs: seq<Block>, code: Code, t: Tour, preserved: set<Register>) {
    && |t.walk| == |t.runs| > 0 && t.walk[0] == 0
    && (forall i :: 0 <= i < |t.walk| ==> RunsThrough(bs, code, t, preserved, i))
    && (forall i :: 0 <= i < |t.walk| - 1 ==> GoesOn(bs, code, t, i))
  }

  /** All blocks of a tour are reached in the graph. */
  lemma {:induction false} TourReaches(bs: seq<Block>, code: Code, t: Tour, preserved: set<Register>, i: nat)
    requires IsTour(bs, code, t, preserved) && i < |t.walk|
    ensures BlockReach(bs, 0, t.walk[i])
  {
    if i == 0 {
      BlockReachSelf(bs, 0);
    } else {
      TourReaches(bs, code, t, preserved, i - 1);
      assert GoesOn(bs, code, t, i - 1);
      BlockReachStep(bs, 0, t.walk[i - 1], t.walk[i]);
    }
  }
}
