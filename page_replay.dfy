// Replaying a reference trace against a page cache, once per frame count
// (run_simulation in hw5).

module PageReplay {
  import opened PageCache

  /**
   * One capacity of run_simulation: a fresh cache replays the trace.  Every
   * reference is a hit or a miss, only misses write back, each page's first
   * reference misses, and when all the trace's pages fit no page is ever
   * evicted, so the first references are the only misses.
   */
  method Simulate(policy: Policy, capacity: int, trace: seq<Reference>) returns (hits: nat, misses: nat, writeBacks: nat)
    requires capacity >= 1 && |trace| <= MaxReferences
    ensures hits + misses == |trace| && writeBacks <= misses
    ensures misses >= |Pages(trace)|
    ensures |Pages(trace)| <= capacity ==> misses == |Pages(trace)| && writeBacks == 0
  {
    var cache := new Cache(capacity);
    hits, misses, writeBacks := 0, 0, 0;
    for j := 0 to |trace|
      invariant cache.Valid() && cache.capacity == capacity
      invariant hits + misses == j && writeBacks <= misses
      invariant ReplayOk(Elems(cache.lru), Pages(trace[..j]), Pages(trace), capacity, misses, writeBacks)
    {
      hits, misses, writeBacks := cache.Replay(policy, trace, j, hits, misses, writeBacks);
    }
    assert trace[..|trace|] == trace;
  }

  /** run_simulation: one row (frames, hits, misses, write-backs) per frame count, in order. */
  method RunSimulation(policy: Policy, frames: seq<int>, trace: seq<Reference>)
    returns (rows: seq<(int, nat, nat, nat)>)
    requires forall i :: 0 <= i < |frames| ==> frames[i] >= 1
    requires |trace| <= MaxReferences
    ensures |rows| == |frames|
    ensures forall i :: 0 <= i < |rows| ==>
              rows[i].0 == frames[i] && rows[i].1 + rows[i].2 == |trace| && rows[i].3 <= rows[i].2 &&
              rows[i].2 >= |Pages(trace)|
  {
    rows := [];
    for i := 0 to |frames|
      invariant |rows| == i
      invariant forall k :: 0 <= k < i ==>
                  rows[k].0 == frames[k] && rows[k].1 + rows[k].2 == |trace| && rows[k].3 <= rows[k].2 &&
                  rows[k].2 >= |Pages(trace)|
    {
      var hits, misses, writeBacks := Simulate(policy, frames[i], trace);
      rows := rows + [(frames[i], hits, misses, writeBacks)];
    }
  }
}
