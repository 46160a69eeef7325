/**
 * The cache part of `run_simulation`: an L1 backed by an L2, both with
 * the same sets, read the references; then a fresh L1 with no L2 reads
 * the same references again.
 */
module Simulator {
  import opened CacheSets
  import opened Hierarchy
  import opened Caches

  /**
   * Builds the three caches and runs both passes. The statuses of each
   * pass are returned separately; the L1+L2 pass and the L1-only pass
   * classify every reference alike.
   */
  method RunPasses(numSets: int, numBlocksPerSet: int, policy: string, refs: seq<Ref>)
    returns (l1: Cache, l2: Cache, l1Only: Cache, withL2: seq<Status>, withL1Only: seq<Status>)
    requires numBlocksPerSet > 0
    requires forall i :: 0 <= i < |refs| ==> KeyOf(refs[i].index) < numSets
    ensures fresh(l1) && fresh(l2) && fresh(l1Only)
    ensures !l1.isL2 && l2.isL2 && !l1Only.isL2
    ensures var run := Simulate(State(EmptySets(numSets), [], EmptySets(numSets)), refs, numBlocksPerSet, numSets > 0, false);
            l1.View(l2) == run.0 && withL2 == run.1
    ensures var run := Simulate(State(EmptySets(numSets), [], map[]), refs, numBlocksPerSet, false, false);
            l1Only.View(null) == run.0 && withL1Only == run.1
    ensures withL2 == withL1Only
  {
    l1 := new Cache(numSets, false);
    l2 := new Cache(numSets, true);
    assert numSets > 0 <==> 0 in l2.sets;
    withL2 := l1.ReadRefs(numBlocksPerSet, policy, refs, l2);
    l1Only := new Cache(numSets, false);
    withL1Only := l1Only.ReadRefs(numBlocksPerSet, policy, refs, null);
    L1IgnoresL2(State(EmptySets(numSets), [], EmptySets(numSets)), State(EmptySets(numSets), [], map[]),
                refs, numBlocksPerSet, numSets > 0, false, false);
  }
}
