/**
 * The reference semantics of one pass of `read_refs` over an L1 cache and
 * an optional L2 cache, as values. The class in module Caches is proved
 * to change its state exactly as these functions say.
 */
module Hierarchy {
  import opened CacheSets
  import opened Recency

  /** A decomposed word address: its index and tag fields and the words of its block. */
  datatype Ref = Ref(index: Index, tag: Tag, data: seq<int>)

  datatype Status = Hit | Miss

  /** The block record a reference brings into a cache. */
  function EntryOf(r: Ref): Block
  {
    Block(r.tag, r.index, r.data)
  }

  /** What one pass can observe and change: L1's sets and recency list, and L2's sets. */
  datatype State = State(l1: Sets, recent: seq<AddrId>, l2: Sets)

  /**
   * The demands the pass makes on the caches: at least one block per set,
   * every L1 block filed under an existing L1 set, and, with an L2 in use,
   * every L1 set present in L2 as well.
   */
  ghost predicate Fits(h: State, n: int, l2On: bool)
  {
    && n > 0
    && AddressesIn(h.l1, h.l1.Keys)
    && (l2On ==> h.l1.Keys <= h.l2.Keys)
  }

  /** Every reference addresses one of `keys`. */
  ghost predicate Addressable(refs: seq<Ref>, keys: set<SetKey>)
  {
    forall i :: 0 <= i < |refs| ==> KeyOf(refs[i].index) in keys
  }

  /**
   * L2's sets after the write-back a miss on `r` causes: when L1 is not
   * itself an L2 and the addressed L1 set is full, its first block goes to
   * L2 under that block's own index; otherwise L2 is as it was.
   */
  ghost function WriteBack(h: State, r: Ref, n: int, l1IsL2: bool): (l2: Sets)
    requires Fits(h, n, true) && KeyOf(r.index) in h.l1
    ensures l2.Keys == h.l2.Keys
    ensures Bounded(h.l2, n) ==> Bounded(l2, n)
    ensures l1IsL2 || |h.l1[KeyOf(r.index)]| != n ==> l2 == h.l2
    ensures !l1IsL2 && |h.l1[KeyOf(r.index)]| == n ==>
              var victim := h.l1[KeyOf(r.index)][0];
              var w := l2[KeyOf(victim.index)];
              && |w| > 0 && w[|w| - 1] == victim
              && forall k :: k in h.l2 && k != KeyOf(victim.index) ==> l2[k] == h.l2[k]
  {
    var blocks := h.l1[KeyOf(r.index)];
    if !l1IsL2 && |blocks| == n then
      assert blocks[0] in h.l1[KeyOf(r.index)];
      InsertBlock(h.l2, blocks[0].index, n, blocks[0])
    else h.l2
  }

  /**
   * One iteration of `read_refs`: mark the reference seen; on an L1 hit
   * nothing else changes; on a miss, write back L1's oldest block into
   * L2 when the L1 set is full (and L1 is not itself an L2), insert the
   * reference's entry into L1, and insert it into L2 as well unless L2
   * already holds its tag at its index.
   */
  ghost function Step(h: State, r: Ref, n: int, l2On: bool, l1IsL2: bool): (res: (State, Status))
    requires Fits(h, n, l2On) && KeyOf(r.index) in h.l1
    ensures Fits(res.0, n, l2On)
    ensures res.0.l1.Keys == h.l1.Keys && res.0.l2.Keys == h.l2.Keys
    ensures res.0.recent == Touch(h.recent, (r.index, r.tag))
    ensures res.1 == Hit <==> Cached(h.l1, r.index, r.tag)
    ensures res.1 == Hit ==> res.0.l1 == h.l1 && res.0.l2 == h.l2
    ensures res.1 == Miss ==> res.0.l1 == InsertBlock(h.l1, r.index, n, EntryOf(r))
    ensures !l2On ==> res.0.l2 == h.l2
    ensures res.1 == Miss && l2On ==> Cached(res.0.l2, r.index, r.tag)
  {
    var recent := Touch(h.recent, (r.index, r.tag));
    if Cached(h.l1, r.index, r.tag) then
      (State(h.l1, recent, h.l2), Hit)
    else
      var l2 := if l2On then WriteBack(h, r, n, l1IsL2) else h.l2;
      var l2' :=
        if l2On && !Cached(l2, r.index, r.tag) then
          var filled := InsertBlock(l2, r.index, n, EntryOf(r));
          assert filled[KeyOf(r.index)][|filled[KeyOf(r.index)]| - 1].tag == r.tag;
          filled
        else l2;
      (State(InsertBlock(h.l1, r.index, n, EntryOf(r)), recent, l2'), Miss)
  }

  /** A whole pass over `refs`, in input order: the final state and one status per reference. */
  ghost function Simulate(h: State, refs: seq<Ref>, n: int, l2On: bool, l1IsL2: bool): (res: (State, seq<Status>))
    requires Fits(h, n, l2On) && Addressable(refs, h.l1.Keys)
    ensures Fits(res.0, n, l2On)
    ensures res.0.l1.Keys == h.l1.Keys && res.0.l2.Keys == h.l2.Keys
    ensures |res.1| == |refs|
    ensures !l2On ==> res.0.l2 == h.l2
    decreases |refs|
  {
    if refs == [] then (h, [])
    else
      var prefix := refs[..|refs| - 1];
      assert forall i :: 0 <= i < |prefix| ==> prefix[i] == refs[i];
      var before := Simulate(h, prefix, n, l2On, l1IsL2);
      var after := Step(before.0, refs[|refs| - 1], n, l2On, l1IsL2);
      (after.0, before.1 + [after.1])
  }

  /** A pass over `refs + [r]` is the pass over `refs` followed by one step for `r`. */
  lemma SimulateSnoc(h: State, refs: seq<Ref>, r: Ref, n: int, l2On: bool, l1IsL2: bool)
    requires Fits(h, n, l2On) && Addressable(refs, h.l1.Keys) && KeyOf(r.index) in h.l1
    ensures Addressable(refs + [r], h.l1.Keys)
    ensures Simulate(h, refs + [r], n, l2On, l1IsL2) ==
              var before := Simulate(h, refs, n, l2On, l1IsL2);
              var after := Step(before.0, r, n, l2On, l1IsL2);
              (after.0, before.1 + [after.1])
  {
    assert forall i :: 0 <= i < |refs| ==> (refs + [r])[i] == refs[i];
    assert (refs + [r])[..|refs|] == refs;
  }

  /** The pass over the first `i + 1` references is the pass over the first `i` followed by one step for `refs[i]`. */
  lemma SimulatePrefix(h: State, refs: seq<Ref>, i: nat, n: int, l2On: bool, l1IsL2: bool)
    requires Fits(h, n, l2On) && Addressable(refs, h.l1.Keys) && i < |refs|
    ensures Addressable(refs[..i], h.l1.Keys) && Addressable(refs[..i + 1], h.l1.Keys)
    ensures KeyOf(refs[i].index) in Simulate(h, refs[..i], n, l2On, l1IsL2).0.l1
    ensures Simulate(h, refs[..i + 1], n, l2On, l1IsL2).0
            == Step(Simulate(h, refs[..i], n, l2On, l1IsL2).0, refs[i], n, l2On, l1IsL2).0
    ensures Simulate(h, refs[..i + 1], n, l2On, l1IsL2).1
            == Simulate(h, refs[..i], n, l2On, l1IsL2).1 + [Step(Simulate(h, refs[..i], n, l2On, l1IsL2).0, refs[i], n, l2On, l1IsL2).1]
  {
    assert refs[..i + 1] == refs[..i] + [refs[i]];
    SimulateSnoc(h, refs[..i], refs[i], n, l2On, l1IsL2);
  }

  /** No set of either cache grows beyond `n` blocks, given none was beyond it to start with. */
  lemma {:induction false} SimulateKeepsBounded(h: State, refs: seq<Ref>, n: int, l2On: bool, l1IsL2: bool)
    requires Fits(h, n, l2On) && Addressable(refs, h.l1.Keys)
    requires Bounded(h.l1, n) && Bounded(h.l2, n)
    ensures Bounded(Simulate(h, refs, n, l2On, l1IsL2).0.l1, n)
    ensures Bounded(Simulate(h, refs, n, l2On, l1IsL2).0.l2, n)
    decreases |refs|
  {
    if refs != [] {
      var prefix := refs[..|refs| - 1];
      assert forall i :: 0 <= i < |prefix| ==> prefix[i] == refs[i];
      SimulateKeepsBounded(h, prefix, n, l2On, l1IsL2);
    }
  }

  /** Tags stay distinct within every L1 set: L1 only inserts a tag after missing on it. */
  lemma {:induction false} SimulateKeepsL1TagsUnique(h: State, refs: seq<Ref>, n: int, l2On: bool, l1IsL2: bool)
    requires Fits(h, n, l2On) && Addressable(refs, h.l1.Keys)
    requires AllUniqueTags(h.l1)
    ensures AllUniqueTags(Simulate(h, refs, n, l2On, l1IsL2).0.l1)
    decreases |refs|
  {
    if refs != [] {
      var prefix := refs[..|refs| - 1];
      assert forall i :: 0 <= i < |prefix| ==> prefix[i] == refs[i];
      SimulateKeepsL1TagsUnique(h, prefix, n, l2On, l1IsL2);
      var before := Simulate(h, prefix, n, l2On, l1IsL2).0;
      var r := refs[|refs| - 1];
      if !Cached(before.l1, r.index, r.tag) {
        InsertKeepsTagsUnique(before.l1, r.index, n, EntryOf(r));
      }
    }
  }

  /** After a step for `r`, L1 holds `r`'s tag in the set it addresses: a hit finds it, a miss brings it in. */
  lemma StepLeavesCached(h: State, r: Ref, n: int, l2On: bool, l1IsL2: bool)
    requires Fits(h, n, l2On) && KeyOf(r.index) in h.l1
    ensures Cached(Step(h, r, n, l2On, l1IsL2).0.l1, r.index, r.tag)
  {
    var after := Step(h, r, n, l2On, l1IsL2).0.l1[KeyOf(r.index)];
    if !Cached(h.l1, r.index, r.tag) {
      assert after == Push(h.l1[KeyOf(r.index)], n, EntryOf(r));
      assert after[|after| - 1].tag == r.tag;
    }
  }

  /** Reading the same reference twice in a row, starting from a miss, gives a miss and then a hit. */
  lemma MissThenHit(h: State, r: Ref, n: int, l2On: bool, l1IsL2: bool)
    requires Fits(h, n, l2On) && KeyOf(r.index) in h.l1
    requires !Cached(h.l1, r.index, r.tag)
    ensures Addressable([r, r], h.l1.Keys)
    ensures Simulate(h, [r, r], n, l2On, l1IsL2).1 == [Miss, Hit]
  {
    SimulateOne(h, r, n, l2On, l1IsL2);
    StepLeavesCached(h, r, n, l2On, l1IsL2);
    SimulateSnoc(h, [r], r, n, l2On, l1IsL2);
    assert [r] + [r] == [r, r];
  }

  /** A pass over a single reference is one step. */
  lemma SimulateOne(h: State, r: Ref, n: int, l2On: bool, l1IsL2: bool)
    requires Fits(h, n, l2On) && KeyOf(r.index) in h.l1
    ensures Addressable([r], h.l1.Keys)
    ensures Simulate(h, [r], n, l2On, l1IsL2).0 == Step(h, r, n, l2On, l1IsL2).0
    ensures Simulate(h, [r], n, l2On, l1IsL2).1 == [Step(h, r, n, l2On, l1IsL2).1]
  {
    assert [r][..0] == [];
  }

  /**
   * L2 never changes what L1 does: two passes that start from the same L1
   * sets and recency list classify every reference alike and leave L1 in
   * the same state, whatever the L2 caches hold or whether one is used.
   */
  lemma {:induction false} L1IgnoresL2(h: State, g: State, refs: seq<Ref>, n: int, l2On: bool, g2On: bool, l1IsL2: bool)
    requires Fits(h, n, l2On) && Fits(g, n, g2On)
    requires h.l1 == g.l1 && h.recent == g.recent
    requires Addressable(refs, h.l1.Keys)
    ensures Simulate(h, refs, n, l2On, l1IsL2).1 == Simulate(g, refs, n, g2On, l1IsL2).1
    ensures Simulate(h, refs, n, l2On, l1IsL2).0.l1 == Simulate(g, refs, n, g2On, l1IsL2).0.l1
    ensures Simulate(h, refs, n, l2On, l1IsL2).0.recent == Simulate(g, refs, n, g2On, l1IsL2).0.recent
    decreases |refs|
  {
    if refs != [] {
      var prefix := refs[..|refs| - 1];
      var r := refs[|refs| - 1];
      assert prefix + [r] == refs;
      assert forall i :: 0 <= i < |prefix| ==> prefix[i] == refs[i];
      L1IgnoresL2(h, g, prefix, n, l2On, g2On, l1IsL2);
      SimulateSnoc(h, prefix, r, n, l2On, l1IsL2);
      SimulateSnoc(g, prefix, r, n, g2On, l1IsL2);
      StepIgnoresL2(Simulate(h, prefix, n, l2On, l1IsL2).0, Simulate(g, prefix, n, g2On, l1IsL2).0, r, n, l2On, g2On, l1IsL2);
    }
  }

  /** One step of `L1IgnoresL2`: the status, L1 and the recency list depend on L1 and the recency list alone. */
  lemma StepIgnoresL2(h: State, g: State, r: Ref, n: int, l2On: bool, g2On: bool, l1IsL2: bool)
    requires Fits(h, n, l2On) && Fits(g, n, g2On) && KeyOf(r.index) in h.l1
    requires h.l1 == g.l1 && h.recent == g.recent
    ensures Step(h, r, n, l2On, l1IsL2).1 == Step(g, r, n, g2On, l1IsL2).1
    ensures Step(h, r, n, l2On, l1IsL2).0.l1 == Step(g, r, n, g2On, l1IsL2).0.l1
    ensures Step(h, r, n, l2On, l1IsL2).0.recent == Step(g, r, n, g2On, l1IsL2).0.recent
  {
  }

  /**
   * On a miss with an L2 in use, L2 gets the reference's entry only when it
   * does not already hit on the reference after the write-back; an L2 that
   * does hit is left exactly as the write-back made it.
   */
  lemma StepL2Fill(h: State, r: Ref, n: int, l1IsL2: bool)
    requires Fits(h, n, true) && KeyOf(r.index) in h.l1
    requires !Cached(h.l1, r.index, r.tag)
    ensures Cached(WriteBack(h, r, n, l1IsL2), r.index, r.tag) ==>
              Step(h, r, n, true, l1IsL2).0.l2 == WriteBack(h, r, n, l1IsL2)
    ensures !Cached(WriteBack(h, r, n, l1IsL2), r.index, r.tag) ==>
              Step(h, r, n, true, l1IsL2).0.l2 == InsertBlock(WriteBack(h, r, n, l1IsL2), r.index, n, EntryOf(r))
  {
  }

  /**
   * On a miss with an L2 in use, the step touches at most two L2 sets: the
   * one the written-back victim is filed under and the one the reference
   * addresses. Every other L2 set is left alone.
   */
  lemma StepL2Frame(h: State, r: Ref, n: int, l1IsL2: bool)
    requires Fits(h, n, true) && KeyOf(r.index) in h.l1
    requires !Cached(h.l1, r.index, r.tag)
    ensures Step(h, r, n, true, l1IsL2).1 == Miss
    ensures forall k :: k in h.l2 && k != KeyOf(r.index)
                        && (|h.l1[KeyOf(r.index)]| == n && !l1IsL2 ==> k != KeyOf(h.l1[KeyOf(r.index)][0].index))
                        ==> Step(h, r, n, true, l1IsL2).0.l2[k] == h.l2[k]
  {
    var k := KeyOf(r.index);
    var blocks := h.l1[k];
    var l2 :=
      if !l1IsL2 && |blocks| == n then
        assert blocks[0] in h.l1[k];
        InsertBlock(h.l2, blocks[0].index, n, blocks[0])
      else h.l2;
    assert Step(h, r, n, true, l1IsL2).0.l2
           == if Cached(l2, r.index, r.tag) then l2 else InsertBlock(l2, r.index, n, EntryOf(r));
  }

  /**
   * With at least two blocks per set, the block L1 writes back into L2 on a
   * miss is still in L2 after the step: it was appended last, and the fill
   * that may follow drops only the first block of a full set.
   */
  lemma StepKeepsVictimInL2(h: State, r: Ref, n: int)
    requires Fits(h, n, true) && KeyOf(r.index) in h.l1
    requires n >= 2 && Bounded(h.l2, n)
    requires !Cached(h.l1, r.index, r.tag) && |h.l1[KeyOf(r.index)]| == n
    ensures var victim := h.l1[KeyOf(r.index)][0];
            && KeyOf(victim.index) in Step(h, r, n, true, false).0.l2
            && victim in Step(h, r, n, true, false).0.l2[KeyOf(victim.index)]
  {
    var k := KeyOf(r.index);
    var victim := h.l1[k][0];
    assert victim in h.l1[k];
    var kv := KeyOf(victim.index);
    var l2 := InsertBlock(h.l2, victim.index, n, victim);
    var w := l2[kv];
    assert |w| <= n && w[|w| - 1] == victim;
    if !Cached(l2, r.index, r.tag) && kv == k {
      var s := Push(w, n, EntryOf(r));
      if |w| == n {
        assert s[..|s| - 1] == w[1..];
        assert s[|w| - 2] == w[|w| - 1];
      } else {
        assert s[..|s| - 1] == w;
        assert s[|w| - 1] == w[|w| - 1];
      }
    }
  }

  /**
   * The write-back into L2 does not look for the victim's tag first: when
   * the L2 set has room, already holds the victim's tag and already hits on
   * the reference, the step appends the victim, and that set then holds the
   * victim's tag twice.
   */
  lemma WriteBackDuplicatesTag(h: State, r: Ref, n: int)
    requires Fits(h, n, true) && KeyOf(r.index) in h.l1
    requires !Cached(h.l1, r.index, r.tag) && |h.l1[KeyOf(r.index)]| == n
    requires KeyOf(h.l1[KeyOf(r.index)][0].index) == KeyOf(r.index)
    requires |h.l2[KeyOf(r.index)]| < n
    requires Cached(h.l2, r.index, r.tag) && HasTag(h.l2[KeyOf(r.index)], h.l1[KeyOf(r.index)][0].tag)
    ensures Step(h, r, n, true, false).0.l2[KeyOf(r.index)] == h.l2[KeyOf(r.index)] + [h.l1[KeyOf(r.index)][0]]
    ensures !UniqueTags(Step(h, r, n, true, false).0.l2[KeyOf(r.index)])
  {
    var k := KeyOf(r.index);
    var victim := h.l1[k][0];
    assert victim in h.l1[k];
    var l2 := InsertBlock(h.l2, victim.index, n, victim);
    assert l2[k] == h.l2[k] + [victim];
    var j :| 0 <= j < |h.l2[k]| && h.l2[k][j].tag == r.tag;
    assert l2[k][j] == h.l2[k][j];
    assert Cached(l2, r.index, r.tag);
    var i :| 0 <= i < |h.l2[k]| && h.l2[k][i].tag == victim.tag;
    assert l2[k][i].tag == l2[k][|l2[k]| - 1].tag;
  }

  /**
   * With one block per set, a block that L1 writes back into L2 does not
   * survive the reference that evicted it: the L2 fill that follows
   * drops it again from the same set.
   */
  lemma OneWayL2LosesVictim(h: State, r: Ref, victim: Block)
    requires Fits(h, 1, true) && KeyOf(r.index) in h.l1
    requires h.l1[KeyOf(r.index)] == [victim] && KeyOf(victim.index) == KeyOf(r.index)
    requires Bounded(h.l2, 1)
    requires !Cached(h.l1, r.index, r.tag)
    ensures Step(h, r, 1, true, false).1 == Miss
    ensures Step(h, r, 1, true, false).0.l2[KeyOf(r.index)] == [EntryOf(r)]
    ensures !HasTag(Step(h, r, 1, true, false).0.l2[KeyOf(r.index)], victim.tag)
  {
    var k := KeyOf(r.index);
    assert victim.tag != r.tag by { assert h.l1[k][0] == victim; }
    assert victim in h.l1[k];
    var l2 := InsertBlock(h.l2, victim.index, 1, victim);
    assert l2[k] == [victim];
    assert !Cached(l2, r.index, r.tag);
    var l2' := InsertBlock(l2, r.index, 1, EntryOf(r));
    assert l2'[k] == [EntryOf(r)];
  }
}
