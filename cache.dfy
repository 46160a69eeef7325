/**
 * The cache store: a map from set keys to block lists, a recency list
 * shared by all sets, and an `isL2` flag. Its mutating methods are proved
 * to change the state as the functions of CacheSets, Recency and
 * Hierarchy say.
 */
module Caches {
  import opened Wrappers
  import opened CacheSets
  import opened Recency
  import opened Hierarchy

  /** The block lists of a freshly built cache with `count` sets (none when `count` <= 0). */
  function EmptySets(count: int): (m: Sets)
    ensures forall k: SetKey :: k in m <==> k < count
    ensures forall k :: k in m ==> m[k] == []
  {
    if count <= 0 then map[] else EmptySets(count - 1)[count - 1 := []]
  }

  class Cache {
    var sets: Sets
    var recent: seq<AddrId>
    const isL2: bool

    /** The recency list never names the same address twice. */
    ghost predicate Valid()
      reads this
    {
      NoDuplicates(recent)
    }

    /** The state a pass of `ReadRefs` on this cache with `l2` sees. */
    ghost function View(l2: Cache?): State
      reads this, l2
    {
      State(sets, recent, if l2 == null then map[] else l2.sets)
    }

    /** Builds `numSets` empty sets, keyed 0 .. numSets - 1, and an empty recency list. */
    constructor (numSets: int, isL2: bool)
      ensures sets == EmptySets(numSets)
      ensures recent == [] && this.isL2 == isL2
      ensures Valid()
    {
      this.isL2 := isL2;
      recent := [];
      var m: Sets := map[];
      var i := 0;
      while i < numSets
        invariant 0 <= i <= if numSets < 0 then 0 else numSets
        invariant m == EmptySets(i)
      {
        m := m[i := []];
        i := i + 1;
      }
      assert numSets < 0 ==> i == 0 && EmptySets(i) == map[] == EmptySets(numSets);
      sets := m;
    }

    /** Moves the reference's `(index, tag)` to the most recent end of the recency list. */
    method MarkRefAsLastSeen(r: Ref)
      requires Valid()
      modifies this`recent
      ensures Valid()
      ensures recent == Touch(old(recent), (r.index, r.tag))
    {
      TouchKeepsNoDuplicates(recent, (r.index, r.tag));
      var addrId := (r.index, r.tag);
      if addrId in recent {
        recent := RemoveFirst(recent, addrId);
      }
      recent := recent + [addrId];
    }

    /**
     * A hit: some block in the addressed set carries `tag`. A missing
     * index addresses set 0; an index with no set is a miss.
     */
    function IsHit(index: Index, tag: Tag): (hit: bool)
      reads this
      requires index.None? ==> 0 in sets
      ensures hit <==> Cached(sets, index, tag)
      ensures index.Some? && index.value !in sets ==> !hit
    {
      if index.None? then FirstWithTag(sets[0], tag) < |sets[0]|
      else if index.value in sets then FirstWithTag(sets[index.value], tag) < |sets[index.value]|
      else false
    }

    /**
     * The first block of set `index` that carries `tag`, or None. Unlike
     * `IsHit`, a missing index finds nothing.
     */
    function GetBlock(index: Index, tag: Tag): (r: Option<Block>)
      reads this
      ensures r.Some? <==> index.Some? && index.value in sets && HasTag(sets[index.value], tag)
      ensures r.Some? ==> r.value.tag == tag
      ensures r.Some? ==>
                exists i :: 0 <= i < |sets[index.value]| && sets[index.value][i] == r.value
                            && forall j :: 0 <= j < i ==> sets[index.value][j].tag != tag
    {
      if index.Some? && index.value in sets then
        var blocks := sets[index.value];
        var i := FirstWithTag(blocks, tag);
        if i < |blocks| then Some(blocks[i]) else None
      else None
    }

    /**
     * Overwrites in place, with `newEntry`, the first block of `blocks`
     * carrying the tag of the first recency pair, scanned in the policy's
     * order, whose index is `addrIndex`.
     */
    method ReplaceBlock(blocks: array<Block>, policy: string, addrIndex: Index, newEntry: Block)
      modifies blocks
      ensures blocks[..] == Replaced(old(blocks[..]), ScanOrder(recent, policy), addrIndex, newEntry)
    {
      var scan := ScanOrder(recent, policy);
      ghost var orig := blocks[..];
      var p := 0;
      while p < |scan|
        invariant 0 <= p <= |scan|
        invariant blocks[..] == orig
        invariant ReplaceTarget(scan[p..], orig, addrIndex) == ReplaceTarget(scan, orig, addrIndex)
      {
        var (recentIndex, recentTag) := scan[p];
        assert scan[p..][0] == scan[p] && scan[p..][1..] == scan[p + 1..];
        var i := 0;
        while i < blocks.Length
          invariant 0 <= i <= blocks.Length
          invariant blocks[..] == orig
          invariant forall m :: 0 <= m < i ==> !(recentIndex == addrIndex && orig[m].tag == recentTag)
        {
          if recentIndex == addrIndex && blocks[i].tag == recentTag {
            assert FirstWithTag(orig, recentTag) == i;
            blocks[i] := newEntry;
            return;
          }
          i := i + 1;
        }
        p := p + 1;
      }
    }

    /**
     * Appends `entry` to the addressed set. A set already holding exactly
     * `n` blocks first loses its oldest block; unless this cache is an L2,
     * that block is then inserted into `l2` (when given and holding any
     * set) under its own index, with no further cache.
     */
    method SetBlock(policy: string, n: int, index: Index, entry: Block, l2: Cache?)
      requires l2 != this
      requires CanInsert(sets, index, n)
      requires l2 != null && l2.sets != map[] && !isL2 && |sets[KeyOf(index)]| == n ==>
                 CanInsert(l2.sets, sets[KeyOf(index)][0].index, n)
      modifies this, l2
      decreases if l2 == null then 0 else 1
      ensures sets == InsertBlock(old(sets), index, n, entry)
      ensures recent == old(recent)
      ensures l2 != null ==> l2.recent == old(l2.recent)
      ensures l2 != null ==>
                l2.sets == if old(l2.sets != map[] && |sets[KeyOf(index)]| == n) && !isL2
                           then InsertBlock(old(l2.sets), old(sets[KeyOf(index)][0].index), n, old(sets[KeyOf(index)][0]))
                           else old(l2.sets)
      ensures l2 != null && old(l2.sets != map[] && |sets[KeyOf(index)]| == n) && !isL2 ==>
        var victim := old(sets[KeyOf(index)][0]);
        var l2Set := l2.sets[KeyOf(victim.index)];
        l2Set[|l2Set| - 1] == victim
    {
      var k := KeyOf(index);
      var blocks := sets[k];
      if |blocks| == n {
        var evicted := blocks[0];
        blocks := blocks[1..];
        if l2 != null && l2.sets != map[] && !isL2 {
          l2.SetBlock(policy, n, evicted.index, evicted, null);
        }
      }
      sets := sets[k := blocks + [entry]];
    }

    /** One iteration of the loop of `ReadRefs`, for the reference `r`; it changes the caches as `Step` says. */
    method ReadRef(n: int, policy: string, r: Ref, l2: Cache?) returns (status: Status)
      requires l2 != this
      requires Valid()
      requires Fits(View(l2), n, l2 != null && l2.sets != map[])
      requires KeyOf(r.index) in sets
      modifies this, l2
      ensures Valid()
      ensures l2 != null ==> l2.recent == old(l2.recent) && l2.sets.Keys == old(l2.sets.Keys)
      ensures (l2 != null && l2.sets != map[]) == old(l2 != null && l2.sets != map[])
      ensures View(l2) == Step(old(View(l2)), r, n, old(l2 != null && l2.sets != map[]), isL2).0
      ensures status == Step(old(View(l2)), r, n, old(l2 != null && l2.sets != map[]), isL2).1
    {
      ghost var before := View(l2);
      ghost var on := l2 != null && l2.sets != map[];
      MarkRefAsLastSeen(r);
      if IsHit(r.index, r.tag) {
        status := Hit;
      } else {
        status := Miss;
        var k := KeyOf(r.index);
        if |sets[k]| == n {
          assert sets[k][0] in before.l1[k];
        }
        SetBlock(policy, n, r.index, EntryOf(r), l2);
        if l2 != null && l2.sets != map[] && !l2.IsHit(r.index, r.tag) {
          l2.SetBlock(policy, n, r.index, EntryOf(r), null);
        }
      }
    }

    /**
     * Reads the references into the cache in input order and returns the
     * status of each; the caches end up as `Simulate` says.
     */
    method ReadRefs(n: int, policy: string, refs: seq<Ref>, l2: Cache?) returns (statuses: seq<Status>)
      requires l2 != this
      requires Valid()
      requires Fits(View(l2), n, l2 != null && l2.sets != map[])
      requires Addressable(refs, sets.Keys)
      modifies this, l2
      ensures Valid()
      ensures View(l2) == Simulate(old(View(l2)), refs, n, old(l2 != null && l2.sets != map[]), isL2).0
      ensures statuses == Simulate(old(View(l2)), refs, n, old(l2 != null && l2.sets != map[]), isL2).1
      ensures l2 != null ==> l2.recent == old(l2.recent)
    {
      ghost var h0 := View(l2);
      ghost var on := l2 != null && l2.sets != map[];
      statuses := [];
      var i := 0;
      assert refs[..0] == [];
      assert Simulate(h0, [], n, on, isL2) == (h0, []);
      while i < |refs|
        invariant 0 <= i <= |refs|
        invariant Valid()
        invariant on == (l2 != null && l2.sets != map[])
        invariant l2 != null ==> l2.recent == old(l2.recent)
        invariant Fits(View(l2), n, on) && sets.Keys == h0.l1.Keys
        invariant View(l2) == Simulate(h0, refs[..i], n, on, isL2).0
        invariant statuses == Simulate(h0, refs[..i], n, on, isL2).1
      {
        SimulatePrefix(h0, refs, i, n, on, isL2);
        var status := ReadRef(n, policy, refs[i], l2);
        statuses := statuses + [status];
        i := i + 1;
      }
      assert refs[..i] == refs;
    }
  }
}
