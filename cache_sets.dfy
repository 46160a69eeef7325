/**
 * Block records and the sets that hold them, as values.
 *
 * A cache maps set keys to an ordered list of block records, oldest
 * inserted first. A reference whose cache has no index bits carries no
 * index and addresses the single set, whose key is 0.
 */
module CacheSets {
  import opened Wrappers

  /** A set number, 0 .. num_sets - 1. */
  type SetKey = nat

  /** A tag field; tags are only ever compared for equality. */
  type Tag = string

  /** The index field of a reference: None when the cache has no index bits. */
  type Index = Option<SetKey>

  /** A block record `{tag, index, data}`: the fields it was filed under and its words. */
  datatype Block = Block(tag: Tag, index: Index, data: seq<int>)

  /** The block lists of a cache, keyed by set. */
  type Sets = map<SetKey, seq<Block>>

  /** The set an index addresses: a missing index addresses set 0. */
  function KeyOf(index: Index): (k: SetKey)
    ensures index.Some? ==> k == index.value
    ensures index.None? ==> k == 0
  {
    match index
    case None => 0
    case Some(k) => k
  }

  /** A missing index and index 0 address the same set, so they hit and miss alike. */
  lemma IndexlessIsSetZero(sets: Sets, tag: Tag)
    ensures KeyOf(None) == KeyOf(Some(0))
    ensures Cached(sets, None, tag) <==> Cached(sets, Some(0), tag)
  {
  }

  ghost predicate HasTag(blocks: seq<Block>, tag: Tag)
  {
    exists i :: 0 <= i < |blocks| && blocks[i].tag == tag
  }

  /** True iff the set addressed by `index` exists and holds a block tagged `tag`. */
  ghost predicate Cached(sets: Sets, index: Index, tag: Tag)
  {
    KeyOf(index) in sets && HasTag(sets[KeyOf(index)], tag)
  }

  /** Position of the first block tagged `tag`, or |blocks| when there is none. */
  function FirstWithTag(blocks: seq<Block>, tag: Tag): (i: nat)
    ensures i <= |blocks|
    ensures forall j :: 0 <= j < i ==> blocks[j].tag != tag
    ensures i < |blocks| ==> blocks[i].tag == tag
  {
    if blocks == [] || blocks[0].tag == tag then 0
    else 1 + FirstWithTag(blocks[1..], tag)
  }

  /**
   * One insertion into a set: when the set holds exactly `n` blocks its
   * first (oldest inserted) block is dropped; the new entry is appended.
   */
  function Push(blocks: seq<Block>, n: int, entry: Block): (r: seq<Block>)
    requires |blocks| == n ==> n > 0
    ensures |r| > 0 && r[|r| - 1] == entry
    ensures |blocks| == n ==> r[..|r| - 1] == blocks[1..]
    ensures |blocks| != n ==> r[..|r| - 1] == blocks
    ensures |blocks| <= n ==> |r| <= n
    ensures forall b :: b in r ==> b in blocks || b == entry
  {
    if |blocks| == n then blocks[1..] + [entry] else blocks + [entry]
  }

  /** An insertion at `index` is possible: the set exists, and a full set has a block to drop. */
  predicate CanInsert(sets: Sets, index: Index, n: int)
  {
    KeyOf(index) in sets && (|sets[KeyOf(index)]| == n ==> n > 0)
  }

  ghost predicate Bounded(sets: Sets, n: int)
  {
    forall k :: k in sets ==> |sets[k]| <= n
  }

  /** Every block in `sets` carries an index that addresses one of `keys`. */
  ghost predicate AddressesIn(sets: Sets, keys: set<SetKey>)
  {
    forall k, b :: k in sets && b in sets[k] ==> KeyOf(b.index) in keys
  }

  /** The whole cache after inserting `entry` at `index`; only the addressed set changes. */
  function InsertBlock(sets: Sets, index: Index, n: int, entry: Block): (r: Sets)
    requires CanInsert(sets, index, n)
    ensures r.Keys == sets.Keys
    ensures forall k :: k in sets && k != KeyOf(index) ==> r[k] == sets[k]
    ensures r[KeyOf(index)] == Push(sets[KeyOf(index)], n, entry)
    ensures Bounded(sets, n) ==> Bounded(r, n)
    ensures forall keys :: AddressesIn(sets, keys) && KeyOf(entry.index) in keys ==> AddressesIn(r, keys)
  {
    sets[KeyOf(index) := Push(sets[KeyOf(index)], n, entry)]
  }

  ghost predicate UniqueTags(blocks: seq<Block>)
  {
    forall i, j :: 0 <= i < j < |blocks| ==> blocks[i].tag != blocks[j].tag
  }

  ghost predicate AllUniqueTags(sets: Sets)
  {
    forall k :: k in sets ==> UniqueTags(sets[k])
  }

  /** Inserting a block whose tag the set does not hold keeps the set's tags distinct. */
  lemma InsertKeepsTagsUnique(sets: Sets, index: Index, n: int, entry: Block)
    requires CanInsert(sets, index, n)
    requires AllUniqueTags(sets)
    requires !Cached(sets, index, entry.tag)
    ensures AllUniqueTags(InsertBlock(sets, index, n, entry))
  {
    var blocks := sets[KeyOf(index)];
    var o := if |blocks| == n then 1 else 0;
    var r := Push(blocks, n, entry);
    assert |r| == |blocks| - o + 1;
    assert forall i :: 0 <= i < |r| - 1 ==> r[i] == blocks[i + o];
    assert UniqueTags(r) by {
      forall i, j | 0 <= i < j < |r|
        ensures r[i].tag != r[j].tag
      {
        if j == |r| - 1 {
          assert r[i] == blocks[i + o];
        } else {
          assert r[i] == blocks[i + o] && r[j] == blocks[j + o];
        }
      }
    }
  }
}
