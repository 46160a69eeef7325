/**
 * The recency list of a cache: `(index, tag)` pairs ordered from least
 * recently used to most recently used, shared by all sets of the cache,
 * and the replacement choice that scans it.
 */
module Recency {
  import opened Wrappers
  import opened CacheSets

  /** The identity of an address for recency purposes: its index and tag, not its offset. */
  type AddrId = (Index, Tag)

  ghost predicate NoDuplicates<T>(s: seq<T>)
  {
    forall i, j :: 0 <= i < j < |s| ==> s[i] != s[j]
  }

  /**
   * `list.remove`: drop the first occurrence of `x`. Python raises
   * `ValueError` when `x` is absent; this function is total and returns
   * such a list as it is, and `mark_ref_as_last_seen` only removes a pair
   * it has just found in the list.
   */
  function RemoveFirst<T(==)>(s: seq<T>, x: T): (r: seq<T>)
    ensures |r| == if x in s then |s| - 1 else |s|
    ensures forall y :: y in r ==> y in s
  {
    if s == [] then []
    else
      assert s == [s[0]] + s[1..];
      if s[0] == x then s[1..] else [s[0]] + RemoveFirst(s[1..], x)
  }

  /** Position of the first occurrence of `x`. */
  function IndexOf<T(==)>(s: seq<T>, x: T): (k: nat)
    requires x in s
    ensures k < |s| && s[k] == x && x !in s[..k]
  {
    if s[0] == x then 0
    else
      assert s[..1 + IndexOf(s[1..], x)] == [s[0]] + s[1..][..IndexOf(s[1..], x)];
      1 + IndexOf(s[1..], x)
  }

  /** Removing the first occurrence deletes exactly the position `IndexOf` finds. */
  lemma {:induction false} RemoveFirstDeletesOne<T>(s: seq<T>, x: T)
    requires x in s
    ensures RemoveFirst(s, x) == s[..IndexOf(s, x)] + s[IndexOf(s, x) + 1..]
  {
    if s[0] != x {
      RemoveFirstDeletesOne(s[1..], x);
      var k := IndexOf(s[1..], x);
      assert s[..k + 1] == [s[0]] + s[1..][..k];
      assert s[k + 2..] == s[1..][k + 1..];
    }
  }

  /** `mark_ref_as_last_seen` on the list: move `id` to the most recent end, adding it if absent. */
  function Touch(recent: seq<AddrId>, id: AddrId): (r: seq<AddrId>)
    ensures |r| > 0 && r[|r| - 1] == id
    ensures |r| == if id in recent then |recent| else |recent| + 1
  {
    (if id in recent then RemoveFirst(recent, id) else recent) + [id]
  }

  /**
   * Touching keeps every other pair in its relative order: the result is
   * the old list with the first occurrence of `id` (if any) taken out and
   * `id` put at the end.
   */
  lemma TouchMovesToEnd(recent: seq<AddrId>, id: AddrId)
    ensures id !in recent ==> Touch(recent, id) == recent + [id]
    ensures id in recent ==>
              exists k :: 0 <= k < |recent| && recent[k] == id
                          && Touch(recent, id) == recent[..k] + recent[k + 1..] + [id]
  {
    if id in recent {
      RemoveFirstDeletesOne(recent, id);
      var k := IndexOf(recent, id);
      assert Touch(recent, id) == recent[..k] + recent[k + 1..] + [id];
    }
  }

  /** With no duplicates before, `id` occurs exactly once afterwards, at the end, and there are still no duplicates. */
  lemma TouchKeepsNoDuplicates(recent: seq<AddrId>, id: AddrId)
    requires NoDuplicates(recent)
    ensures NoDuplicates(Touch(recent, id))
    ensures forall i :: 0 <= i < |Touch(recent, id)| - 1 ==> Touch(recent, id)[i] != id
  {
    var r := Touch(recent, id);
    if id in recent {
      RemoveFirstDeletesOne(recent, id);
      var k := IndexOf(recent, id);
      var rest := recent[..k] + recent[k + 1..];
      assert r == rest + [id];
      forall i | 0 <= i < |rest|
        ensures rest[i] == recent[if i < k then i else i + 1]
      {
      }
      forall i, j | 0 <= i < j < |r|
        ensures r[i] != r[j]
      {
        assert i < |rest|;
        assert rest[i] == recent[if i < k then i else i + 1];
        if j < |rest| {
          assert rest[j] == recent[if j < k then j else j + 1];
        }
      }
    } else {
      assert r == recent + [id];
    }
  }

  function Reverse<T>(s: seq<T>): (r: seq<T>)
    ensures |r| == |s|
    ensures forall i :: 0 <= i < |s| ==> r[i] == s[|s| - 1 - i]
  {
    if s == [] then [] else Reverse(s[1..]) + [s[0]]
  }

  /** The order `replace_block` scans the recency list in: newest first for "mru", oldest first otherwise. */
  function ScanOrder(recent: seq<AddrId>, policy: string): (scan: seq<AddrId>)
    ensures |scan| == |recent|
    ensures policy == "mru" ==> forall i :: 0 <= i < |recent| ==> scan[i] == recent[|recent| - 1 - i]
    ensures policy != "mru" ==> forall i :: 0 <= i < |recent| ==> scan[i] == recent[i]
  {
    if policy == "mru" then Reverse(recent) else recent
  }

  /** The scanned pair `p` selects a block of `blocks` when its index is `addrIndex` and a block carries its tag. */
  ghost predicate Selects(p: AddrId, blocks: seq<Block>, addrIndex: Index)
  {
    p.0 == addrIndex && HasTag(blocks, p.1)
  }

  /**
   * The position `replace_block` overwrites: the first block carrying the
   * tag of the first scanned pair that selects a block, or None.
   */
  function ReplaceTarget(scan: seq<AddrId>, blocks: seq<Block>, addrIndex: Index): (r: Option<nat>)
    ensures r.Some? ==> r.value < |blocks|
  {
    if scan == [] then None
    else if scan[0].0 == addrIndex && FirstWithTag(blocks, scan[0].1) < |blocks| then
      Some(FirstWithTag(blocks, scan[0].1))
    else ReplaceTarget(scan[1..], blocks, addrIndex)
  }

  /**
   * What `replace_block` chooses: nothing when no scanned pair selects a
   * block; otherwise the earliest selecting pair in scan order, and the
   * first block carrying that pair's tag.
   */
  lemma {:induction false} ReplaceTargetChoice(scan: seq<AddrId>, blocks: seq<Block>, addrIndex: Index)
    ensures ReplaceTarget(scan, blocks, addrIndex).None? <==>
      forall i :: 0 <= i < |scan| ==> !Selects(scan[i], blocks, addrIndex)
    ensures ReplaceTarget(scan, blocks, addrIndex).Some? ==>
      var t := ReplaceTarget(scan, blocks, addrIndex).value;
      exists i :: 0 <= i < |scan| && Selects(scan[i], blocks, addrIndex)
        && (forall j :: 0 <= j < i ==> !Selects(scan[j], blocks, addrIndex))
        && blocks[t].tag == scan[i].1
        && (forall m :: 0 <= m < t ==> blocks[m].tag != scan[i].1)
  {
    if scan != [] {
      ReplaceTargetChoice(scan[1..], blocks, addrIndex);
      var p := scan[0];
      var f := FirstWithTag(blocks, p.1);
      assert Selects(p, blocks, addrIndex) <==> p.0 == addrIndex && f < |blocks|;
      if !Selects(p, blocks, addrIndex) {
        forall i | 0 < i < |scan| ensures scan[i] == scan[1..][i - 1] { }
        if ReplaceTarget(scan, blocks, addrIndex).Some? {
          var t := ReplaceTarget(scan, blocks, addrIndex).value;
          var i :| 0 <= i < |scan[1..]| && Selects(scan[1..][i], blocks, addrIndex)
            && (forall j :: 0 <= j < i ==> !Selects(scan[1..][j], blocks, addrIndex))
            && blocks[t].tag == scan[1..][i].1
            && (forall m :: 0 <= m < t ==> blocks[m].tag != scan[1..][i].1);
          assert scan[i + 1] == scan[1..][i];
          forall j | 0 <= j < i + 1 ensures !Selects(scan[j], blocks, addrIndex) {
            if j > 0 { assert scan[j] == scan[1..][j - 1]; }
          }
        }
      }
    }
  }

  /** `replace_block` on a list of blocks: overwrite the target position, if any, with `entry`. */
  function Replaced(blocks: seq<Block>, scan: seq<AddrId>, addrIndex: Index, entry: Block): (r: seq<Block>)
    ensures |r| == |blocks|
    ensures forall i :: 0 <= i < |blocks| && ReplaceTarget(scan, blocks, addrIndex) != Some(i) ==> r[i] == blocks[i]
    ensures ReplaceTarget(scan, blocks, addrIndex).Some? ==> r[ReplaceTarget(scan, blocks, addrIndex).value] == entry
  {
    match ReplaceTarget(scan, blocks, addrIndex)
    case None => blocks
    case Some(t) => blocks[t := entry]
  }
}
