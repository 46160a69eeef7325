/** Worked reference streams, evaluated with the reference semantics of a pass. */
module HierarchyExamples {
  import opened Wrappers
  import opened CacheSets
  import opened Hierarchy

  /** One step leaves the set it addresses alone on a hit and pushes the block into it on a miss. */
  lemma StepSet(s: State, r: Ref, n: int)
    requires Fits(s, n, false) && KeyOf(r.index) in s.l1
    ensures KeyOf(r.index) in Step(s, r, n, false, false).0.l1
    ensures Step(s, r, n, false, false).0.l1[KeyOf(r.index)]
            == if HasTag(s.l1[KeyOf(r.index)], r.tag) then s.l1[KeyOf(r.index)]
               else Push(s.l1[KeyOf(r.index)], n, EntryOf(r))
  {
  }

  /** A two-way set filled with blocks tagged `x.tag` then `y.tag`, distinct. */
  lemma TwoWayFill(x: Block, y: Block)
    requires x.tag != y.tag
    ensures Push([], 2, x) == [x] && !HasTag([x], y.tag)
    ensures Push([x], 2, y) == [x, y] && HasTag([x, y], x.tag)
  {
    assert [] + [x] == [x];
    assert [x] + [y] == [x, y];
    assert [x, y][0].tag == x.tag;
  }

  /** A full two-way set that misses on a third tag drops its first block. */
  lemma TwoWayEvict(x: Block, y: Block, z: Block)
    requires x.tag != y.tag && x.tag != z.tag && y.tag != z.tag
    ensures !HasTag([x, y], z.tag)
    ensures Push([x, y], 2, z) == [y, z] && !HasTag([y, z], x.tag)
  {
    assert [x, y][1..] + [z] == [y, z];
  }

  /**
   * The first three references of `FullyAssociativeFifo`, a, b, a: two
   * misses fill the set in arrival order, then a hits.
   */
  lemma FifoWarmUp(a: Ref, b: Ref, s1: (State, Status), s2: (State, Status), s3: (State, Status))
    requires a.index == b.index == None && a.tag != b.tag
    requires s1 == Step(State(map[0 := []], [], map[]), a, 2, false, false)
    requires s2 == Step(s1.0, b, 2, false, false)
    requires s3 == Step(s2.0, a, 2, false, false)
    ensures [s1.1, s2.1, s3.1] == [Miss, Miss, Hit]
    ensures 0 in s3.0.l1 && s3.0.l1[0] == [EntryOf(a), EntryOf(b)]
  {
    TwoWayFill(EntryOf(a), EntryOf(b));
    StepSet(State(map[0 := []], [], map[]), a, 2);
    StepSet(s1.0, b, 2);
    StepSet(s2.0, a, 2);
  }

  /**
   * One set of two blocks, fully associative, no L2, and three addresses
   * with distinct tags read in the order a, b, a, c, a, one step of the
   * loop of `read_refs` each: the third reference hits; c then pushes
   * out the block that came in first, a, although a was used more
   * recently than b, so the last reference misses.
   */
  lemma FullyAssociativeFifo(a: Ref, b: Ref, c: Ref, s1: (State, Status), s2: (State, Status),
                             s3: (State, Status), s4: (State, Status), s5: (State, Status))
    requires a.index == b.index == c.index == None
    requires a.tag != b.tag && a.tag != c.tag && b.tag != c.tag
    requires s1 == Step(State(map[0 := []], [], map[]), a, 2, false, false)
    requires s2 == Step(s1.0, b, 2, false, false)
    requires s3 == Step(s2.0, a, 2, false, false)
    requires s4 == Step(s3.0, c, 2, false, false)
    requires s5 == Step(s4.0, a, 2, false, false)
    ensures [s1.1, s2.1, s3.1, s4.1, s5.1] == [Miss, Miss, Hit, Miss, Miss]
  {
    var ea, eb, ec := EntryOf(a), EntryOf(b), EntryOf(c);
    TwoWayEvict(ea, eb, ec);
    FifoWarmUp(a, b, s1, s2, s3);
    StepSet(s3.0, c, 2);
    StepSet(s4.0, a, 2);
  }

  /**
   * A direct-mapped cache (one block per set), no L2, and two addresses
   * with distinct tags that map to the same set, read a, b, a: each
   * reference evicts the other, so all three miss.
   */
  lemma DirectMappedConflict(a: Ref, b: Ref, k: SetKey, s1: (State, Status), s2: (State, Status), s3: (State, Status))
    requires a.index == b.index == Some(k) && a.tag != b.tag
    requires s1 == Step(State(map[k := []], [], map[]), a, 1, false, false)
    requires s2 == Step(s1.0, b, 1, false, false)
    requires s3 == Step(s2.0, a, 1, false, false)
    ensures [s1.1, s2.1, s3.1] == [Miss, Miss, Miss]
    ensures s3.0.l1[k] == [EntryOf(a)]
  {
    var ea, eb := EntryOf(a), EntryOf(b);
    assert Push([], 1, ea) == [ea] && !HasTag([ea], b.tag) by {
      assert [] + [ea] == [ea];
    }
    assert Push([ea], 1, eb) == [eb] && !HasTag([eb], a.tag) by {
      assert [ea][1..] + [eb] == [eb];
    }
    assert Push([eb], 1, ea) == [ea] by {
      assert [eb][1..] + [ea] == [ea];
    }
    StepSet(State(map[k := []], [], map[]), a, 1);
    StepSet(s1.0, b, 1);
    StepSet(s2.0, a, 1);
  }
}
