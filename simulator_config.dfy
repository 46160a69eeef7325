/**
 * The integer configuration arithmetic of `run_simulation`: block and set
 * counts by floor division, and the address, offset, index and tag widths,
 * with `int(math.log2(x))` replaced by an exact integer floor-log2.
 */
module SimulatorConfig {
  import opened Wrappers

  /** The exceptions the derivation can raise. */
  datatype ConfigError =
    | ZeroDivision    // `//` by zero
    | EmptyAddresses  // `max` of an empty address list
    | MathDomain      // `math.log2` of a value that is not positive

  /** The derived parameters of a run. */
  datatype Derived = Derived(
    numBlocks: int,
    numSets: int,
    numAddrBits: int,
    numOffsetBits: nat,
    numIndexBits: nat,
    numTagBits: int)

  /** The widths a `Reference` is built with, for one word address. */
  datatype RefParams = RefParams(
    wordAddr: int,
    numAddrBits: int,
    numOffsetBits: nat,
    numIndexBits: nat,
    numTagBits: int)

  function Pow2(k: nat): (p: nat)
    ensures p >= 1
  {
    if k == 0 then 1 else 2 * Pow2(k - 1)
  }

  lemma {:induction false} Pow2Monotone(j: nat, k: nat)
    requires j <= k
    ensures Pow2(j) <= Pow2(k)
    decreases k
  {
    if j < k {
      Pow2Monotone(j, k - 1);
    }
  }

  /** `int(math.log2(x))` for a positive integer `x`: the bit length of `x` minus one. */
  function Log2(x: int): (r: nat)
    requires x >= 1
    ensures Pow2(r) <= x < Pow2(r + 1)
  {
    if x == 1 then 0 else 1 + Log2(x / 2)
  }

  /** On a power of two, the floor-log2 is exact. */
  lemma {:induction false} Log2OfPow2(k: nat)
    ensures Log2(Pow2(k)) == k
  {
    var r := Log2(Pow2(k));
    assert Pow2(r) <= Pow2(k) < Pow2(r + 1);
    if r < k {
      Pow2Monotone(r + 1, k);
    } else if r > k {
      Pow2Monotone(k + 1, r);
    }
  }

  /** Python's `a // b`: the quotient rounded toward negative infinity. */
  function FloorDiv(a: int, b: int): (q: int)
    requires b != 0
    ensures b > 0 ==> b * q <= a < b * (q + 1)
    ensures b < 0 ==> b * (q + 1) < a <= b * q
  {
    if b > 0 then a / b else (-a) / (-b)
  }

  /** Python's `max` of a non-empty list. */
  function MaxOf(s: seq<int>): (m: int)
    requires |s| > 0
    ensures m in s
    ensures forall x :: x in s ==> x <= m
  {
    if |s| == 1 then s[0]
    else
      var rest := MaxOf(s[1..]);
      assert forall x :: x in s ==> x == s[0] || x in s[1..];
      if s[0] >= rest then s[0] else rest
  }

  function Max(a: int, b: int): int
  {
    if a >= b then a else b
  }

  /**
   * Lines 112-121 of `run_simulation`, raising what Python raises, in the
   * order it raises it.
   */
  function DeriveConfig(numBlocksPerSet: int, numWordsPerBlock: int, cacheSize: int, numAddrBits: int, wordAddrs: seq<int>)
    : (r: Result<Derived, ConfigError>)
    ensures numWordsPerBlock == 0 ==> r == Failure(ZeroDivision)
    ensures numWordsPerBlock != 0 && numBlocksPerSet == 0 ==> r == Failure(ZeroDivision)
    ensures numWordsPerBlock != 0 && numBlocksPerSet != 0 && wordAddrs == [] ==> r == Failure(EmptyAddresses)
    ensures numWordsPerBlock != 0 && numBlocksPerSet != 0 && wordAddrs != []
            && ((forall a :: a in wordAddrs ==> a <= 0) || numWordsPerBlock < 0
                || FloorDiv(FloorDiv(cacheSize, numWordsPerBlock), numBlocksPerSet) <= 0)
            ==> r == Failure(MathDomain)
    ensures r.Success? ==> r.value.numTagBits + r.value.numIndexBits + r.value.numOffsetBits == r.value.numAddrBits
  {
    if numWordsPerBlock == 0 then Failure(ZeroDivision)
    else
      var numBlocks := FloorDiv(cacheSize, numWordsPerBlock);
      if numBlocksPerSet == 0 then Failure(ZeroDivision)
      else
        var numSets := FloorDiv(numBlocks, numBlocksPerSet);
        if wordAddrs == [] then Failure(EmptyAddresses)
        else
          var maxAddr := MaxOf(wordAddrs);
          if maxAddr <= 0 then Failure(MathDomain)
          else
            var addrBits := Max(numAddrBits, Log2(maxAddr) + 1);
            if numWordsPerBlock < 0 || numSets <= 0 then Failure(MathDomain)
            else
              var offsetBits := Log2(numWordsPerBlock);
              var indexBits := Log2(numSets);
              Success(Derived(numBlocks, numSets, addrBits, offsetBits, indexBits, addrBits - indexBits - offsetBits))
  }

  /**
   * The derivation succeeds exactly when the block size is positive, the
   * set size is not zero, some address is positive and the floor
   * divisions leave at least one set.
   */
  lemma DeriveConfigSucceeds(numBlocksPerSet: int, numWordsPerBlock: int, cacheSize: int, numAddrBits: int, wordAddrs: seq<int>)
    ensures DeriveConfig(numBlocksPerSet, numWordsPerBlock, cacheSize, numAddrBits, wordAddrs).Success? <==>
              && numWordsPerBlock > 0 && numBlocksPerSet != 0
              && (exists a :: a in wordAddrs && a > 0)
              && FloorDiv(FloorDiv(cacheSize, numWordsPerBlock), numBlocksPerSet) > 0
  {
    if wordAddrs != [] && MaxOf(wordAddrs) <= 0 {
      assert !exists a :: a in wordAddrs && a > 0;
    }
  }

  /** The value of a successful derivation, spelled out. */
  lemma DeriveConfigValue(numBlocksPerSet: int, numWordsPerBlock: int, cacheSize: int, numAddrBits: int, wordAddrs: seq<int>)
    requires DeriveConfig(numBlocksPerSet, numWordsPerBlock, cacheSize, numAddrBits, wordAddrs).Success?
    ensures numWordsPerBlock > 0 && numBlocksPerSet != 0 && wordAddrs != [] && MaxOf(wordAddrs) > 0
    ensures FloorDiv(FloorDiv(cacheSize, numWordsPerBlock), numBlocksPerSet) > 0
    ensures var numBlocks := FloorDiv(cacheSize, numWordsPerBlock);
            var numSets := FloorDiv(numBlocks, numBlocksPerSet);
            var addrBits := Max(numAddrBits, Log2(MaxOf(wordAddrs)) + 1);
            DeriveConfig(numBlocksPerSet, numWordsPerBlock, cacheSize, numAddrBits, wordAddrs).value
            == Derived(numBlocks, numSets, addrBits, Log2(numWordsPerBlock), Log2(numSets),
                       addrBits - Log2(numSets) - Log2(numWordsPerBlock))
  {
  }

  /**
   * A successful derivation: the block count is the floor quotient of the
   * cache size by the block size, and the set count that of the block
   * count by the set size (rounded toward negative infinity for a negative
   * set size too), at least one.
   */
  lemma DeriveConfigCounts(numBlocksPerSet: int, numWordsPerBlock: int, cacheSize: int, numAddrBits: int, wordAddrs: seq<int>)
    requires DeriveConfig(numBlocksPerSet, numWordsPerBlock, cacheSize, numAddrBits, wordAddrs).Success?
    ensures var d := DeriveConfig(numBlocksPerSet, numWordsPerBlock, cacheSize, numAddrBits, wordAddrs).value;
            && numWordsPerBlock * d.numBlocks <= cacheSize < numWordsPerBlock * (d.numBlocks + 1)
            && d.numSets > 0
            && (numBlocksPerSet > 0 ==> numBlocksPerSet * d.numSets <= d.numBlocks < numBlocksPerSet * (d.numSets + 1))
            && (numBlocksPerSet < 0 ==> numBlocksPerSet * (d.numSets + 1) < d.numBlocks <= numBlocksPerSet * d.numSets)
  {
    DeriveConfigValue(numBlocksPerSet, numWordsPerBlock, cacheSize, numAddrBits, wordAddrs);
    var numBlocks := FloorDiv(cacheSize, numWordsPerBlock);
    var numSets := FloorDiv(numBlocks, numBlocksPerSet);
    assert numWordsPerBlock * numBlocks <= cacheSize < numWordsPerBlock * (numBlocks + 1);
    assert numBlocksPerSet > 0 ==> numBlocksPerSet * numSets <= numBlocks < numBlocksPerSet * (numSets + 1);
    assert numBlocksPerSet < 0 ==> numBlocksPerSet * (numSets + 1) < numBlocks <= numBlocksPerSet * numSets;
  }

  /**
   * A successful derivation: the address width is at least the configured
   * one and wide enough for every address; the offset and index widths are
   * the floor-log2 of the block size and of the set count.
   */
  lemma DeriveConfigWidths(numBlocksPerSet: int, numWordsPerBlock: int, cacheSize: int, numAddrBits: int, wordAddrs: seq<int>)
    requires DeriveConfig(numBlocksPerSet, numWordsPerBlock, cacheSize, numAddrBits, wordAddrs).Success?
    ensures var d := DeriveConfig(numBlocksPerSet, numWordsPerBlock, cacheSize, numAddrBits, wordAddrs).value;
            && d.numAddrBits >= numAddrBits && d.numAddrBits >= 1
            && (forall a :: a in wordAddrs ==> a < Pow2(d.numAddrBits))
            && Pow2(d.numOffsetBits) <= numWordsPerBlock < Pow2(d.numOffsetBits + 1)
            && Pow2(d.numIndexBits) <= d.numSets < Pow2(d.numIndexBits + 1)
  {
    DeriveConfigValue(numBlocksPerSet, numWordsPerBlock, cacheSize, numAddrBits, wordAddrs);
    var maxAddr := MaxOf(wordAddrs);
    Pow2Monotone(Log2(maxAddr) + 1, Max(numAddrBits, Log2(maxAddr) + 1));
  }

  /** With power-of-two block and set sizes the offset and index widths are exact. */
  lemma PowerOfTwoWidths(numBlocksPerSet: int, numWordsPerBlock: int, cacheSize: int, numAddrBits: int, wordAddrs: seq<int>, j: nat, k: nat)
    requires DeriveConfig(numBlocksPerSet, numWordsPerBlock, cacheSize, numAddrBits, wordAddrs).Success?
    requires numWordsPerBlock == Pow2(j)
    requires DeriveConfig(numBlocksPerSet, numWordsPerBlock, cacheSize, numAddrBits, wordAddrs).value.numSets == Pow2(k)
    ensures var d := DeriveConfig(numBlocksPerSet, numWordsPerBlock, cacheSize, numAddrBits, wordAddrs).value;
            d.numOffsetBits == j && d.numIndexBits == k
            && Pow2(d.numOffsetBits) == numWordsPerBlock && Pow2(d.numIndexBits) == d.numSets
  {
    Log2OfPow2(j);
    Log2OfPow2(k);
  }

  /**
   * Nothing stops the tag width from going negative: eight one-word sets
   * leave three index bits, more than the one address bit configured for
   * the address list [1].
   */
  lemma NegativeTagWidth()
    ensures DeriveConfig(1, 1, 8, 1, [1]) == Success(Derived(8, 8, 1, 0, 3, -2))
  {
    assert MaxOf([1]) == 1;
    assert Log2(8) == 3 by {
      assert Log2(8) == 1 + Log2(4) == 2 + Log2(2) == 3 + Log2(1);
    }
  }

  /** `get_addr_refs`: one reference per word address, in input order, all with the same widths. */
  function AddrRefs(wordAddrs: seq<int>, d: Derived): (refs: seq<RefParams>)
    ensures |refs| == |wordAddrs|
    ensures forall i :: 0 <= i < |refs| ==>
              refs[i] == RefParams(wordAddrs[i], d.numAddrBits, d.numOffsetBits, d.numIndexBits, d.numTagBits)
  {
    if wordAddrs == [] then []
    else [RefParams(wordAddrs[0], d.numAddrBits, d.numOffsetBits, d.numIndexBits, d.numTagBits)]
         + AddrRefs(wordAddrs[1..], d)
  }
}
