/** The free space of a pool as ranges and as CIDR blocks, and what summing over those blocks counts. */
module FreeDecomposition {
  import opened AddressSets
  import opened BlockDecomposition
  import opened CidrBlocks
  import opened PowersOfTwo
  import opened SubnetAccounting

  function UsedRanges(subs: seq<Block>): (rs: seq<Range>)
    ensures Normal(rs)
  {
    if subs == [] then [] else Insert(RangeOf(subs[0]), UsedRanges(subs[1..]))
  }

  /** The ranges of the pool that no subnet uses. */
  function FreeRanges(pool: Block, subs: seq<Block>): (rs: seq<Range>)
    ensures Normal(rs)
  {
    Subtract([RangeOf(pool)], UsedRanges(subs))
  }

  lemma {:induction false} UsedRangesCover(subs: seq<Block>, a: int)
    ensures Covers(UsedRanges(subs), a) <==> BlocksCover(subs, a)
  {
    if subs != [] {
      UsedRangesCover(subs[1..], a);
      InsertCovers(RangeOf(subs[0]), UsedRanges(subs[1..]), a);
      assert subs == [subs[0]] + subs[1..];
      if subs[0].Has(a) {
        assert subs[0] in subs;
      }
    }
  }

  lemma FreeRangesCover(pool: Block, subs: seq<Block>)
    ensures forall a :: Covers(FreeRanges(pool, subs), a) <==> FreeAddress(pool, subs, a)
  {
    var whole := [RangeOf(pool)];
    forall a
      ensures Covers(FreeRanges(pool, subs), a) <==> FreeAddress(pool, subs, a)
    {
      SubtractCovers(whole, UsedRanges(subs), a);
      CoversHead(whole, a);
      UsedRangesCover(subs, a);
    }
  }

  lemma {:induction false} NormalBounds(rs: seq<Range>, b: Block)
    requires Normal(rs) && forall a :: Covers(rs, a) ==> b.Has(a)
    ensures InSpace(b, rs)
  {
    if rs != [] {
      forall a
        ensures Covers(rs, a) <==> rs[0].Has(a) || Covers(rs[1..], a)
      {
        CoversHead(rs, a);
      }
      assert rs[0].Has(rs[0].lo) && rs[0].Has(rs[0].hi - 1);
      NormalBounds(rs[1..], b);
      assert rs == [rs[0]] + rs[1..];
    }
  }

  lemma FreeRangesInSpace(space: Block, pool: Block, subs: seq<Block>)
    requires Inside(pool, space)
    ensures InSpace(space, FreeRanges(pool, subs))
  {
    FreeRangesCover(pool, subs);
    NormalBounds(FreeRanges(pool, subs), pool);
  }

  /** The prefixes that the free-count loop sums over, in address order. */
  function FreePrefixes(space: Block, pool: Block, subs: seq<Block>): (ds: seq<Block>)
    requires Inside(pool, space)
    ensures forall d :: d in ds ==> d.exp <= space.exp
  {
    FreeRangesInSpace(space, pool, subs);
    Decompose(space, FreeRanges(pool, subs))
  }

  /**
   The prefixes summed over are disjoint, hold exactly the free addresses, and none of
   them can be shortened: no parent block is wholly free.
   */
  lemma FreePrefixesCanonical(space: Block, pool: Block, subs: seq<Block>)
    requires Inside(pool, space)
    ensures var ds := FreePrefixes(space, pool, subs);
            && Ascending(ds)
            && (forall a :: BlocksCover(ds, a) <==> FreeAddress(pool, subs, a))
            && (forall d :: d in ds && d != space ==> !FreeBlock(pool, subs, d.Parent()))
  {
    var rs, ds := FreeRanges(pool, subs), FreePrefixes(space, pool, subs);
    FreeRangesCover(pool, subs);
    FreeRangesInSpace(space, pool, subs);
    DecomposeExact(space, rs);
    forall d | d in ds && d != space
      ensures !FreeBlock(pool, subs, d.Parent())
    {
      DecomposeMaximal(space, rs, d);
      FreeBlockIff(pool, subs, d.Parent());
    }
  }

  /** The free space of the pool as CIDR blocks in address order, none of which is half of a free block. */
  ghost predicate Canonical(space: Block, pool: Block, subs: seq<Block>, ds: seq<Block>) {
    && Ascending(ds)
    && (forall d :: d in ds ==> d.exp <= space.exp)
    && (forall a :: BlocksCover(ds, a) <==> FreeAddress(pool, subs, a))
    && (forall d :: d in ds && d != space ==> !FreeBlock(pool, subs, d.Parent()))
  }

  /** Every free block, of whatever length, lies in one of the prefixes summed over. */
  lemma FreeBlockInPrefix(space: Block, pool: Block, subs: seq<Block>, c: Block) returns (d: Block)
    requires Inside(pool, space) && FreeBlock(pool, subs, c)
    ensures d in FreePrefixes(space, pool, subs) && Inside(c, d)
  {
    FreeRangesCover(pool, subs);
    FreeRangesInSpace(space, pool, subs);
    FreeBlockIff(pool, subs, c);
    d := CoveredBlockInDecompose(space, FreeRanges(pool, subs), c);
  }

  lemma SameBlock(b: Block, c: Block)
    requires Inside(b, c) && Inside(c, b)
    ensures b == c
  {
    if b.exp < c.exp {
      Pow2Strict(b.exp, c.exp);
    } else if c.exp < b.exp {
      Pow2Strict(c.exp, b.exp);
    }
    ShlMono(b.index, c.index, b.exp);
    ShlMono(c.index, b.index, b.exp);
  }

  lemma AscendingAlone(ds: seq<Block>, pool: Block)
    requires Ascending(ds) && pool in ds && forall d :: d in ds ==> Inside(d, pool)
    ensures ds == [pool]
  {
    var first, rest := ds[0], ds[1..];
    assert ds == [first] + rest;
    assert rest != [] ==> rest[0] in rest;
    assert forall d :: d in rest ==> Inside(d, pool) && first.Hi() <= d.Lo();
    assert Inside(first, pool) && pool !in rest;
  }

  /** A pool that no subnet touches is left whole. */
  lemma WholePool(space: Block, pool: Block, subs: seq<Block>)
    requires Inside(pool, space) && forall s :: s in subs ==> Disjoint(pool, s)
    ensures FreePrefixes(space, pool, subs) == [pool]
  {
    var ds := FreePrefixes(space, pool, subs);
    FreePrefixesCanonical(space, pool, subs);
    forall d | d in ds
      ensures Inside(d, pool)
    {
      assert d.Has(d.Lo()) && d.Has(d.Hi() - 1);
      assert BlocksCover(ds, d.Lo()) && BlocksCover(ds, d.Hi() - 1);
    }
    var d := FreeBlockInPrefix(space, pool, subs, pool);
    SameBlock(d, pool);
    AscendingAlone(ds, pool);
  }

  /** The sum over the prefixes is the number of free blocks of size 2^m. */
  lemma FreePrefixesCount(space: Block, pool: Block, subs: seq<Block>, m: nat)
    requires Inside(pool, space)
    ensures WeightedCount(FreePrefixes(space, pool, subs), m) == |FreeSet(pool, subs, m)|
  {
    var rs := FreeRanges(pool, subs);
    FreeRangesInSpace(space, pool, subs);
    DecomposeCounts(space, rs, m);
    FreeRangesCover(pool, subs);
    forall i: nat
      ensures i in AlignedCovered(rs, m) <==> i in FreeSet(pool, subs, m)
    {
      AlignedCoveredIff(rs, m, i);
      FreeSetIff(pool, subs, m, i);
      FreeBlockIff(pool, subs, Block(i, m));
    }
    assert AlignedCovered(rs, m) == FreeSet(pool, subs, m);
  }

  /** Addresses of the pool that some subnet uses. */
  ghost function UsedAddresses(pool: Block, subs: seq<Block>): set<nat> {
    set a: nat | a < pool.Hi() && pool.Has(a) && BlocksCover(subs, a)
  }

  lemma AddressClasses(pool: Block, subs: seq<Block>, a: nat)
    ensures a in AlignedIn(pool.Lo(), pool.Hi(), 0) <==> pool.Has(a)
    ensures a in FreeSet(pool, subs, 0) <==> pool.Has(a) && !BlocksCover(subs, a)
  {
    var b := Block(a, 0);
    assert forall x :: b.Has(x) <==> x == a;
    AlignedInIff(pool.Lo(), pool.Hi(), 0, a);
    FreeSetIff(pool, subs, 0, a);
    FreeBlockIff(pool, subs, b);
    assert b.Has(a);
  }

  /** The sizes of the prefixes summed over and the addresses in use add up to the pool. */
  lemma AddressBalance(space: Block, pool: Block, subs: seq<Block>)
    requires Inside(pool, space)
    ensures WeightedCount(FreePrefixes(space, pool, subs), 0) + |UsedAddresses(pool, subs)| == Pow2(pool.exp)
  {
    FreePrefixesCount(space, pool, subs, 0);
    AlignedInBlock(pool, 0);
    AddressPartition(pool, subs);
  }

  lemma AddressPartition(pool: Block, subs: seq<Block>)
    ensures |AlignedIn(pool.Lo(), pool.Hi(), 0)| == |FreeSet(pool, subs, 0)| + |UsedAddresses(pool, subs)|
  {
    forall a: nat
      ensures a in AlignedIn(pool.Lo(), pool.Hi(), 0) <==> a in FreeSet(pool, subs, 0) || a in UsedAddresses(pool, subs)
      ensures !(a in FreeSet(pool, subs, 0) && a in UsedAddresses(pool, subs))
    {
      AddressClasses(pool, subs, a);
    }
    DisjointUnionSize(AlignedIn(pool.Lo(), pool.Hi(), 0), FreeSet(pool, subs, 0), UsedAddresses(pool, subs));
  }

  lemma DisjointUnionSize<T>(all: set<T>, left: set<T>, right: set<T>)
    requires forall x :: x in all <==> x in left || x in right
    requires forall x :: !(x in left && x in right)
    ensures |all| == |left| + |right|
  {
    assert all == left + right && left !! right;
  }

  lemma FreeAtMostTotal(pool: Block, subs: seq<Block>, m: nat)
    ensures |FreeSet(pool, subs, m)| <= if pool.exp < m then 0 else Pow2(pool.exp - m)
  {
    var free, all := FreeSet(pool, subs, m), AlignedIn(pool.Lo(), pool.Hi(), m);
    assert all == free + (all - free);
    if pool.exp < m {
      Pow2Strict(pool.exp, m);
    } else {
      AlignedInBlock(pool, m);
    }
  }
}
