/** The float64 accumulation of `calculateFreeSubnets`, and when it equals the exact sum. */
module FloatSum {
  import opened BlockDecomposition
  import opened CidrBlocks
  import opened Float64
  import opened FreeDecomposition
  import opened PowersOfTwo
  import opened SubnetAccounting

  /** One step of the counting loop: a prefix longer than `length` is skipped, otherwise the sum is rounded. */
  function Accumulate(count: nat, bits: int, length: int): nat {
    if bits > length then count else Round(count + Pow2(length - bits))
  }

  /** The float64 sum over a list of prefixes of a `width`-bit address family, in order. */
  function FloatCount(ds: seq<Block>, width: nat, length: int): nat {
    if ds == [] then 0
    else Accumulate(FloatCount(ds[..|ds| - 1], width, length), width - ds[|ds| - 1].exp, length)
  }

  lemma FloatCountSnoc(ds: seq<Block>, k: nat, width: nat, length: int)
    requires k < |ds|
    ensures FloatCount(ds[..k + 1], width, length)
         == Accumulate(FloatCount(ds[..k], width, length), width - ds[k].exp, length)
  {
    assert ds[..k + 1][..k] == ds[..k];
  }

  /**
   The running sums of the loop, one before it and one after each prefix: a prefix longer than
   `length` adds nothing, any other one its power of two, rounded to nearest.
   */
  ghost predicate RunningSums(ds: seq<Block>, width: nat, length: int, sums: seq<nat>) {
    && |sums| == |ds| + 1
    && sums[0] == 0
    && forall i :: 0 <= i < |ds| ==> NextSum(sums[i], width - ds[i].exp, length, sums[i + 1])
  }

  ghost predicate NextSum(sum: nat, bits: int, length: int, next: nat) {
    if length < bits then next == sum else Nearest(next, sum + Pow2(length - bits), PRECISION)
  }

  lemma AccumulateRounds(sum: nat, bits: int, length: int)
    ensures NextSum(sum, bits, length, Accumulate(sum, bits, length))
  {
    if bits <= length {
      RoundNearest(sum + Pow2(length - bits));
    }
  }

  lemma NextSumUnique(sum: nat, bits: int, length: int, next: nat)
    requires NextSum(sum, bits, length, next)
    ensures next == Accumulate(sum, bits, length)
  {
    if bits <= length {
      RoundOnly(next, sum + Pow2(length - bits));
    }
  }

  lemma {:induction false} SumsOf(ds: seq<Block>, width: nat, length: int) returns (sums: seq<nat>)
    ensures RunningSums(ds, width, length, sums) && sums[|ds|] == FloatCount(ds, width, length)
    decreases |ds|
  {
    sums := seq(|ds| + 1, i requires 0 <= i <= |ds| => FloatCount(ds[..i], width, length));
    forall i | 0 <= i < |ds|
      ensures NextSum(sums[i], width - ds[i].exp, length, sums[i + 1])
    {
      SumStep(ds, width, length, i);
    }
    assert ds[..|ds|] == ds;
  }

  lemma SumStep(ds: seq<Block>, width: nat, length: int, i: nat)
    requires i < |ds|
    ensures NextSum(FloatCount(ds[..i], width, length), width - ds[i].exp, length, FloatCount(ds[..i + 1], width, length))
  {
    FloatCountSnoc(ds, i, width, length);
    AccumulateRounds(FloatCount(ds[..i], width, length), width - ds[i].exp, length);
  }

  lemma SumOnly(ds: seq<Block>, width: nat, length: int, i: nat, next: nat)
    requires i < |ds| && NextSum(FloatCount(ds[..i], width, length), width - ds[i].exp, length, next)
    ensures next == FloatCount(ds[..i + 1], width, length)
  {
    FloatCountSnoc(ds, i, width, length);
    NextSumUnique(FloatCount(ds[..i], width, length), width - ds[i].exp, length, next);
  }

  /** The sums are determined by the prefixes. */
  lemma {:induction false} SumsUnique(ds: seq<Block>, width: nat, length: int, sums: seq<nat>, k: nat)
    requires RunningSums(ds, width, length, sums) && k <= |ds|
    ensures sums[k] == FloatCount(ds[..k], width, length)
  {
    if k > 0 {
      SumsUnique(ds, width, length, sums, k - 1);
      SumOnly(ds, width, length, k - 1, sums[k]);
    }
  }

  /** One prefix alone is summed exactly, however many blocks it holds. */
  lemma LoneSum(d: Block, width: nat, length: int)
    requires width - d.exp <= length
    ensures FloatCount([d], width, length) == Pow2(length - (width - d.exp))
  {
    assert [d][..0] == [];
    Pow2Fits(length - (width - d.exp));
    RoundNearest(Pow2(length - (width - d.exp)));
  }

  /** As long as rounding is the identity up to the exact sum, every partial sum is exact. */
  lemma {:induction false} FloatCountExact(ds: seq<Block>, width: nat, length: nat, limit: nat)
    requires length <= width && forall n: nat :: n <= limit ==> Round(n) == n
    requires forall d :: d in ds ==> d.exp <= width
    requires WeightedCount(ds, width - length) <= limit
    ensures FloatCount(ds, width, length) == WeightedCount(ds, width - length)
    decreases |ds|
  {
    if ds != [] {
      var init, last := ds[..|ds| - 1], ds[|ds| - 1];
      WeightedCountConcat(init, [last], width - length);
      assert init + [last] == ds;
      assert [last][1..] == [];
      FloatCountExact(init, width, length, limit);
    }
  }

  lemma {:induction false} FloatCountRepresentable(ds: seq<Block>, width: nat, length: int)
    ensures Representable(FloatCount(ds, width, length))
    decreases |ds|
  {
    if ds == [] {
      ZeroRepresentable();
    } else {
      var init, bits := ds[..|ds| - 1], width - ds[|ds| - 1].exp;
      FloatCountRepresentable(init, width, length);
      if bits <= length {
        RoundRepresentable(FloatCount(init, width, length) + Pow2(length - bits));
      }
    }
  }

  lemma ZeroRepresentable()
    ensures Representable(0)
  {
    assert Shl(0, 0) == 0;
  }

  /** Summing over the free prefixes of a pool that holds at most 2^53 blocks of size 2^m never rounds. */
  lemma FreeSumExact(space: Block, pool: Block, subs: seq<Block>, ds: seq<Block>, width: nat, length: nat)
    requires Inside(pool, space) && space.exp == width && ds == FreePrefixes(space, pool, subs)
    requires length <= width && pool.exp - (width - length) <= PRECISION
    ensures FloatCount(ds, width, length) == |FreeSet(pool, subs, width - length)|
  {
    var m := width - length;
    FreePrefixesCount(space, pool, subs, m);
    FreeAtMostTotal(pool, subs, m);
    var k := if pool.exp < m then 0 else pool.exp - m;
    RoundIdentity(k);
    FloatCountExact(ds, width, length, Pow2(k));
  }

  lemma PartWeight(ds: seq<Block>, k: nat, m: nat)
    requires k <= |ds|
    ensures WeightedCount(ds[..k], m) <= WeightedCount(ds, m)
  {
    WeightedCountConcat(ds[..k], ds[k..], m);
    assert ds[..k] + ds[k..] == ds;
  }

  /** So is every partial sum of the loop, and none passes the number of blocks the pool could hold. */
  lemma PartialSums(space: Block, pool: Block, subs: seq<Block>, ds: seq<Block>, k: nat, width: nat, length: nat, d: nat)
    requires Inside(pool, space) && space.exp == width && ds == FreePrefixes(space, pool, subs) && k <= |ds|
    requires length <= width && pool.exp == width - length + d && d <= PRECISION
    ensures FloatCount(ds[..k], width, length) == WeightedCount(ds[..k], width - length) <= Pow2(d)
  {
    var m := width - length;
    FreePrefixesCount(space, pool, subs, m);
    FreeAtMostTotal(pool, subs, m);
    PartWeight(ds, k, m);
    RoundIdentity(d);
    FloatCountExact(ds[..k], width, length, Pow2(d));
  }

  /** One subnet alone in a pool takes one block of its own size. */
  lemma OneSubnetFree(pool: Block, s: Block)
    requires Inside(s, pool) && s.exp <= pool.exp
    ensures |FreeSet(pool, [s], s.exp)| == Pow2(pool.exp - s.exp) - 1
  {
    assert [] + [s] == [s];
    InsideStep(pool, [], s, s.exp);
    AlignedInBlock(pool, s.exp);
    assert FreeSet(pool, [], s.exp) == AlignedIn(pool.Lo(), pool.Hi(), s.exp) by {
      forall i: nat
        ensures i in FreeSet(pool, [], s.exp) <==> i in AlignedIn(pool.Lo(), pool.Hi(), s.exp)
      {
        FreeSetIff(pool, [], s.exp, i);
        AlignedInIff(pool.Lo(), pool.Hi(), s.exp, i);
      }
    }
  }

  lemma OneSubnetUncountable(pool: Block, s: Block)
    requires Inside(s, pool) && pool.exp - s.exp > PRECISION
    ensures !Representable(|FreeSet(pool, [s], s.exp)|)
  {
    OneSubnetFree(pool, s);
    OneLessNotRepresentable(pool.exp - s.exp);
  }

  /** In a larger pool a single subnet makes the sum round: the true count is odd and past 2^53. */
  lemma FreeSumRounds(space: Block, pool: Block, s: Block, subs: seq<Block>, ds: seq<Block>, width: nat, length: nat)
    requires subs == [s]
    requires Inside(pool, space) && space.exp == width && ds == FreePrefixes(space, pool, subs)
    requires length <= width && s.exp == width - length
    requires Inside(s, pool) && pool.exp - s.exp > PRECISION
    ensures FloatCount(ds, width, length) != |FreeSet(pool, subs, width - length)|
  {
    OneSubnetUncountable(pool, s);
    FloatCountRepresentable(ds, width, length);
  }
}
