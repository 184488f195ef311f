/**
 `calculateFreeSubnets` and `calculateUsedSubnets` of `exporters/neutron.go`: the loops,
 and what the numbers they return mean.
 */
module SubnetCounts {
  import opened AddressSets
  import opened BlockDecomposition
  import opened CidrBlocks
  import opened Float64
  import opened FloatSum
  import opened FreeDecomposition
  import opened PowersOfTwo
  import opened SubnetAccounting

  function Blocks(subnets: seq<Prefix>): (bs: seq<Block>)
    ensures |bs| == |subnets| && forall i :: 0 <= i < |bs| ==> bs[i] == subnets[i].Masked()
  {
    seq(|subnets|, i requires 0 <= i < |subnets| => subnets[i].Masked())
  }

  lemma BlocksSnoc(subnets: seq<Prefix>, k: nat)
    requires k < |subnets|
    ensures Blocks(subnets[..k + 1]) == Blocks(subnets[..k]) + [subnets[k].Masked()]
  {
  }

  /** The prefixes left in the pool prefix, merged where they can be, in address order. */
  function Remaining(pool: Prefix, subnets: seq<Prefix>): (ds: seq<Block>)
    ensures forall d :: d in ds ==> d.exp <= Width(pool.family)
  {
    PrefixInSpace(pool);
    FreePrefixes(Space(pool.family), pool.Masked(), Blocks(subnets))
  }

  /** `subnets_free` as exported. */
  function ReportedFree(pool: Prefix, subnets: seq<Prefix>, length: int): nat {
    FloatCount(Remaining(pool, subnets), Width(pool.family), length)
  }

  /** How many length-L blocks of the pool meet no subnet. */
  function FreeCount(pool: Prefix, subnets: seq<Prefix>, length: nat): nat
    requires length <= Width(pool.family)
  {
    |FreeSet(pool.Masked(), Blocks(subnets), Width(pool.family) - length)|
  }

  /** Counts the prefixes of `prefixLength` left in a pool prefix once the subnets are removed. */
  method CalculateFreeSubnets(poolPrefix: Prefix, subnetsInPool: seq<Prefix>, prefixLength: int) returns (count: nat)
    ensures count == ReportedFree(poolPrefix, subnetsInPool, prefixLength)
    ensures IsFreeSum(poolPrefix, subnetsInPool, prefixLength, count)
    ensures Unused(subnetsInPool, poolPrefix) && poolPrefix.bits <= prefixLength ==> count == Pow2(prefixLength - poolPrefix.bits)
    ensures 0 <= prefixLength <= Width(poolPrefix.family) && prefixLength - poolPrefix.bits <= PRECISION ==>
              count == FreeCount(poolPrefix, subnetsInPool, prefixLength)
  {
    var ipset := RemoveSubnets(poolPrefix, subnetsInPool);
    PrefixInSpace(poolPrefix);
    FreeRangesInSpace(Space(poolPrefix.family), poolPrefix.Masked(), Blocks(subnetsInPool));
    var prefixes := Decompose(Space(poolPrefix.family), ipset);
    count := SumPrefixes(prefixes, Width(poolPrefix.family), prefixLength);
    FreeSumMeaning(poolPrefix, subnetsInPool, prefixLength);
    if Unused(subnetsInPool, poolPrefix) && poolPrefix.bits <= prefixLength {
      UntouchedPool(poolPrefix, subnetsInPool, prefixLength);
    }
    if 0 <= prefixLength <= Width(poolPrefix.family) && prefixLength - poolPrefix.bits <= PRECISION {
      ReportedFreeExact(poolPrefix, subnetsInPool, prefixLength);
    }
  }

  /** `count` is the float64 sum over the canonical free prefixes of the pool. */
  ghost predicate IsFreeSum(pool: Prefix, subnets: seq<Prefix>, length: int, count: nat) {
    exists ds, sums ::
      && Canonical(Space(pool.family), pool.Masked(), Blocks(subnets), ds)
      && RunningSums(ds, Width(pool.family), length, sums)
      && count == sums[|ds|]
  }

  lemma FreeSumMeaning(pool: Prefix, subnets: seq<Prefix>, length: int)
    ensures IsFreeSum(pool, subnets, length, ReportedFree(pool, subnets, length))
  {
    var ds := Remaining(pool, subnets);
    PrefixInSpace(pool);
    FreePrefixesCanonical(Space(pool.family), pool.Masked(), Blocks(subnets));
    var sums := SumsOf(ds, Width(pool.family), length);
    assert Canonical(Space(pool.family), pool.Masked(), Blocks(subnets), ds);
  }

  /** A pool prefix that no subnet overlaps reports all its subnets, exactly, at every length. */
  lemma UntouchedPool(pool: Prefix, subnets: seq<Prefix>, length: int)
    requires Unused(subnets, pool) && pool.bits <= length
    ensures ReportedFree(pool, subnets, length) == Pow2(length - pool.bits)
  {
    var b := pool.Masked();
    UnusedBlocks(subnets, pool);
    UntouchedRemaining(pool, b, subnets, Blocks(subnets));
    LoneSum(b, Width(pool.family), length);
  }

  lemma UntouchedRemaining(pool: Prefix, b: Block, subnets: seq<Prefix>, subs: seq<Block>)
    requires b == pool.Masked() && subs == Blocks(subnets) && forall s :: s in subs ==> Disjoint(b, s)
    ensures Remaining(pool, subnets) == [b]
  {
    PrefixInSpace(pool);
    WholePool(Space(pool.family), b, subs);
  }

  method RemoveSubnets(poolPrefix: Prefix, subnetsInPool: seq<Prefix>) returns (ipset: seq<Range>)
    ensures ipset == FreeRanges(poolPrefix.Masked(), Blocks(subnetsInPool))
  {
    var builder := new IPSetBuilder();
    builder.AddPrefix(poolPrefix);
    for i := 0 to |subnetsInPool|
      invariant fresh(builder) && builder.Valid()
      invariant forall a :: builder.Holds(a) <==> FreeAddress(poolPrefix.Masked(), Blocks(subnetsInPool[..i]), a)
    {
      builder.RemovePrefix(subnetsInPool[i]);
      BlocksSnoc(subnetsInPool, i);
    }
    assert subnetsInPool[..|subnetsInPool|] == subnetsInPool;
    ipset := builder.IPSet();
    FreeRangesCover(poolPrefix.Masked(), Blocks(subnetsInPool));
    NormalUnique(ipset, FreeRanges(poolPrefix.Masked(), Blocks(subnetsInPool)));
  }

  method SumPrefixes(prefixes: seq<Block>, width: nat, prefixLength: int) returns (count: nat)
    ensures count == FloatCount(prefixes, width, prefixLength)
  {
    count := 0;
    for i := 0 to |prefixes|
      invariant count == FloatCount(prefixes[..i], width, prefixLength)
    {
      var bits := width - prefixes[i].exp;
      FloatCountSnoc(prefixes, i, width, prefixLength);
      if bits > prefixLength {
        continue;
      }
      count := Round(count + Pow2(prefixLength - bits));
    }
    assert prefixes[..|prefixes|] == prefixes;
  }

  /** Up to 2^53 subnets per pool the exported free count is the true one. */
  lemma ReportedFreeExact(pool: Prefix, subnets: seq<Prefix>, length: nat)
    requires length <= Width(pool.family) && length - pool.bits <= PRECISION
    ensures ReportedFree(pool, subnets, length) == FreeCount(pool, subnets, length)
  {
    PrefixInSpace(pool);
    var ds, width := Remaining(pool, subnets), Width(pool.family);
    FreeSumExact(Space(pool.family), pool.Masked(), Blocks(subnets), ds, width, length);
  }

  /** The failing case: one subnet of the length asked for in an otherwise empty pool of more than 2^53. */
  lemma ReportedFreeRounds(pool: Prefix, length: nat) returns (one: Prefix)
    requires length <= Width(pool.family) && length - pool.bits > PRECISION
    ensures one.bits == length
    ensures ReportedFree(pool, [one], length) != FreeCount(pool, [one], length)
  {
    one := Prefix(pool.family, pool.addr, length);
    LoneSubnet(pool, one, length, Width(pool.family));
  }

  lemma LoneSubnet(pool: Prefix, one: Prefix, length: nat, width: nat)
    requires one.family == pool.family && one.addr == pool.addr && one.bits == length <= width == Width(pool.family)
    requires length - pool.bits > PRECISION
    ensures ReportedFree(pool, [one], length) != FreeCount(pool, [one], length)
  {
    var b, t := pool.Masked(), one.Masked();
    SamePlaceInside(pool, one);
    assert b.exp == width - pool.bits && t.exp == width - length;
    LoneBlock(pool, [one], Blocks([one]), b, t, width, length);
  }

  lemma LoneBlock(pool: Prefix, subnets: seq<Prefix>, subs: seq<Block>, b: Block, t: Block, width: nat, length: nat)
    requires b == pool.Masked() && subs == Blocks(subnets) == [t] && Inside(t, b) && Inside(b, Space(pool.family))
    requires length <= width == Width(pool.family) && t.exp == width - length && b.exp - t.exp > PRECISION
    ensures ReportedFree(pool, subnets, length) != FreeCount(pool, subnets, length)
  {
    FreeSumRounds(Space(pool.family), b, t, subs, Remaining(pool, subnets), width, length);
  }

  lemma SamePlaceInside(pool: Prefix, one: Prefix)
    requires one.family == pool.family && one.addr == pool.addr && pool.bits <= one.bits
    ensures Inside(one.Masked(), pool.Masked()) && Inside(pool.Masked(), Space(pool.family))
  {
    PrefixInSpace(pool);
    Nesting(one.Masked(), pool.Masked());
  }

  /**
   The exported number is right for every list of subnets exactly when the pool holds at
   most 2^53 subnets of the length asked for: every IPv4 pool, not every IPv6 pool.
   */
  lemma ReportedFreeExactIff(pool: Prefix, length: nat)
    requires length <= Width(pool.family)
    ensures (forall subnets :: ReportedFree(pool, subnets, length) == FreeCount(pool, subnets, length))
       <==> length - pool.bits <= PRECISION
  {
    if length - pool.bits <= PRECISION {
      forall subnets
        ensures ReportedFree(pool, subnets, length) == FreeCount(pool, subnets, length)
      {
        ReportedFreeExact(pool, subnets, length);
      }
    } else {
      var one := ReportedFreeRounds(pool, length);
    }
  }

  lemma SameMembers(subnets: seq<Prefix>, others: seq<Prefix>)
    requires forall s: Prefix :: s in subnets ==> s in others
    ensures forall b :: b in Blocks(subnets) ==> b in Blocks(others)
  {
    forall b | b in Blocks(subnets)
      ensures b in Blocks(others)
    {
      var i :| 0 <= i < |subnets| && Blocks(subnets)[i] == b;
      assert subnets[i] in others;
      var j :| 0 <= j < |others| && others[j] == subnets[i];
      assert Blocks(others)[j] == b;
    }
  }

  /** The exported free count depends only on which subnets exist, at every length and rounded or not. */
  lemma ReportedFreeDependsOnMembers(pool: Prefix, subnets: seq<Prefix>, others: seq<Prefix>, length: int)
    requires forall s: Prefix :: s in subnets <==> s in others
    ensures ReportedFree(pool, subnets, length) == ReportedFree(pool, others, length)
  {
    var b := pool.Masked();
    SameMembers(subnets, others);
    SameMembers(others, subnets);
    FreeRangesCover(b, Blocks(subnets));
    FreeRangesCover(b, Blocks(others));
    assert forall a :: FreeAddress(b, Blocks(subnets), a) <==> FreeAddress(b, Blocks(others), a);
    NormalUnique(FreeRanges(b, Blocks(subnets)), FreeRanges(b, Blocks(others)));
  }

  /** Positions of the subnets of one length that overlap the pool prefix. */
  function UsedPositions(subnets: seq<Prefix>, pool: Prefix, length: int): set<nat> {
    set i | 0 <= i < |subnets| && subnets[i].bits == length && Overlaps(pool, subnets[i])
  }

  /** Tallies the overlapping subnets by length and returns the tally of one length. */
  method CalculateUsedSubnets(subnets: seq<Prefix>, ipPrefix: Prefix, prefixLength: int) returns (used: nat)
    ensures used == |UsedPositions(subnets, ipPrefix, prefixLength)|
  {
    var result: map<int, nat> := map[];
    for i := 0 to |subnets|
      invariant forall l :: (if l in result then result[l] else 0) == |UsedPositions(subnets[..i], ipPrefix, l)|
    {
      var subnet := subnets[i];
      forall l
        ensures |UsedPositions(subnets[..i + 1], ipPrefix, l)|
             == |UsedPositions(subnets[..i], ipPrefix, l)| + if subnet.bits == l && Overlaps(ipPrefix, subnet) then 1 else 0
      {
        UsedPositionsSnoc(subnets, ipPrefix, l, i);
      }
      if !Overlaps(ipPrefix, subnet) {
        continue;
      }
      result := result[subnet.bits := (if subnet.bits in result then result[subnet.bits] else 0) + 1];
    }
    assert subnets[..|subnets|] == subnets;
    used := if prefixLength in result then result[prefixLength] else 0;
  }

  /** A further subnet raises the used count of its own length only, and only if it overlaps the pool. */
  lemma UsedPositionsSnoc(subnets: seq<Prefix>, pool: Prefix, length: int, i: nat)
    requires i < |subnets|
    ensures |UsedPositions(subnets[..i + 1], pool, length)|
         == |UsedPositions(subnets[..i], pool, length)|
            + if subnets[i].bits == length && Overlaps(pool, subnets[i]) then 1 else 0
  {
    var before, after := UsedPositions(subnets[..i], pool, length), UsedPositions(subnets[..i + 1], pool, length);
    assert after == before + if subnets[i].bits == length && Overlaps(pool, subnets[i]) then {i} else {};
  }

  /** At the lengths the exporter asks about, overlapping the pool prefix means lying inside it. */
  lemma OverlapMeansContained(pool: Prefix, subnet: Prefix)
    requires pool.bits <= subnet.bits
    ensures Overlaps(pool, subnet) <==> Inside(subnet.Masked(), pool.Masked())
  {
    OverlapsMeansMeeting(pool, subnet);
    if pool.family == subnet.family {
      Nesting(subnet.Masked(), pool.Masked());
    }
  }

  /** Used counts add up over lists, so they do not depend on the order of the subnets. */
  lemma {:induction false} UsedConcat(subnets: seq<Prefix>, more: seq<Prefix>, pool: Prefix, length: int)
    ensures |UsedPositions(subnets + more, pool, length)|
         == |UsedPositions(subnets, pool, length)| + |UsedPositions(more, pool, length)|
    decreases |more|
  {
    if more == [] {
      assert subnets + more == subnets;
      assert UsedPositions(more, pool, length) == {};
    } else {
      var n, all := |more| - 1, subnets + more;
      UsedConcat(subnets, more[..n], pool, length);
      UsedPositionsSnoc(more, pool, length, n);
      UsedPositionsSnoc(all, pool, length, |all| - 1);
      assert more[..n + 1] == more && all[..|all| - 1 + 1] == all && all[..|all| - 1] == subnets + more[..n];
    }
  }

  /**
   How many free blocks of the pool prefix allocating `s` takes at a length: all those under it,
   or the one around it if that was free.
   */
  function FreeCost(pool: Prefix, subnets: seq<Prefix>, s: Prefix, length: nat): nat
    requires length <= Width(pool.family)
  {
    var bits := if s.bits < pool.bits then pool.bits else s.bits;
    if !Overlaps(pool, s) then 0
    else if bits <= length then Pow2(length - bits)
    else if FreeBlock(pool.Masked(), Blocks(subnets), BlockAt(s.Key(), Width(pool.family) - length)) then 1 else 0
  }

  /** No subnet listed overlaps `s`. */
  predicate Unused(subnets: seq<Prefix>, s: Prefix) {
    forall i :: 0 <= i < |subnets| ==> !Overlaps(s, subnets[i])
  }

  /**
   Allocating a subnet that overlaps no other, in this pool prefix or elsewhere, and at any
   place in the list: the used count changes only for its own length and only if it overlaps
   the pool prefix; the free count drops by what it costs.
   Read backwards this is what releasing it gives back.
   */
  lemma AllocateSubnet(pool: Prefix, before: seq<Prefix>, s: Prefix, after: seq<Prefix>, length: nat)
    requires length <= Width(pool.family) && Unused(before + after, s)
    ensures |UsedPositions(before + [s] + after, pool, length)|
         == |UsedPositions(before + after, pool, length)| + if s.bits == length && Overlaps(pool, s) then 1 else 0
    ensures FreeCount(pool, before + after, length) - FreeCount(pool, before + [s] + after, length)
         == FreeCost(pool, before + after, s, length)
  {
    UsedOne(pool, s, length);
    UsedConcat(before + [s], after, pool, length);
    UsedConcat(before, [s], pool, length);
    UsedConcat(before, after, pool, length);
    AllocateFree(pool, before, s, after, length, Width(pool.family));
  }

  lemma UsedOne(pool: Prefix, s: Prefix, length: int)
    ensures |UsedPositions([s], pool, length)| == if s.bits == length && Overlaps(pool, s) then 1 else 0
  {
    assert UsedPositions([s], pool, length) == if s.bits == length && Overlaps(pool, s) then {0} else {};
  }

  lemma UnusedBlocks(subnets: seq<Prefix>, s: Prefix)
    ensures Unused(subnets, s) <==> forall b :: b in Blocks(subnets) ==> Disjoint(s.Masked(), b)
  {
    forall i | 0 <= i < |subnets|
      ensures !Overlaps(s, subnets[i]) <==> Disjoint(s.Masked(), Blocks(subnets)[i])
    {
      OverlapsMeansMeeting(s, subnets[i]);
    }
  }

  /** Overlapping prefixes are of one family, so one width gives both their sizes. */
  lemma MeetingExps(pool: Prefix, s: Prefix, width: nat)
    requires Overlaps(pool, s) && width == Width(pool.family)
    ensures pool.Masked().exp == width - pool.bits && s.Masked().exp == width - s.bits
  {
  }

  lemma AllocateFree(pool: Prefix, before: seq<Prefix>, s: Prefix, after: seq<Prefix>, length: nat, width: nat)
    requires length <= width == Width(pool.family) && Unused(before + after, s)
    ensures FreeCount(pool, before + after, length) - FreeCount(pool, before + [s] + after, length)
         == FreeCost(pool, before + after, s, length)
  {
    var m, b, t := width - length, pool.Masked(), s.Masked();
    var oldBlocks, newBlocks := Blocks(before + after), Blocks(before + [s] + after);
    var d := (if t.exp <= b.exp then t.exp else b.exp) - m;
    InsertedBlocks(before, s, after);
    UnusedBlocks(before + after, s);
    InsertionStep(b, oldBlocks, newBlocks, t, s.Key(), m, d);
    CostAsBlocks(pool, before + after, s, length, width, d);
    assert FreeCount(pool, before + after, length) == |FreeSet(b, oldBlocks, m)|;
    assert FreeCount(pool, before + [s] + after, length) == |FreeSet(b, newBlocks, m)|;
  }

  lemma CostAsBlocks(pool: Prefix, subnets: seq<Prefix>, s: Prefix, length: nat, width: nat, d: int)
    requires length <= width == Width(pool.family)
    requires var b, t := pool.Masked(), s.Masked(); d == (if t.exp <= b.exp then t.exp else b.exp) - (width - length)
    ensures FreeCost(pool, subnets, s, length)
         == if Disjoint(s.Masked(), pool.Masked()) then 0
            else if 0 <= d then Pow2(d)
            else if FreeBlock(pool.Masked(), Blocks(subnets), BlockAt(s.Key(), width - length)) then 1 else 0
  {
    OverlapsMeansMeeting(pool, s);
    if Overlaps(pool, s) {
      MeetingExps(pool, s, width);
      assert d == length - if s.bits < pool.bits then pool.bits else s.bits;
    }
  }

  lemma InsertedBlocks(before: seq<Prefix>, s: Prefix, after: seq<Prefix>)
    ensures forall x :: x in Blocks(before + after) + [s.Masked()] <==> x in Blocks(before + [s] + after)
  {
    assert Blocks(before + [s] + after) == Blocks(before) + [s.Masked()] + Blocks(after);
    assert Blocks(before + after) == Blocks(before) + Blocks(after);
  }

  /** Two used subnets name different blocks: what distinct CIDRs give once host bits are cleared. */
  predicate DistinctUsed(pool: Prefix, subnets: seq<Prefix>, length: nat) {
    forall i, j :: i in UsedPositions(subnets, pool, length) && j in UsedPositions(subnets, pool, length) && i != j
      ==> subnets[i].Masked() != subnets[j].Masked()
  }

  lemma UsedIsInside(pool: Prefix, subnets: seq<Prefix>, length: nat, i: nat)
    requires pool.bits <= length <= Width(pool.family) && i in UsedPositions(subnets, pool, length)
    ensures Inside(subnets[i].Masked(), pool.Masked()) && subnets[i].Masked().exp == Width(pool.family) - length
  {
    OverlapMeansContained(pool, subnets[i]);
  }

  lemma UsedBlocks(pool: Prefix, subnets: seq<Prefix>, length: nat, bs: seq<Block>, m: nat)
    requires pool.bits <= length <= Width(pool.family) && DistinctUsed(pool, subnets, length)
    requires bs == Blocks(subnets) && m == Width(pool.family) - length
    ensures BlocksOfSize(pool.Masked(), bs, UsedPositions(subnets, pool, length), m)
  {
    forall i | i in UsedPositions(subnets, pool, length)
      ensures i < |bs| && bs[i].exp == m && Inside(bs[i], pool.Masked())
    {
      UsedIsInside(pool, subnets, length, i);
    }
  }

  /** Used and free subnets of one length never add up to more than the total exported beside them. */
  lemma UsedAndFreeFit(pool: Prefix, subnets: seq<Prefix>, length: nat)
    requires pool.bits <= length <= Width(pool.family) && DistinctUsed(pool, subnets, length)
    ensures |UsedPositions(subnets, pool, length)| + FreeCount(pool, subnets, length) <= Pow2(length - pool.bits)
  {
    FitsBlocks(pool, subnets, length, pool.Masked(), Blocks(subnets), UsedPositions(subnets, pool, length), Width(pool.family) - length);
  }

  lemma FitsBlocks(pool: Prefix, subnets: seq<Prefix>, length: nat, b: Block, bs: seq<Block>, used: set<nat>, m: nat)
    requires pool.bits <= length <= Width(pool.family) && DistinctUsed(pool, subnets, length)
    requires b == pool.Masked() && bs == Blocks(subnets) && m == Width(pool.family) - length
    requires used == UsedPositions(subnets, pool, length)
    ensures |used| + |FreeSet(b, bs, m)| <= Pow2(length - pool.bits)
  {
    UsedBlocks(pool, subnets, length, bs, m);
    DistinctFit(b, bs, used, m, length - pool.bits);
  }

  /**
   Conservation at the length asked for, for any subnets that do not overlap each other: those
   of the pool's other prefixes, which the exporter passes along, take no part of this one.
   */
  lemma CountsConserve(pool: Prefix, subnets: seq<Prefix>, length: nat)
    requires pool.bits <= length <= Width(pool.family) && PairwiseDisjoint(Blocks(subnets))
    ensures Pow2(length - pool.bits)
         == FreeCount(pool, subnets, length)
            + WeightedCount(Parts(pool.Masked(), Blocks(subnets)), Width(pool.family) - length)
            + |AroundSubnets(pool.Masked(), Blocks(subnets), Width(pool.family) - length)|
  {
    Conservation(pool.Masked(), Blocks(subnets), Width(pool.family) - length, length - pool.bits);
  }
}
