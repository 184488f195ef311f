/**
 What the samples of the subnet report say, in terms of the listed pools and subnets alone:
 which are sent, in which order, under which labels, and what their numbers count.
 */
module SubnetMeaning {
  import opened BlockDecomposition
  import opened CidrBlocks
  import opened Float64
  import opened PowersOfTwo
  import opened ReportKeys
  import opened SubnetAccounting
  import opened SubnetCounts
  import opened SubnetPools
  import opened Wrappers

  /** A sample of this kind for this pool, prefix and length, labelled with the pool's own identity. */
  predicate About(x: Sample, kind: Kind, pool: Pool, prefix: RawPrefix, length: int) {
    && x.kind == kind && x.prefix == prefix && x.length == length
    && x.ipVersion == pool.ipVersion && x.projectID == pool.projectID && x.poolID == pool.id && x.poolName == pool.name
  }

  /** The listed subnets of the pool that have this length and lie inside the prefix. */
  function UsedIn(subnets: seq<Subnet>, id: string, prefix: Prefix, length: int): set<nat> {
    set i | 0 <= i < |subnets| && BelongsTo(subnets[i], id) && subnets[i].cidr.value.bits == length
            && Inside(subnets[i].cidr.value.Masked(), prefix.Masked())
  }

  /** The blocks of the prefix with 2^m addresses that meet no listed subnet of the pool. */
  function FreeIn(subnets: seq<Subnet>, id: string, prefix: Prefix, m: nat): set<nat> {
    set i | i in AlignedIn(prefix.Masked().Lo(), prefix.Masked().Hi(), m)
            && forall s :: s in subnets && BelongsTo(s, id) ==> Disjoint(Block(i, m), s.cidr.value.Masked())
  }

  /** The blocks of this length in the prefix; there are none longer than an address. */
  function BlocksIn(prefix: Prefix, length: int): set<nat> {
    if 0 <= length <= Width(prefix.family)
    then AlignedIn(prefix.Masked().Lo(), prefix.Masked().Hi(), Width(prefix.family) - length) else {}
  }

  function FreeBlocksIn(subnets: seq<Subnet>, id: string, prefix: Prefix, length: int): set<nat> {
    if 0 <= length <= Width(prefix.family) then FreeIn(subnets, id, prefix, Width(prefix.family) - length) else {}
  }

  /** The length is one of the addresses and the prefix holds at most 2^53 blocks of it. */
  predicate Countable(prefix: Prefix, length: int) {
    0 <= length <= Width(prefix.family) && length - prefix.bits <= PRECISION
  }

  /** `subnets_total`: how many blocks of this length the prefix holds. */
  predicate TellsTotal(x: Sample, pool: Pool, prefix: Prefix, length: int)
    requires prefix.bits <= length
  {
    && About(x, Total, pool, prefix, length)
    && x.value == Pow2(length - prefix.bits)
    && (length <= Width(prefix.family) ==> x.value == |BlocksIn(prefix, length)|)
  }

  /** `subnets_used`: how many of the pool's subnets have this length and lie in the prefix. */
  predicate TellsUsed(x: Sample, pool: Pool, prefix: Prefix, subnets: seq<Subnet>, length: int) {
    About(x, Used, pool, prefix, length) && x.value == |UsedIn(subnets, pool.id, prefix, length)|
  }

  /**
   `subnets_free`: up to 2^53, how many blocks meet none of the pool's subnets. At any size it is
   the float64 sum that `SubnetCounts.FreeSumMeaning` describes.
   */
  predicate TellsFree(x: Sample, pool: Pool, prefix: Prefix, subnets: seq<Subnet>, length: int) {
    && About(x, Free, pool, prefix, length)
    && x.value == ReportedFree(prefix, SubnetsOf(subnets, pool.id), length)
    && (Countable(prefix, length) ==> x.value == |FreeBlocksIn(subnets, pool.id, prefix, length)|)
  }

  lemma {:induction false} SubnetsOfMember(subnets: seq<Subnet>, id: string, p: Prefix)
    ensures p in SubnetsOf(subnets, id) <==> exists s :: s in subnets && BelongsTo(s, id) && s.cidr.value == p
    decreases |subnets|
  {
    if subnets != [] {
      var init, last := subnets[..|subnets| - 1], subnets[|subnets| - 1];
      SubnetsOfMember(init, id, p);
      assert subnets == init + [last];
    }
  }

  lemma {:induction false} UsedInCount(subnets: seq<Subnet>, id: string, prefix: Prefix, length: int)
    requires prefix.bits <= length
    ensures |UsedPositions(SubnetsOf(subnets, id), prefix, length)| == |UsedIn(subnets, id, prefix, length)|
    decreases |subnets|
  {
    if subnets == [] {
      assert UsedPositions([], prefix, length) == {} && UsedIn([], id, prefix, length) == {};
    } else {
      UsedInCount(subnets[..|subnets| - 1], id, prefix, length);
      UsedInSnoc(subnets[..|subnets| - 1], subnets[|subnets| - 1], id, prefix, length);
      assert subnets == subnets[..|subnets| - 1] + [subnets[|subnets| - 1]];
    }
  }

  lemma UsedInSnoc(init: seq<Subnet>, s: Subnet, id: string, prefix: Prefix, length: int)
    requires prefix.bits <= length
    requires |UsedPositions(SubnetsOf(init, id), prefix, length)| == |UsedIn(init, id, prefix, length)|
    ensures |UsedPositions(SubnetsOf(init + [s], id), prefix, length)| == |UsedIn(init + [s], id, prefix, length)|
  {
    assert (init + [s])[..|init|] == init;
    var own := SubnetsOf(init, id);
    if BelongsTo(s, id) {
      var p := s.cidr.value;
      UsedConcat(own, [p], prefix, length);
      UsedOne(prefix, p, length);
      if p.bits == length {
        OverlapMeansContained(prefix, p);
      }
      assert SubnetsOf(init + [s], id) == own + [p];
      UsedInMore(init, s, id, prefix, length, p.bits == length && Overlaps(prefix, p));
    } else {
      assert SubnetsOf(init + [s], id) == own;
      UsedInMore(init, s, id, prefix, length, false);
    }
  }

  lemma UsedInMore(init: seq<Subnet>, s: Subnet, id: string, prefix: Prefix, length: int, more: bool)
    requires more <==> BelongsTo(s, id) && s.cidr.value.bits == length && Inside(s.cidr.value.Masked(), prefix.Masked())
    ensures |UsedIn(init + [s], id, prefix, length)| == |UsedIn(init, id, prefix, length)| + if more then 1 else 0
  {
    assert UsedIn(init + [s], id, prefix, length) == UsedIn(init, id, prefix, length) + if more then {|init|} else {};
  }

  lemma FreeInCount(subnets: seq<Subnet>, id: string, prefix: Prefix, m: nat)
    ensures FreeSet(prefix.Masked(), Blocks(SubnetsOf(subnets, id)), m) == FreeIn(subnets, id, prefix, m)
  {
    var own := SubnetsOf(subnets, id);
    forall i | i in AlignedIn(prefix.Masked().Lo(), prefix.Masked().Hi(), m)
      ensures FreeBlock(prefix.Masked(), Blocks(own), Block(i, m))
         <==> forall s :: s in subnets && BelongsTo(s, id) ==> Disjoint(Block(i, m), s.cidr.value.Masked())
    {
      AlignedInIff(prefix.Masked().Lo(), prefix.Masked().Hi(), m, i);
      ClearOfAll(subnets, id, own, Block(i, m));
    }
  }

  lemma ClearOfAll(subnets: seq<Subnet>, id: string, own: seq<Prefix>, b: Block)
    requires own == SubnetsOf(subnets, id)
    ensures (forall c :: c in Blocks(own) ==> Disjoint(b, c))
       <==> forall s :: s in subnets && BelongsTo(s, id) ==> Disjoint(b, s.cidr.value.Masked())
  {
    if forall c :: c in Blocks(own) ==> Disjoint(b, c) {
      forall s | s in subnets && BelongsTo(s, id)
        ensures Disjoint(b, s.cidr.value.Masked())
      {
        SubnetsOfMember(subnets, id, s.cidr.value);
        var i :| 0 <= i < |own| && own[i] == s.cidr.value;
        assert Blocks(own)[i] in Blocks(own);
      }
    }
    if forall s :: s in subnets && BelongsTo(s, id) ==> Disjoint(b, s.cidr.value.Masked()) {
      forall c | c in Blocks(own)
        ensures Disjoint(b, c)
      {
        var i :| 0 <= i < |own| && Blocks(own)[i] == c;
        SubnetsOfMember(subnets, id, own[i]);
      }
    }
  }

  lemma TotalCounts(prefix: Prefix, b: Block, length: nat, width: nat)
    requires b == prefix.Masked() && prefix.bits <= length <= width == Width(prefix.family)
    ensures |AlignedIn(b.Lo(), b.Hi(), width - length)| == Pow2(length - prefix.bits)
  {
    AlignedInBlock(b, width - length);
  }

  lemma TotalTells(x: Sample, pool: Pool, prefix: Prefix, length: int)
    requires prefix.bits <= length && x == SampleOf(pool, prefix, length, Total, Pow2(length - prefix.bits))
    ensures TellsTotal(x, pool, prefix, length)
  {
    if length <= Width(prefix.family) {
      TotalCounts(prefix, prefix.Masked(), length, Width(prefix.family));
    }
  }

  lemma UsedTells(x: Sample, pool: Pool, prefix: Prefix, subnets: seq<Subnet>, length: int)
    requires prefix.bits <= length
    requires x == SampleOf(pool, prefix, length, Used, |UsedPositions(SubnetsOf(subnets, pool.id), prefix, length)|)
    ensures TellsUsed(x, pool, prefix, subnets, length)
  {
    UsedInCount(subnets, pool.id, prefix, length);
  }

  lemma FreeCountsAt(prefix: Prefix, own: seq<Prefix>, subnets: seq<Subnet>, id: string, length: nat, m: nat)
    requires Countable(prefix, length) && m == Width(prefix.family) - length && own == SubnetsOf(subnets, id)
    ensures ReportedFree(prefix, own, length) == |FreeIn(subnets, id, prefix, m)|
  {
    ReportedFreeExact(prefix, own, length);
    FreeCountIs(prefix, own, length, m);
    FreeInCount(subnets, id, prefix, m);
  }

  lemma FreeCountIs(prefix: Prefix, own: seq<Prefix>, length: nat, m: nat)
    requires length <= Width(prefix.family) && m == Width(prefix.family) - length
    ensures FreeCount(prefix, own, length) == |FreeSet(prefix.Masked(), Blocks(own), m)|
  {
  }

  lemma FreeBlocksAt(prefix: Prefix, subnets: seq<Subnet>, id: string, length: nat, m: nat)
    requires length <= Width(prefix.family) && m == Width(prefix.family) - length
    ensures FreeBlocksIn(subnets, id, prefix, length) == FreeIn(subnets, id, prefix, m)
    ensures BlocksIn(prefix, length) == AlignedIn(prefix.Masked().Lo(), prefix.Masked().Hi(), m)
  {
  }

  lemma FreeCounts(prefix: Prefix, own: seq<Prefix>, subnets: seq<Subnet>, id: string, length: nat, m: nat)
    requires Countable(prefix, length) && m == Width(prefix.family) - length && own == SubnetsOf(subnets, id)
    ensures ReportedFree(prefix, own, length) == |FreeBlocksIn(subnets, id, prefix, length)|
  {
    FreeCountsAt(prefix, own, subnets, id, length, m);
    FreeBlocksAt(prefix, subnets, id, length, m);
  }

  lemma FreeTells(x: Sample, pool: Pool, prefix: Prefix, subnets: seq<Subnet>, length: int, own: seq<Prefix>)
    requires prefix.bits <= length && About(x, Free, pool, prefix, length) && own == SubnetsOf(subnets, pool.id)
    requires x.value == ReportedFree(prefix, own, length)
    ensures TellsFree(x, pool, prefix, subnets, length)
  {
    if Countable(prefix, length) {
      FreeCounts(prefix, own, subnets, pool.id, length, Width(prefix.family) - length);
    }
  }

  /** The three samples at one length, in the order sent. */
  ghost predicate Tells(a: Sample, b: Sample, c: Sample, pool: Pool, prefix: Prefix, subnets: seq<Subnet>, length: int)
    requires prefix.bits <= length
  {
    TellsTotal(a, pool, prefix, length) && TellsUsed(b, pool, prefix, subnets, length) && TellsFree(c, pool, prefix, subnets, length)
  }

  lemma TripleTells(pool: Pool, prefix: Prefix, subnets: seq<Subnet>, length: int, a: Sample, b: Sample, c: Sample)
    requires prefix.bits <= length && [a, b, c] == Triple(pool, prefix, SubnetsOf(subnets, pool.id), length)
    ensures Tells(a, b, c, pool, prefix, subnets, length)
  {
    TripleIs(pool, prefix, SubnetsOf(subnets, pool.id), length, a, b, c);
    TotalTells(a, pool, prefix, length);
    UsedTells(b, pool, prefix, subnets, length);
    FreeTells(c, pool, prefix, subnets, length, SubnetsOf(subnets, pool.id));
  }

  lemma TripleIs(pool: Pool, prefix: Prefix, own: seq<Prefix>, length: int, a: Sample, b: Sample, c: Sample)
    requires prefix.bits <= length && [a, b, c] == Triple(pool, prefix, own, length)
    ensures a == SampleOf(pool, prefix, length, Total, Pow2(length - prefix.bits))
    ensures b == SampleOf(pool, prefix, length, Used, |UsedPositions(own, prefix, length)|)
    ensures About(c, Free, pool, prefix, length) && c.value == ReportedFree(prefix, own, length)
  {
    assert [a, b, c][0] == a && [a, b, c][1] == b && [a, b, c][2] == c;
  }

  /** Different subnets that count as used occupy different blocks: what distinct CIDRs give once host bits are cleared. */
  predicate UsedApart(subnets: seq<Subnet>, id: string, prefix: Prefix, length: int) {
    forall i, j :: i in UsedIn(subnets, id, prefix, length) && j in UsedIn(subnets, id, prefix, length) && i != j ==>
      subnets[i].cidr.value.Masked() != subnets[j].cidr.value.Masked()
  }

  function BlockIndex(subnets: seq<Subnet>, i: nat): nat {
    if i < |subnets| && subnets[i].cidr.Some? then subnets[i].cidr.value.Masked().index else 0
  }

  lemma UsedNotFree(subnets: seq<Subnet>, id: string, prefix: Prefix, length: nat, b: Block, m: nat, i: nat)
    requires length <= Width(prefix.family) && m == Width(prefix.family) - length && b == prefix.Masked()
    requires i in UsedIn(subnets, id, prefix, length) && prefix.bits <= length
    ensures subnets[i].cidr.value.Masked() == Block(BlockIndex(subnets, i), m)
    ensures BlockIndex(subnets, i) in AlignedIn(b.Lo(), b.Hi(), m) - FreeIn(subnets, id, prefix, m)
  {
    var s := subnets[i].cidr.value;
    FamilyOfInside(prefix, s);
    assert s.Masked() == Block(BlockIndex(subnets, i), m);
    AlignedInIff(b.Lo(), b.Hi(), m, BlockIndex(subnets, i));
    assert !Disjoint(s.Masked(), s.Masked()) && subnets[i] in subnets;
  }

  lemma FamilyOfInside(prefix: Prefix, s: Prefix)
    requires Inside(s.Masked(), prefix.Masked())
    ensures s.family == prefix.family && s.Masked().exp == Width(prefix.family) - s.bits
  {
    assert !Disjoint(prefix.Masked(), s.Masked());
    OverlapsMeansMeeting(prefix, s);
  }

  /** Used and free, as sent, never add up to more than the total sent with them. */
  lemma SentNumbersFit(a: Sample, b: Sample, c: Sample, pool: Pool, prefix: Prefix, subnets: seq<Subnet>, length: nat)
    requires prefix.bits <= length && Countable(prefix, length)
    requires Tells(a, b, c, pool, prefix, subnets, length) && UsedApart(subnets, pool.id, prefix, length)
    ensures b.value + c.value <= a.value
  {
    UsedFitsAt(subnets, pool.id, prefix, length, Width(prefix.family) - length);
  }

  lemma UsedFitsAt(subnets: seq<Subnet>, id: string, prefix: Prefix, length: nat, m: nat)
    requires prefix.bits <= length <= Width(prefix.family) && m == Width(prefix.family) - length
    requires UsedApart(subnets, id, prefix, length)
    ensures |UsedIn(subnets, id, prefix, length)| + |FreeBlocksIn(subnets, id, prefix, length)| <= |BlocksIn(prefix, length)|
  {
    UsedFits(subnets, id, prefix, length, prefix.Masked(), m);
    FreeBlocksAt(prefix, subnets, id, length, m);
  }

  lemma UsedFits(subnets: seq<Subnet>, id: string, prefix: Prefix, length: nat, b: Block, m: nat)
    requires prefix.bits <= length <= Width(prefix.family) && m == Width(prefix.family) - length && b == prefix.Masked()
    requires UsedApart(subnets, id, prefix, length)
    ensures |UsedIn(subnets, id, prefix, length)| + |FreeIn(subnets, id, prefix, m)| <= |AlignedIn(b.Lo(), b.Hi(), m)|
  {
    var used, free, all := UsedIn(subnets, id, prefix, length), FreeIn(subnets, id, prefix, m), AlignedIn(b.Lo(), b.Hi(), m);
    forall i | i in used
      ensures BlockIndex(subnets, i) in all - free && subnets[i].cidr.value.Masked() == Block(BlockIndex(subnets, i), m)
    {
      UsedNotFree(subnets, id, prefix, length, b, m, i);
    }
    InjectionSize(used, all - free, i => BlockIndex(subnets, i));
    SubsetSizes(all, free);
  }

  /** A key stands for a prefix of one of the pools and a length that is reported for it. */
  predicate Asked(pools: seq<Pool>, k: Key) {
    && k.pool < |pools|
    && k.prefix < |pools[k.pool].prefixes|
    && pools[k.pool].prefixes[k.prefix].Some?
    && pools[k.pool].prefixes[k.prefix].value.bits <= k.length
    && pools[k.pool].minLength <= k.length <= pools[k.pool].maxLength
  }

  /**
   The samples sent for some pools: for each pool, each of its prefixes and each length that is
   asked for, in this order, the three samples that tell its numbers.
   */
  ghost predicate Report(pools: seq<Pool>, subnets: seq<Subnet>, keys: seq<Key>, out: seq<Sample>) {
    && Ascends(keys)
    && (forall k :: k in keys <==> Asked(pools, k))
    && |out| == 3 * |keys|
    && forall i :: 0 <= i < |keys| ==> TellsKey(pools, subnets, keys[i], out[3 * i], out[3 * i + 1], out[3 * i + 2])
  }

  ghost predicate TellsKey(pools: seq<Pool>, subnets: seq<Subnet>, k: Key, a: Sample, b: Sample, c: Sample) {
    Asked(pools, k) && Tells(a, b, c, pools[k.pool], pools[k.pool].prefixes[k.prefix].value, subnets, k.length)
  }

  lemma AskedIsReported(pools: seq<Pool>, k: Key)
    requires AllGood(pools, |pools|)
    ensures Asked(pools, k) <==> IsReported(Shapes(pools), k)
  {
  }

  lemma KeyTells(pools: seq<Pool>, subnets: seq<Subnet>, k: Key, t: seq<Sample>)
    requires AllGood(pools, |pools|) && Asked(pools, k) && t == TripleAt(pools, subnets, k)
    ensures |t| == 3 && TellsKey(pools, subnets, k, t[0], t[1], t[2])
  {
    AskedIsReported(pools, k);
    assert t == [t[0], t[1], t[2]];
    TripleTells(pools[k.pool], pools[k.pool].prefixes[k.prefix].value, subnets, k.length, t[0], t[1], t[2]);
  }

  /** What is sent for a key, empty if it is not asked for. */
  function SentFor(pools: seq<Pool>, subnets: seq<Subnet>): Key -> seq<Sample> {
    k => if AllGood(pools, |pools|) then TripleAt(pools, subnets, k) else []
  }

  lemma KeysAsked(pools: seq<Pool>) returns (keys: seq<Key>)
    requires AllGood(pools, |pools|)
    ensures keys == PoolKeys(Shapes(pools), |pools|) && Ascends(keys) && forall k :: k in keys <==> Asked(pools, k)
  {
    keys := PoolKeys(Shapes(pools), |pools|);
    PoolKeysOnce(Shapes(pools), |pools|);
    PoolKeysAscend(Shapes(pools), |pools|);
    forall k
      ensures k in keys <==> Asked(pools, k)
    {
      AskedIsReported(pools, k);
    }
  }

  /** Without a pool that does not parse, the loops send the report. */
  lemma SamplesReport(pools: seq<Pool>, subnets: seq<Subnet>) returns (keys: seq<Key>)
    requires AllGood(pools, |pools|)
    ensures Report(pools, subnets, keys, PoolSamples(pools, |pools|, subnets))
  {
    keys := KeysAsked(pools);
    PoolSamplesByKey(pools, subnets, SentFor(pools, subnets));
    ReportByKey(pools, subnets, SentFor(pools, subnets), keys);
  }

  lemma TripleKinds(pools: seq<Pool>, subnets: seq<Subnet>, k: Key, t: seq<Sample>)
    requires AllGood(pools, |pools|) && Asked(pools, k) && t == TripleAt(pools, subnets, k)
    ensures |t| == 3 && t[0].kind == Total && t[1].kind == Used && t[2].kind == Free
  {
    AskedIsReported(pools, k);
  }

  lemma FirstOfKeys(pools: seq<Pool>, subnets: seq<Subnet>, keys: seq<Key>, at: Key -> seq<Sample>)
    requires AllGood(pools, |pools|) && at == SentFor(pools, subnets)
    requires keys != [] && forall k :: k in keys ==> Asked(pools, k)
    ensures var out := Emitted(at, keys);
            |out| >= 3 && out[0].kind == Total && out[1].kind == Used && out[2].kind == Free
  {
    forall k | k in keys
      ensures |at(k)| == 3
    {
      TripleKinds(pools, subnets, k, at(k));
    }
    EmittedAt(at, keys, 0);
    TripleKinds(pools, subnets, keys[0], at(keys[0]));
    assert forall j :: 0 <= j < 3 ==> Emitted(at, keys)[3 * 0 + j] == at(keys[0])[j];
  }

  /** Any samples at all begin with one of each kind, in the order in which they are sent. */
  lemma FirstKinds(pools: seq<Pool>, subnets: seq<Subnet>, out: seq<Sample>)
    requires AllGood(pools, |pools|) && out == PoolSamples(pools, |pools|, subnets) && out != []
    ensures |out| >= 3 && out[0].kind == Total && out[1].kind == Used && out[2].kind == Free
  {
    var keys := KeysAsked(pools);
    PoolSamplesByKey(pools, subnets, SentFor(pools, subnets));
    assert Emitted(SentFor(pools, subnets), []) == [];
    if keys != [] {
      FirstOfKeys(pools, subnets, keys, SentFor(pools, subnets));
    }
  }

  lemma ReportByKey(pools: seq<Pool>, subnets: seq<Subnet>, at: Key -> seq<Sample>, keys: seq<Key>)
    requires AllGood(pools, |pools|) && (forall k :: at(k) == TripleAt(pools, subnets, k))
    requires Ascends(keys) && forall k :: k in keys <==> Asked(pools, k)
    ensures Report(pools, subnets, keys, Emitted(at, keys))
  {
    var out := Emitted(at, keys);
    forall k | k in keys
      ensures |at(k)| == 3 && TellsKey(pools, subnets, k, at(k)[0], at(k)[1], at(k)[2])
    {
      KeyTells(pools, subnets, k, at(k));
    }
    EmittedSize(at, keys);
    forall i | 0 <= i < |keys|
      ensures TellsKey(pools, subnets, keys[i], out[3 * i], out[3 * i + 1], out[3 * i + 2])
    {
      SentAt(pools, subnets, at, keys, i);
    }
  }

  lemma SentAt(pools: seq<Pool>, subnets: seq<Subnet>, at: Key -> seq<Sample>, keys: seq<Key>, i: nat)
    requires i < |keys| && forall k :: k in keys ==> |at(k)| == 3
    requires TellsKey(pools, subnets, keys[i], at(keys[i])[0], at(keys[i])[1], at(keys[i])[2])
    ensures |Emitted(at, keys)| == 3 * |keys|
    ensures TellsKey(pools, subnets, keys[i], Emitted(at, keys)[3 * i], Emitted(at, keys)[3 * i + 1], Emitted(at, keys)[3 * i + 2])
  {
    EmittedAt(at, keys, i);
    assert Emitted(at, keys)[3 * i + 0] == at(keys[i])[0];
  }
}
