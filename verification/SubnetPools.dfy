/**
 The data of `ListSubnetsPerPool` in `exporters/neutron.go`: subnets are grouped by pool, and
 every pool, every prefix of the pool and every prefix length stands for one triple of samples.
 Address strings arrive parsed; `None` stands for one that does not parse.
 */
module SubnetPools {
  import opened CidrBlocks
  import opened PowersOfTwo
  import opened ReportKeys
  import opened Sequences
  import opened SubnetCounts
  import opened Wrappers

  datatype Subnet = Subnet(poolID: string, cidr: Option<Prefix>)

  datatype Pool = Pool(id: string, projectID: string, name: string, ipVersion: int,
                       prefixes: seq<Option<Prefix>>, minLength: int, maxLength: int)

  datatype PoolWithSubnets = PoolWithSubnets(pool: Pool, subnets: seq<Prefix>)

  predicate Parses(subnets: seq<Subnet>) {
    forall s :: s in subnets && s.poolID != "" ==> s.cidr.Some?
  }

  /** The prefix of a subnet, if it is asked for and belongs to a pool at all. */
  function Own(s: Subnet, asked: bool): seq<Prefix> {
    if asked && s.poolID != "" && s.cidr.Some? then [s.cidr.value] else []
  }

  /** The prefixes of one pool's subnets, in listing order. */
  function SubnetsOf(subnets: seq<Subnet>, id: string): seq<Prefix> {
    if subnets == [] then []
    else
      var s := subnets[|subnets| - 1];
      SubnetsOf(subnets[..|subnets| - 1], id) + Own(s, s.poolID == id)
  }

  lemma SubnetsOfSnoc(subnets: seq<Subnet>, i: nat, id: string)
    requires i < |subnets|
    ensures SubnetsOf(subnets[..i + 1], id)
         == if subnets[i].poolID == id && id != "" && subnets[i].cidr.Some?
            then SubnetsOf(subnets[..i], id) + [subnets[i].cidr.value]
            else SubnetsOf(subnets[..i], id)
  {
    assert subnets[..i + 1][..i] == subnets[..i];
  }

  /** A subnet with a parsed CIDR that names the pool. Subnets without a pool belong to none. */
  predicate BelongsTo(s: Subnet, id: string) { s.poolID == id && id != "" && s.cidr.Some? }

  function Belonging(subnets: seq<Subnet>, id: string): set<nat> { set i | 0 <= i < |subnets| && BelongsTo(subnets[i], id) }

  /** The prefixes are those of the pool's subnets, each once, in listing order. */
  ghost predicate PrefixesOf(own: seq<Prefix>, subnets: seq<Subnet>, id: string) {
    exists idx: seq<nat> :: Lists(idx, Belonging(subnets, id)) && ReadAt(own, subnets, idx)
  }

  ghost predicate ReadAt(own: seq<Prefix>, subnets: seq<Subnet>, idx: seq<nat>) {
    |own| == |idx| && forall k :: 0 <= k < |idx| ==> idx[k] < |subnets| && subnets[idx[k]].cidr == Some(own[k])
  }

  lemma BelongingSnoc(init: seq<Subnet>, last: Subnet, id: string)
    ensures Belonging(init + [last], id) == if BelongsTo(last, id) then Belonging(init, id) + {|init|} else Belonging(init, id)
    ensures forall i :: i in Belonging(init, id) ==> i < |init|
  {
  }

  lemma ReadOneMore(own: seq<Prefix>, init: seq<Subnet>, last: Subnet, idx: seq<nat>, id: string)
    requires ReadAt(own, init, idx)
    ensures ReadAt(own, init + [last], idx)
    ensures BelongsTo(last, id) ==> ReadAt(own + [last.cidr.value], init + [last], idx + [|init|])
  {
  }

  lemma {:induction false} SubnetsOfPositions(subnets: seq<Subnet>, id: string) returns (idx: seq<nat>)
    ensures Lists(idx, Belonging(subnets, id)) && ReadAt(SubnetsOf(subnets, id), subnets, idx)
    decreases |subnets|
  {
    idx := [];
    if subnets != [] {
      var init, last := subnets[..|subnets| - 1], subnets[|subnets| - 1];
      idx := SubnetsOfPositions(init, id);
      assert subnets == init + [last];
      BelongingSnoc(init, last, id);
      ReadOneMore(SubnetsOf(init, id), init, last, idx, id);
      if BelongsTo(last, id) {
        ListsMore(idx, Belonging(init, id), Belonging(subnets, id), |init|);
        idx := idx + [|init|];
      } else {
        assert SubnetsOf(subnets, id) == SubnetsOf(init, id);
      }
    }
  }

  lemma SubnetsOfMeaning(subnets: seq<Subnet>, id: string)
    ensures PrefixesOf(SubnetsOf(subnets, id), subnets, id)
  {
    var idx := SubnetsOfPositions(subnets, id);
  }

  /** Collects the prefixes of every pool's subnets; fails on a pooled subnet that does not parse. */
  method GroupSubnets(subnets: seq<Subnet>) returns (r: Option<map<string, seq<Prefix>>>)
    ensures r.Some? <==> Parses(subnets)
    ensures r.Some? ==> forall id :: Lookup(r.value, id) == SubnetsOf(subnets, id)
  {
    var subnetPrefixes: map<string, seq<Prefix>> := map[];
    for i := 0 to |subnets|
      invariant Parses(subnets[..i])
      invariant forall id :: Lookup(subnetPrefixes, id) == SubnetsOf(subnets[..i], id)
    {
      var subnet := subnets[i];
      ghost var before := subnetPrefixes;
      if subnet.poolID != "" {
        if subnet.cidr.None? {
          return None;
        }
        subnetPrefixes := subnetPrefixes[subnet.poolID := Lookup(subnetPrefixes, subnet.poolID) + [subnet.cidr.value]];
      }
      forall id
        ensures Lookup(subnetPrefixes, id) == SubnetsOf(subnets[..i + 1], id)
      {
        assert Lookup(before, id) == SubnetsOf(subnets[..i], id);
        SubnetsOfSnoc(subnets, i, id);
      }
    }
    assert subnets[..|subnets|] == subnets;
    return Some(subnetPrefixes);
  }

  /** Attaches to every pool the parsed prefixes of its subnets. */
  method SubnetpoolsWithSubnets(pools: seq<Pool>, subnets: seq<Subnet>) returns (r: Option<seq<PoolWithSubnets>>)
    ensures r.Some? <==> Parses(subnets)
    ensures r.Some? ==>
              |r.value| == |pools|
              && forall i :: 0 <= i < |pools| ==> r.value[i] == PoolWithSubnets(pools[i], SubnetsOf(subnets, pools[i].id))
    ensures r.Some? ==> forall i :: 0 <= i < |r.value| ==> PrefixesOf(r.value[i].subnets, subnets, r.value[i].pool.id)
  {
    forall id: string
      ensures PrefixesOf(SubnetsOf(subnets, id), subnets, id)
    {
      SubnetsOfMeaning(subnets, id);
    }
    var subnetPrefixes := GroupSubnets(subnets);
    if subnetPrefixes.None? {
      return None;
    }
    var result := [];
    for i := 0 to |pools|
      invariant |result| == i
      invariant forall j :: 0 <= j < i ==> result[j] == PoolWithSubnets(pools[j], SubnetsOf(subnets, pools[j].id))
    {
      result := result + [PoolWithSubnets(pools[i], Lookup(subnetPrefixes.value, pools[i].id))];
    }
    return Some(result);
  }

  /** Reading a missing key of a Go map of slices gives the empty slice. */
  function Lookup(m: map<string, seq<Prefix>>, id: string): seq<Prefix> {
    if id in m then m[id] else []
  }

  /** The prefixes of all subnets whose pool is one of `ids`. */
  function Pooled(subnets: seq<Subnet>, ids: set<string>): seq<Prefix> {
    if subnets == [] then []
    else
      var s := subnets[|subnets| - 1];
      Pooled(subnets[..|subnets| - 1], ids) + Own(s, s.poolID in ids)
  }

  function PoolIDs(pools: seq<Pool>): set<string> {
    if pools == [] then {} else PoolIDs(pools[1..]) + {pools[0].id}
  }

  lemma {:induction false} PoolIDsIff(pools: seq<Pool>, id: string)
    ensures id in PoolIDs(pools) <==> exists i :: 0 <= i < |pools| && pools[i].id == id
  {
    if pools != [] {
      PoolIDsIff(pools[1..], id);
      if i :| 0 <= i < |pools| && pools[i].id == id {
        assert i > 0 ==> pools[1..][i - 1].id == id;
      }
    }
  }

  function AllGrouped(pools: seq<Pool>, subnets: seq<Subnet>): seq<Prefix> {
    if pools == [] then [] else SubnetsOf(subnets, pools[0].id) + AllGrouped(pools[1..], subnets)
  }

  lemma OneMore<T>(all: seq<T>, left: seq<T>, right: seq<T>, x: seq<T>, l: seq<T>, r: seq<T>)
    requires multiset(all) == multiset(left) + multiset(right)
    requires (l == x && r == []) || (l == [] && r == x)
    ensures multiset(all + x) == multiset(left + l) + multiset(right + r)
  {
    assert left + [] == left && right + [] == right;
  }

  lemma {:induction false} PooledAdd(subnets: seq<Subnet>, ids: set<string>, id: string)
    requires id !in ids
    ensures multiset(Pooled(subnets, ids + {id})) == multiset(Pooled(subnets, ids)) + multiset(SubnetsOf(subnets, id))
    decreases |subnets|
  {
    if subnets != [] {
      var init, s := subnets[..|subnets| - 1], subnets[|subnets| - 1];
      PooledAdd(init, ids, id);
      OneMore(Pooled(init, ids + {id}), Pooled(init, ids), SubnetsOf(init, id),
              Own(s, s.poolID in ids + {id}), Own(s, s.poolID in ids), Own(s, s.poolID == id));
    }
  }

  /** Grouping loses no pooled subnet and gives none to two pools, when pool IDs are distinct. */
  lemma {:induction false} GroupingConserves(pools: seq<Pool>, subnets: seq<Subnet>)
    requires forall i, j :: 0 <= i < j < |pools| ==> pools[i].id != pools[j].id
    ensures multiset(AllGrouped(pools, subnets)) == multiset(Pooled(subnets, PoolIDs(pools)))
  {
    if pools == [] {
      PooledNone(subnets);
    } else {
      GroupingConserves(pools[1..], subnets);
      PoolIDsIff(pools[1..], pools[0].id);
      PooledAdd(subnets, PoolIDs(pools[1..]), pools[0].id);
    }
  }

  lemma {:induction false} PooledNone(subnets: seq<Subnet>)
    ensures Pooled(subnets, {}) == []
    decreases |subnets|
  {
    if subnets != [] {
      PooledNone(subnets[..|subnets| - 1]);
    }
  }

  datatype Kind = Total | Used | Free

  datatype Sample = Sample(kind: Kind, value: nat, ipVersion: int, prefix: RawPrefix, length: int,
                           projectID: string, poolID: string, poolName: string)

  function SampleOf(pool: Pool, prefix: Prefix, length: int, kind: Kind, value: nat): Sample {
    Sample(kind, value, pool.ipVersion, prefix, length, pool.projectID, pool.id, pool.name)
  }

  /** The three samples of one pool prefix at one length. */
  function Triple(pool: Pool, prefix: Prefix, subnets: seq<Prefix>, length: int): seq<Sample>
    requires prefix.bits <= length
  {
    [SampleOf(pool, prefix, length, Total, Pow2(length - prefix.bits)),
     SampleOf(pool, prefix, length, Used, |UsedPositions(subnets, prefix, length)|),
     SampleOf(pool, prefix, length, Free, ReportedFree(prefix, subnets, length))]
  }

  /** Lengths shorter than the prefix are skipped. */
  function AtLength(pool: Pool, prefix: Prefix, subnets: seq<Prefix>, length: int): seq<Sample> {
    if length < prefix.bits then [] else Triple(pool, prefix, subnets, length)
  }

  /** Samples of one pool prefix for the lengths from the pool's minimum up to, not including, `end`. */
  function LengthSamples(pool: Pool, prefix: Prefix, subnets: seq<Prefix>, end: int): seq<Sample>
    decreases end - pool.minLength
  {
    if end <= pool.minLength then []
    else LengthSamples(pool, prefix, subnets, end - 1) + AtLength(pool, prefix, subnets, end - 1)
  }

  lemma LengthSamplesSnoc(pool: Pool, prefix: Prefix, subnets: seq<Prefix>, length: int)
    requires pool.minLength <= length
    ensures LengthSamples(pool, prefix, subnets, length + 1)
         == LengthSamples(pool, prefix, subnets, length) + AtLength(pool, prefix, subnets, length)
  {
  }

  function PrefixSamples(pool: Pool, prefixes: seq<Prefix>, subnets: seq<Prefix>): seq<Sample> {
    if prefixes == [] then []
    else
      PrefixSamples(pool, prefixes[..|prefixes| - 1], subnets)
      + LengthSamples(pool, prefixes[|prefixes| - 1], subnets, pool.maxLength + 1)
  }

  predicate AllParse(pool: Pool) {
    forall p :: p in pool.prefixes ==> p.Some?
  }

  function Parsed(pool: Pool): (ps: seq<Prefix>)
    requires AllParse(pool)
    ensures |ps| == |pool.prefixes| && forall i :: 0 <= i < |ps| ==> ps[i] == pool.prefixes[i].value
  {
    seq(|pool.prefixes|, i requires 0 <= i < |pool.prefixes| => pool.prefixes[i].value)
  }

  /** The prefixes of the first `n` pools all parse. */
  predicate AllGood(pools: seq<Pool>, n: nat) {
    n <= |pools| && forall i :: 0 <= i < n ==> AllParse(pools[i])
  }

  /** Samples of one pool, whose subnets are picked out of all. */
  function SamplesOf(pool: Pool, subnets: seq<Subnet>): seq<Sample>
    requires AllParse(pool)
  {
    PrefixSamples(pool, Parsed(pool), SubnetsOf(subnets, pool.id))
  }

  /** Samples of the first `n` pools. */
  function PoolSamples(pools: seq<Pool>, n: nat, subnets: seq<Subnet>): seq<Sample>
    requires AllGood(pools, n)
  {
    if n == 0 then [] else PoolSamples(pools, n - 1, subnets) + SamplesOf(pools[n - 1], subnets)
  }

  lemma PoolSamplesSnoc(pools: seq<Pool>, n: nat, subnets: seq<Subnet>)
    requires AllGood(pools, n + 1)
    ensures PoolSamples(pools, n + 1, subnets) == PoolSamples(pools, n, subnets) + SamplesOf(pools[n], subnets)
  {
  }

  function ShapeOf(pool: Pool): (s: Shape)
    requires AllParse(pool)
  {
    Shape(seq<nat>(|pool.prefixes|, i requires 0 <= i < |pool.prefixes| => pool.prefixes[i].value.bits),
          pool.minLength, pool.maxLength)
  }

  function Shapes(pools: seq<Pool>): seq<Shape>
    requires AllGood(pools, |pools|)
  {
    seq(|pools|, i requires 0 <= i < |pools| => ShapeOf(pools[i]))
  }

  lemma LengthSamplesByKey(pool: Pool, prefix: Prefix, subnets: seq<Prefix>, at: Key -> seq<Sample>, shape: Shape, i: nat, j: nat, end: int)
    requires j < |shape.bits| && shape.bits[j] == prefix.bits && shape.minLength == pool.minLength
    requires forall l :: pool.minLength <= l < end && prefix.bits <= l ==> at(Key(i, j, l)) == Triple(pool, prefix, subnets, l)
    ensures LengthSamples(pool, prefix, subnets, end) == Emitted(at, LengthKeys(shape, i, j, end))
  {
    LengthsByKey(pool, prefix, subnets, at, shape, i, j, end, l => LengthSamples(pool, prefix, subnets, l));
  }

  lemma LengthsByKey(pool: Pool, prefix: Prefix, subnets: seq<Prefix>, at: Key -> seq<Sample>, shape: Shape, i: nat, j: nat, end: int,
                     all: int -> seq<Sample>)
    requires j < |shape.bits| && shape.bits[j] == prefix.bits && shape.minLength == pool.minLength
    requires forall l :: pool.minLength <= l < end && prefix.bits <= l ==> at(Key(i, j, l)) == Triple(pool, prefix, subnets, l)
    requires forall l :: all(l) == LengthSamples(pool, prefix, subnets, l)
    ensures all(end) == Emitted(at, LengthKeys(shape, i, j, end))
  {
    LengthSteps(pool, prefix, subnets, at, i, j, end, all);
    EmittedLengths(at, shape, i, j, end, all);
  }

  lemma LengthSteps(pool: Pool, prefix: Prefix, subnets: seq<Prefix>, at: Key -> seq<Sample>, i: nat, j: nat, end: int,
                    all: int -> seq<Sample>)
    requires forall l :: pool.minLength <= l < end && prefix.bits <= l ==> at(Key(i, j, l)) == Triple(pool, prefix, subnets, l)
    requires forall l :: all(l) == LengthSamples(pool, prefix, subnets, l)
    ensures forall l :: l <= pool.minLength ==> all(l) == []
    ensures forall l :: pool.minLength <= l < end ==> all(l + 1) == if l < prefix.bits then all(l) else all(l) + at(Key(i, j, l))
  {
    forall l | pool.minLength <= l < end
      ensures all(l + 1) == if l < prefix.bits then all(l) else all(l) + at(Key(i, j, l))
    {
      LengthSamplesNext(pool, prefix, subnets, l, at(Key(i, j, l)));
    }
  }

  lemma LengthSamplesNext(pool: Pool, prefix: Prefix, subnets: seq<Prefix>, length: int, triple: seq<Sample>)
    requires pool.minLength <= length && (prefix.bits <= length ==> triple == Triple(pool, prefix, subnets, length))
    ensures LengthSamples(pool, prefix, subnets, length + 1)
         == if length < prefix.bits then LengthSamples(pool, prefix, subnets, length)
            else LengthSamples(pool, prefix, subnets, length) + triple
  {
    LengthSamplesSnoc(pool, prefix, subnets, length);
  }

  /** `at` gives every reported length of the listed prefixes its triple. */
  ghost predicate GivesTriples(pool: Pool, prefixes: seq<Prefix>, subnets: seq<Prefix>, at: Key -> seq<Sample>, i: nat) {
    forall j, l :: 0 <= j < |prefixes| && prefixes[j].bits <= l && pool.minLength <= l <= pool.maxLength ==>
      at(Key(i, j, l)) == Triple(pool, prefixes[j], subnets, l)
  }

  lemma {:induction false} PrefixSamplesByKey(pool: Pool, prefixes: seq<Prefix>, subnets: seq<Prefix>,
                                              at: Key -> seq<Sample>, shape: Shape, i: nat)
    requires |prefixes| <= |shape.bits| && forall j :: 0 <= j < |prefixes| ==> shape.bits[j] == prefixes[j].bits
    requires shape.minLength == pool.minLength && shape.maxLength == pool.maxLength
    requires GivesTriples(pool, prefixes, subnets, at, i)
    ensures PrefixSamples(pool, prefixes, subnets) == Emitted(at, PrefixKeys(shape, i, |prefixes|))
    decreases |prefixes|
  {
    if prefixes != [] {
      var n := |prefixes| - 1;
      PrefixSamplesByKey(pool, prefixes[..n], subnets, at, shape, i);
      LengthSamplesByKey(pool, prefixes[n], subnets, at, shape, i, n, pool.maxLength + 1);
      EmittedConcat(at, PrefixKeys(shape, i, n), LengthKeys(shape, i, n, pool.maxLength + 1));
    }
  }

  /** The triple each reported key stands for. */
  function TripleAt(pools: seq<Pool>, subnets: seq<Subnet>, k: Key): seq<Sample>
    requires AllGood(pools, |pools|)
  {
    if IsReported(Shapes(pools), k) then
      Triple(pools[k.pool], pools[k.pool].prefixes[k.prefix].value, SubnetsOf(subnets, pools[k.pool].id), k.length)
    else []
  }

  /** `at` gives every reported key of the listed pools its triple. */
  ghost predicate Answers(pools: seq<Pool>, subnets: seq<Subnet>, at: Key -> seq<Sample>)
    requires AllGood(pools, |pools|)
  {
    forall i :: 0 <= i < |pools| ==> GivesTriples(pools[i], Parsed(pools[i]), SubnetsOf(subnets, pools[i].id), at, i)
  }

  lemma TripleAtAnswers(pools: seq<Pool>, subnets: seq<Subnet>, at: Key -> seq<Sample>)
    requires AllGood(pools, |pools|)
    requires forall k :: at(k) == TripleAt(pools, subnets, k)
    ensures Answers(pools, subnets, at)
  {
    forall i, j, l |
      0 <= i < |pools| && 0 <= j < |Parsed(pools[i])|
      && Parsed(pools[i])[j].bits <= l && pools[i].minLength <= l <= pools[i].maxLength
      ensures at(Key(i, j, l)) == Triple(pools[i], Parsed(pools[i])[j], SubnetsOf(subnets, pools[i].id), l)
    {
      assert IsReported(Shapes(pools), Key(i, j, l));
    }
  }

  /** An error-free run emits one triple for each reported pool, prefix and length, in loop order. */
  lemma PoolSamplesByKey(pools: seq<Pool>, subnets: seq<Subnet>, at: Key -> seq<Sample>)
    requires AllGood(pools, |pools|)
    requires forall k :: at(k) == TripleAt(pools, subnets, k)
    ensures PoolSamples(pools, |pools|, subnets) == Emitted(at, PoolKeys(Shapes(pools), |pools|))
  {
    var parts := seq(|pools|, k requires 0 <= k < |pools| && AllGood(pools, |pools|) => SamplesOf(pools[k], subnets));
    var all := seq(|pools| + 1, k requires 0 <= k <= |pools| && AllGood(pools, |pools|) => PoolSamples(pools, k, subnets));
    TripleAtAnswers(pools, subnets, at);
    forall k | 0 <= k < |pools|
      ensures all[k + 1] == all[k] + parts[k]
    {
      PoolSamplesSnoc(pools, k, subnets);
    }
    forall k | 0 <= k < |pools|
      ensures parts[k] == Emitted(at, PrefixKeys(Shapes(pools)[k], k, |Shapes(pools)[k].bits|))
    {
      OnePoolByKey(pools[k], SubnetsOf(subnets, pools[k].id), at, k);
    }
    EmittedPools(at, Shapes(pools), |pools|, parts, all);
  }

  lemma OnePoolByKey(pool: Pool, subnets: seq<Prefix>, at: Key -> seq<Sample>, i: nat)
    requires AllParse(pool) && GivesTriples(pool, Parsed(pool), subnets, at, i)
    ensures PrefixSamples(pool, Parsed(pool), subnets) == Emitted(at, PrefixKeys(ShapeOf(pool), i, |pool.prefixes|))
  {
    PrefixSamplesByKey(pool, Parsed(pool), subnets, at, ShapeOf(pool), i);
  }

  /** Converts a pool's prefixes, failing if one does not parse. */
  method IPPrefixes(pool: Pool) returns (r: Option<seq<Prefix>>)
    ensures r.Some? <==> AllParse(pool)
    ensures r.Some? ==> r.value == Parsed(pool)
  {
    var result := [];
    for i := 0 to |pool.prefixes|
      invariant |result| == i
      invariant forall j :: 0 <= j < i ==> pool.prefixes[j] == Some(result[j])
    {
      if pool.prefixes[i].None? {
        assert pool.prefixes[i] in pool.prefixes;
        return None;
      }
      result := result + [pool.prefixes[i].value];
    }
    return Some(result);
  }

  /** How many pools are listed before one whose prefixes do not parse. */
  function GoodPools(pools: seq<Pool>, n: nat): (k: nat)
    requires AllGood(pools, n)
    ensures n <= k && AllGood(pools, k) && (k < |pools| ==> !AllParse(pools[k]))
    decreases |pools| - n
  {
    if n == |pools| || !AllParse(pools[n]) then n else GoodPools(pools, n + 1)
  }
}
