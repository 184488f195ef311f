/**
 `ListSubnetsPerPool` of `exporters/neutron.go`: its loops, and what it sends when a metric it
 looks up was never registered.
 */
module SubnetReport {
  import opened CidrBlocks
  import opened PowersOfTwo
  import opened ReportKeys
  import opened SubnetCounts
  import opened SubnetMeaning
  import opened SubnetPools
  import opened Wrappers

  /** The metric under which a number is exported. Its handler looks it up in the exporter's table without a check. */
  function NameOf(x: Sample): string {
    match x.kind
    case Total => "subnets_total"
    case Used => "subnets_used"
    case Free => "subnets_free"
  }

  const NAMES: set<string> := {"subnets_total", "subnets_used", "subnets_free"}

  /** What has been sent, and whether a lookup has found nothing and ended it all. */
  datatype Channel = Channel(out: seq<Sample>, crashed: bool)

  /** Sends one sample if its metric is in the table. Nothing follows a lookup that found nothing. */
  function Send(table: set<string>, ch: Channel, x: Sample): Channel {
    if ch.crashed then ch
    else if NameOf(x) in table then Channel(ch.out + [x], false)
    else Channel(ch.out, true)
  }

  function SendAll(table: set<string>, ch: Channel, xs: seq<Sample>): Channel {
    if xs == [] then ch else Send(table, SendAll(table, ch, xs[..|xs| - 1]), xs[|xs| - 1])
  }

  lemma {:induction false} SendAllConcat(table: set<string>, ch: Channel, xs: seq<Sample>, ys: seq<Sample>)
    ensures SendAll(table, ch, xs + ys) == SendAll(table, SendAll(table, ch, xs), ys)
    decreases |ys|
  {
    if ys == [] {
      assert xs + ys == xs;
    } else {
      var init := ys[..|ys| - 1];
      SendAllConcat(table, ch, xs, init);
      assert (xs + ys)[..|xs + ys| - 1] == xs + init && (xs + ys)[|xs + ys| - 1] == ys[|ys| - 1];
    }
  }

  lemma SendThree(table: set<string>, ch: Channel, a: Sample, b: Sample, c: Sample)
    ensures SendAll(table, ch, [a, b, c]) == Send(table, Send(table, Send(table, ch, a), b), c)
  {
    SendAllSnoc(table, ch, [a, b], c);
    SendAllSnoc(table, ch, [a], b);
    SendAllSnoc(table, ch, [], a);
    assert [a, b] + [c] == [a, b, c] && [a] + [b] == [a, b] && [] + [a] == [a];
  }

  lemma SendAllSnoc(table: set<string>, ch: Channel, xs: seq<Sample>, x: Sample)
    ensures SendAll(table, ch, xs + [x]) == Send(table, SendAll(table, ch, xs), x)
  {
    assert (xs + [x])[..|xs|] == xs;
  }

  /** Every sample can be sent: its metric is in the table. */
  predicate AllNamed(table: set<string>, xs: seq<Sample>) {
    forall x :: x in xs ==> NameOf(x) in table
  }

  /** What comes before the first sample whose metric is missing. */
  function BeforeMissing(table: set<string>, xs: seq<Sample>): seq<Sample> {
    if xs == [] then []
    else if AllNamed(table, xs) then xs
    else BeforeMissing(table, xs[..|xs| - 1])
  }

  /** Sending into an empty channel gets as far as the lookups succeed. */
  lemma {:induction false} SendAllMeaning(table: set<string>, xs: seq<Sample>)
    ensures SendAll(table, Channel([], false), xs) == Channel(BeforeMissing(table, xs), !AllNamed(table, xs))
    decreases |xs|
  {
    if xs != [] {
      var init, last := xs[..|xs| - 1], xs[|xs| - 1];
      SendAllMeaning(table, init);
      assert xs == init + [last];
      assert last in xs;
      if AllNamed(table, init) {
        AllNamedPart(table, init);
        assert AllNamed(table, xs) <==> NameOf(last) in table;
      } else {
        assert !AllNamed(table, xs);
      }
    }
  }

  lemma AllNamedPart(table: set<string>, xs: seq<Sample>)
    requires AllNamed(table, xs)
    ensures BeforeMissing(table, xs) == xs
  {
  }

  /** The longest part from the start whose metrics are all there. */
  lemma {:induction false} BeforeMissingLongest(table: set<string>, xs: seq<Sample>)
    ensures var k := |BeforeMissing(table, xs)|;
            && BeforeMissing(table, xs) <= xs && AllNamed(table, xs[..k])
            && (k < |xs| ==> NameOf(xs[k]) !in table)
    decreases |xs|
  {
    if AllNamed(table, xs) {
      assert xs[..|xs|] == xs;
    } else {
      var init := xs[..|xs| - 1];
      assert xs == init + [xs[|xs| - 1]];
      BeforeMissingLongest(table, init);
      var k := |BeforeMissing(table, init)|;
      assert xs[..k] == init[..k];
      if k == |init| {
        assert AllNamed(table, init) by {
          assert init[..k] == init;
        }
      }
    }
  }

  lemma TripleSent(table: set<string>, ch: Channel, pool: Pool, prefix: Prefix, subnets: seq<Prefix>, length: int,
                   a: Sample, b: Sample, c: Sample)
    requires prefix.bits <= length && a == SampleOf(pool, prefix, length, Total, Pow2(length - prefix.bits))
    requires b == SampleOf(pool, prefix, length, Used, |UsedPositions(subnets, prefix, length)|)
    requires c == SampleOf(pool, prefix, length, Free, ReportedFree(prefix, subnets, length))
    ensures SendAll(table, ch, Triple(pool, prefix, subnets, length)) == Send(table, Send(table, Send(table, ch, a), b), c)
  {
    SendThree(table, ch, a, b, c);
  }

  method UsedSample(pool: Pool, prefix: Prefix, subnets: seq<Prefix>, prefixLength: int) returns (x: Sample)
    ensures x == SampleOf(pool, prefix, prefixLength, Used, |UsedPositions(subnets, prefix, prefixLength)|)
  {
    var usedSubnets := CalculateUsedSubnets(subnets, prefix, prefixLength);
    x := SampleOf(pool, prefix, prefixLength, Used, usedSubnets);
  }

  method FreeSample(pool: Pool, prefix: Prefix, subnets: seq<Prefix>, prefixLength: int) returns (x: Sample)
    ensures x == SampleOf(pool, prefix, prefixLength, Free, ReportedFree(prefix, subnets, prefixLength))
  {
    var freeSubnets := CalculateFreeSubnets(prefix, subnets, prefixLength);
    x := SampleOf(pool, prefix, prefixLength, Free, freeSubnets);
  }

  method EmitTriple(table: set<string>, ch: Channel, pool: Pool, prefix: Prefix, subnets: seq<Prefix>, prefixLength: int)
    returns (out: Channel)
    requires prefix.bits <= prefixLength
    ensures out == SendAll(table, ch, Triple(pool, prefix, subnets, prefixLength))
  {
    var total := SampleOf(pool, prefix, prefixLength, Total, Pow2(prefixLength - prefix.bits));
    var sent := Send(table, ch, total);
    var used := UsedSample(pool, prefix, subnets, prefixLength);
    sent := Send(table, sent, used);
    var free := FreeSample(pool, prefix, subnets, prefixLength);
    out := Send(table, sent, free);
    TripleSent(table, ch, pool, prefix, subnets, prefixLength, total, used, free);
  }

  lemma LengthStep(table: set<string>, ch: Channel, pool: Pool, prefix: Prefix, subnets: seq<Prefix>, length: int)
    requires pool.minLength <= length
    ensures var before := SendAll(table, ch, LengthSamples(pool, prefix, subnets, length));
            SendAll(table, ch, LengthSamples(pool, prefix, subnets, length + 1))
            == if length < prefix.bits then before else SendAll(table, before, Triple(pool, prefix, subnets, length))
  {
    LengthSamplesSnoc(pool, prefix, subnets, length);
    SendAllConcat(table, ch, LengthSamples(pool, prefix, subnets, length), AtLength(pool, prefix, subnets, length));
  }

  /** One turn of the loop over the lengths. */
  method EmitLength(table: set<string>, ch: Channel, before: Channel, pool: Pool, prefix: Prefix, subnets: seq<Prefix>,
                    prefixLength: int)
    returns (out: Channel)
    requires pool.minLength <= prefixLength && before == SendAll(table, ch, LengthSamples(pool, prefix, subnets, prefixLength))
    ensures out == SendAll(table, ch, LengthSamples(pool, prefix, subnets, prefixLength + 1))
  {
    LengthStep(table, ch, pool, prefix, subnets, prefixLength);
    out := before;
    if prefixLength >= prefix.bits {
      out := EmitTriple(table, out, pool, prefix, subnets, prefixLength);
    }
  }

  method EmitLengths(table: set<string>, ch: Channel, pool: Pool, prefix: Prefix, subnets: seq<Prefix>) returns (out: Channel)
    ensures out == SendAll(table, ch, LengthSamples(pool, prefix, subnets, pool.maxLength + 1))
  {
    out := ch;
    var prefixLength := pool.minLength;
    while prefixLength <= pool.maxLength
      invariant pool.minLength <= prefixLength
      invariant prefixLength <= pool.maxLength + 1 || prefixLength == pool.minLength
      invariant out == SendAll(table, ch, LengthSamples(pool, prefix, subnets, prefixLength))
      decreases pool.maxLength - prefixLength
    {
      out := EmitLength(table, ch, out, pool, prefix, subnets, prefixLength);
      prefixLength := prefixLength + 1;
    }
    SameLengths(pool, prefix, subnets, prefixLength);
  }

  lemma SameLengths(pool: Pool, prefix: Prefix, subnets: seq<Prefix>, end: int)
    requires end == pool.maxLength + 1 || pool.maxLength < end == pool.minLength
    ensures LengthSamples(pool, prefix, subnets, end) == LengthSamples(pool, prefix, subnets, pool.maxLength + 1)
  {
  }

  lemma PrefixSamplesSnoc(pool: Pool, prefixes: seq<Prefix>, subnets: seq<Prefix>, n: nat)
    requires n < |prefixes|
    ensures PrefixSamples(pool, prefixes[..n + 1], subnets)
         == PrefixSamples(pool, prefixes[..n], subnets) + LengthSamples(pool, prefixes[n], subnets, pool.maxLength + 1)
  {
    assert prefixes[..n + 1][..n] == prefixes[..n];
  }

  method EmitPrefixes(table: set<string>, ch: Channel, pool: Pool, prefixes: seq<Prefix>, subnets: seq<Prefix>) returns (out: Channel)
    ensures out == SendAll(table, ch, PrefixSamples(pool, prefixes, subnets))
  {
    out := ch;
    for j := 0 to |prefixes|
      invariant out == SendAll(table, ch, PrefixSamples(pool, prefixes[..j], subnets))
    {
      PrefixSamplesSnoc(pool, prefixes, subnets, j);
      SendAllConcat(table, ch, PrefixSamples(pool, prefixes[..j], subnets),
                    LengthSamples(pool, prefixes[j], subnets, pool.maxLength + 1));
      out := EmitLengths(table, out, pool, prefixes[j], subnets);
    }
    assert prefixes[..|prefixes|] == prefixes;
  }

  /** The samples of the pools listed before one whose prefixes do not parse. */
  function Reachable(pools: seq<Pool>, subnets: seq<Subnet>): seq<Sample> {
    if Parses(subnets) then PoolSamples(pools, GoodPools(pools, 0), subnets) else []
  }

  /** `out` is the report on the first `n` pools. */
  ghost predicate Reports(pools: seq<Pool>, n: nat, subnets: seq<Subnet>, out: seq<Sample>) {
    n <= |pools| && exists keys :: Report(pools[..n], subnets, keys, out)
  }

  lemma {:induction false} FirstPools(pools: seq<Pool>, first: seq<Pool>, n: nat, subnets: seq<Subnet>)
    requires AllGood(pools, n) && AllGood(first, n) && pools[..n] == first[..n]
    ensures PoolSamples(pools, n, subnets) == PoolSamples(first, n, subnets)
  {
    if n > 0 {
      assert pools[..n - 1] == pools[..n][..n - 1] == first[..n - 1] && pools[n - 1] == pools[..n][n - 1] == first[n - 1];
      FirstPools(pools, first, n - 1, subnets);
      PoolSamplesSnoc(pools, n - 1, subnets);
      PoolSamplesSnoc(first, n - 1, subnets);
    }
  }

  lemma ReachableReports(pools: seq<Pool>, subnets: seq<Subnet>)
    requires Parses(subnets)
    ensures Reports(pools, GoodPools(pools, 0), subnets, Reachable(pools, subnets))
  {
    var n := GoodPools(pools, 0);
    FirstPools(pools, pools[..n], n, subnets);
    var keys := SamplesReport(pools[..n], subnets);
  }

  lemma ReachableKinds(pools: seq<Pool>, subnets: seq<Subnet>)
    requires Reachable(pools, subnets) != []
    ensures OneOfEach(Reachable(pools, subnets))
  {
    var n := GoodPools(pools, 0);
    FirstPools(pools, pools[..n], n, subnets);
    FirstKinds(pools[..n], subnets, Reachable(pools, subnets));
  }

  /** The samples begin with one of each kind, in the order in which they are sent. */
  predicate OneOfEach(out: seq<Sample>) {
    |out| >= 3 && out[0].kind == Total && out[1].kind == Used && out[2].kind == Free
  }

  lemma KindsNeeded(table: set<string>, out: seq<Sample>)
    requires OneOfEach(out)
    ensures AllNamed(table, out) <==> NAMES <= table
  {
    assert out[0] in out && out[1] in out && out[2] in out;
    assert NameOf(out[0]) == "subnets_total" && NameOf(out[1]) == "subnets_used" && NameOf(out[2]) == "subnets_free";
  }

  /** All three names are needed as soon as there is anything to report. */
  lemma NamesNeeded(table: set<string>, pools: seq<Pool>, subnets: seq<Subnet>)
    ensures AllNamed(table, Reachable(pools, subnets)) <==> NAMES <= table || Reachable(pools, subnets) == []
  {
    if Reachable(pools, subnets) != [] {
      ReachableKinds(pools, subnets);
      KindsNeeded(table, Reachable(pools, subnets));
    }
  }

  /** The three samples of a key stand in a fixed order, so it is known where the lookups end. */
  lemma KindsMissing(table: set<string>, out: seq<Sample>)
    requires OneOfEach(out) && !(NAMES <= table)
    ensures BeforeMissing(table, out) == out[..if "subnets_total" !in table then 0 else if "subnets_used" !in table then 1 else 2]
  {
    BeforeMissingLongest(table, out);
    var k := |BeforeMissing(table, out)|;
    assert forall i :: 0 <= i < k ==> out[..k][i] in out[..k] && NameOf(out[i]) in table;
    assert NameOf(out[0]) == "subnets_total" && NameOf(out[1]) == "subnets_used" && NameOf(out[2]) == "subnets_free";
  }

  lemma ReportCut(table: set<string>, pools: seq<Pool>, subnets: seq<Subnet>)
    requires Parses(subnets)
    ensures var all := Reachable(pools, subnets);
            if NAMES <= table || all == [] then BeforeMissing(table, all) == all
            else
              |all| >= 3
              && BeforeMissing(table, all) == all[..if "subnets_total" !in table then 0 else if "subnets_used" !in table then 1 else 2]
  {
    var all := Reachable(pools, subnets);
    if NAMES <= table || all == [] {
      NamesNeeded(table, pools, subnets);
      AllNamedPart(table, all);
    } else {
      ReachableKinds(pools, subnets);
      KindsMissing(table, all);
    }
  }

  datatype Status = Completed | Failed | NilDereference

  lemma PoolStep(table: set<string>, pools: seq<Pool>, subnets: seq<Subnet>, n: nat, start: Channel)
    requires AllGood(pools, n + 1)
    ensures SendAll(table, start, PoolSamples(pools, n + 1, subnets))
         == SendAll(table, SendAll(table, start, PoolSamples(pools, n, subnets)), SamplesOf(pools[n], subnets))
  {
    PoolSamplesSnoc(pools, n, subnets);
    SendAllConcat(table, start, PoolSamples(pools, n, subnets), SamplesOf(pools[n], subnets));
  }

  /** The loop over the pools: stops at one whose prefixes do not parse. */
  method EmitPools(table: set<string>, pools: seq<Pool>, grouped: seq<PoolWithSubnets>, subnets: seq<Subnet>)
    returns (out: Channel, ok: bool)
    requires |grouped| == |pools|
    requires forall i :: 0 <= i < |pools| ==> grouped[i] == PoolWithSubnets(pools[i], SubnetsOf(subnets, pools[i].id))
    ensures ok <==> GoodPools(pools, 0) == |pools|
    ensures out == SendAll(table, Channel([], false), PoolSamples(pools, GoodPools(pools, 0), subnets))
  {
    out := Channel([], false);
    for i := 0 to |grouped|
      invariant AllGood(pools, i) && GoodPools(pools, 0) == GoodPools(pools, i)
      invariant out == SendAll(table, Channel([], false), PoolSamples(pools, i, subnets))
    {
      var ipPrefixes := IPPrefixes(grouped[i].pool);
      if ipPrefixes.None? {
        return out, false;
      }
      PoolStep(table, pools, subnets, i, Channel([], false));
      out := EmitPrefixes(table, out, grouped[i].pool, ipPrefixes.value, grouped[i].subnets);
    }
    return out, true;
  }

  /**
   `table` holds the names of the metrics that the exporter registered. Samples are sent in order
   up to the first one whose metric is not among them, where the lookup dereferences nil; those
   sent before that, or before a pool whose prefixes do not parse, stay sent.
   */
  method ListSubnetsPerPool(table: set<string>, allSubnetPools: seq<Pool>, allSubnets: seq<Subnet>)
    returns (ch: seq<Sample>, status: Status)
    ensures ch == BeforeMissing(table, Reachable(allSubnetPools, allSubnets))
    ensures status == NilDereference <==> !(NAMES <= table) && Reachable(allSubnetPools, allSubnets) != []
    ensures !Parses(allSubnets) ==> ch == [] && status == Failed
    ensures var good, all := GoodPools(allSubnetPools, 0), Reachable(allSubnetPools, allSubnets);
            Parses(allSubnets) ==>
              && Reports(allSubnetPools, good, allSubnets, all)
              && (NAMES <= table || all == [] ==> ch == all && status == if good == |allSubnetPools| then Completed else Failed)
              && (!(NAMES <= table) && all != [] ==>
                    && status == NilDereference
                    && |all| >= 3
                    && ch == all[..if "subnets_total" !in table then 0 else if "subnets_used" !in table then 1 else 2])
  {
    NamesNeeded(table, allSubnetPools, allSubnets);
    SendAllMeaning(table, Reachable(allSubnetPools, allSubnets));
    var grouped := SubnetpoolsWithSubnets(allSubnetPools, allSubnets);
    if grouped.None? {
      return [], Failed;
    }
    ReachableReports(allSubnetPools, allSubnets);
    ReportCut(table, allSubnetPools, allSubnets);
    var out, ok := EmitPools(table, allSubnetPools, grouped.value, allSubnets);
    return out.out, if out.crashed then NilDereference else if ok then Completed else Failed;
  }
}
