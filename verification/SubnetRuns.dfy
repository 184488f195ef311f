/**
 Runs of allocations and releases in a pool of several prefixes, and how the numbers that
 `calculateFreeSubnets` and `calculateUsedSubnets` of `exporters/neutron.go` return move along them.
 Each prefix is counted against all of the pool's subnets, as the exporter does.
 */
module SubnetRuns {
  import opened BlockDecomposition
  import opened CidrBlocks
  import opened Float64
  import opened PowersOfTwo
  import opened SubnetAccounting
  import opened SubnetCounts

  datatype Op = Allocate(s: Prefix) | Release(at: nat)

  /** A subnet is allocated within one of the pool's prefixes, out of addresses that no subnet uses. */
  predicate Enabled(prefixes: seq<Prefix>, subnets: seq<Prefix>, op: Op) {
    match op
    case Allocate(s) =>
      (exists i :: 0 <= i < |prefixes| && prefixes[i].bits <= s.bits && Overlaps(prefixes[i], s)) && Unused(subnets, s)
    case Release(at) => at < |subnets|
  }

  function Apply(subnets: seq<Prefix>, op: Op): seq<Prefix>
    requires op.Release? ==> op.at < |subnets|
  {
    match op
    case Allocate(s) => subnets + [s]
    case Release(at) => subnets[..at] + subnets[at + 1..]
  }

  predicate IsRun(prefixes: seq<Prefix>, subnets: seq<Prefix>, ops: seq<Op>)
    decreases |ops|
  {
    ops != [] ==> Enabled(prefixes, subnets, ops[0]) && IsRun(prefixes, Apply(subnets, ops[0]), ops[1..])
  }

  function After(prefixes: seq<Prefix>, subnets: seq<Prefix>, ops: seq<Op>): seq<Prefix>
    requires IsRun(prefixes, subnets, ops)
    decreases |ops|
  {
    if ops == [] then subnets else After(prefixes, Apply(subnets, ops[0]), ops[1..])
  }

  /** What holds of the subnets of a pool at any time. */
  predicate Apart(subnets: seq<Prefix>) { PairwiseDisjoint(Blocks(subnets)) }

  lemma ReleasedIsUnused(subnets: seq<Prefix>, at: nat)
    requires Apart(subnets) && at < |subnets|
    ensures Unused(Apply(subnets, Release(at)), subnets[at])
  {
    var rest := Apply(subnets, Release(at));
    forall i | 0 <= i < |rest|
      ensures !Overlaps(subnets[at], rest[i])
    {
      var k := if i < at then i else i + 1;
      assert rest[i] == subnets[k];
      assert Disjoint(Blocks(subnets)[if k < at then k else at], Blocks(subnets)[if k < at then at else k]);
      OverlapsMeansMeeting(subnets[at], subnets[k]);
    }
  }

  lemma StepKeepsApart(prefixes: seq<Prefix>, subnets: seq<Prefix>, op: Op)
    requires Apart(subnets) && Enabled(prefixes, subnets, op)
    ensures Apart(Apply(subnets, op))
  {
    if op.Release? {
      var now, next := Blocks(subnets), Blocks(Apply(subnets, op));
      forall i | 0 <= i < |next|
        ensures next[i] == now[if i < op.at then i else i + 1]
      {
      }
    } else {
      UnusedBlocks(subnets, op.s);
      assert Blocks(subnets + [op.s]) == Blocks(subnets) + [op.s.Masked()];
      assert forall i :: 0 <= i < |subnets| ==> Blocks(subnets)[i] in Blocks(subnets);
    }
  }

  /** `subnets_used` of one prefix and length. */
  function UsedCount(p: Prefix, subnets: seq<Prefix>, length: int): nat { |UsedPositions(subnets, p, length)| }

  function OfLength(p: Prefix, s: Prefix, length: int): nat { if s.bits == length && Overlaps(p, s) then 1 else 0 }

  /** By how much a step moves the used count. */
  function UsedChange(p: Prefix, subnets: seq<Prefix>, length: nat, op: Op): int
    requires op.Release? ==> op.at < |subnets|
  {
    match op
    case Allocate(s) => OfLength(p, s, length)
    case Release(at) => 0 - OfLength(p, subnets[at], length)
  }

  /** By how much a step moves the free count. */
  function FreeChange(p: Prefix, subnets: seq<Prefix>, length: nat, op: Op): int
    requires length <= Width(p.family) && (op.Release? ==> op.at < |subnets|)
  {
    match op
    case Allocate(s) => 0 - FreeCost(p, subnets, s, length)
    case Release(at) => FreeCost(p, Apply(subnets, op), subnets[at], length)
  }

  lemma StepLedger(prefixes: seq<Prefix>, subnets: seq<Prefix>, op: Op, p: Prefix, length: nat)
    requires length <= Width(p.family) && Apart(subnets) && Enabled(prefixes, subnets, op)
    ensures UsedCount(p, Apply(subnets, op), length) == UsedCount(p, subnets, length) + UsedChange(p, subnets, length, op)
    ensures FreeCount(p, Apply(subnets, op), length) == FreeCount(p, subnets, length) + FreeChange(p, subnets, length, op)
  {
    match op {
      case Allocate(s) =>
        assert subnets + [] == subnets && subnets + [s] + [] == subnets + [s];
        AllocateSubnet(p, subnets, s, [], length);
      case Release(at) =>
        ReleasedIsUnused(subnets, at);
        assert subnets[..at] + [subnets[at]] + subnets[at + 1..] == subnets;
        AllocateSubnet(p, subnets[..at], subnets[at], subnets[at + 1..], length);
    }
  }

  function UsedLedger(prefixes: seq<Prefix>, subnets: seq<Prefix>, ops: seq<Op>, p: Prefix, length: nat): int
    requires IsRun(prefixes, subnets, ops)
    decreases |ops|
  {
    if ops == [] then 0
    else UsedChange(p, subnets, length, ops[0]) + UsedLedger(prefixes, Apply(subnets, ops[0]), ops[1..], p, length)
  }

  function FreeLedger(prefixes: seq<Prefix>, subnets: seq<Prefix>, ops: seq<Op>, p: Prefix, length: nat): int
    requires length <= Width(p.family) && IsRun(prefixes, subnets, ops)
    decreases |ops|
  {
    if ops == [] then 0
    else FreeChange(p, subnets, length, ops[0]) + FreeLedger(prefixes, Apply(subnets, ops[0]), ops[1..], p, length)
  }

  lemma {:induction false} CountLedger(prefixes: seq<Prefix>, subnets: seq<Prefix>, ops: seq<Op>, p: Prefix, length: nat)
    requires length <= Width(p.family) && Apart(subnets) && IsRun(prefixes, subnets, ops)
    ensures var end := After(prefixes, subnets, ops);
            && Apart(end)
            && UsedCount(p, end, length) == UsedCount(p, subnets, length) + UsedLedger(prefixes, subnets, ops, p, length)
            && FreeCount(p, end, length) == FreeCount(p, subnets, length) + FreeLedger(prefixes, subnets, ops, p, length)
    decreases |ops|
  {
    if ops != [] {
      StepKeepsApart(prefixes, subnets, ops[0]);
      StepLedger(prefixes, subnets, ops[0], p, length);
      CountLedger(prefixes, Apply(subnets, ops[0]), ops[1..], p, length);
    }
  }

  /**
   Along every run the two exported numbers of any prefix move by exactly what each step
   takes or gives back: one used subnet at the length of a subnet that overlaps the prefix,
   and the free blocks it costs, which for a subnet of another prefix are none.
   */
  lemma RunLedger(prefixes: seq<Prefix>, subnets: seq<Prefix>, ops: seq<Op>, p: Prefix, length: nat)
    requires length <= Width(p.family) && length - p.bits <= PRECISION
    requires Apart(subnets) && IsRun(prefixes, subnets, ops)
    ensures var end := After(prefixes, subnets, ops);
            && UsedCount(p, end, length) - UsedCount(p, subnets, length) == UsedLedger(prefixes, subnets, ops, p, length)
            && ReportedFree(p, end, length) - ReportedFree(p, subnets, length) == FreeLedger(prefixes, subnets, ops, p, length)
  {
    CountLedger(prefixes, subnets, ops, p, length);
    ReportedFreeExact(p, subnets, length);
    ReportedFreeExact(p, After(prefixes, subnets, ops), length);
  }

  lemma {:induction false} RunKeepsApart(prefixes: seq<Prefix>, subnets: seq<Prefix>, ops: seq<Op>)
    requires Apart(subnets) && IsRun(prefixes, subnets, ops)
    ensures Apart(After(prefixes, subnets, ops))
    decreases |ops|
  {
    if ops != [] {
      StepKeepsApart(prefixes, subnets, ops[0]);
      RunKeepsApart(prefixes, Apply(subnets, ops[0]), ops[1..]);
    }
  }

  lemma ApartIsDistinct(p: Prefix, subnets: seq<Prefix>, length: nat)
    requires Apart(subnets)
    ensures DistinctUsed(p, subnets, length)
  {
    var bs := Blocks(subnets);
    forall i: nat, j: nat | i < |subnets| && j < |subnets| && i != j
      ensures subnets[i].Masked() != subnets[j].Masked()
    {
      assert Disjoint(bs[if i < j then i else j], bs[if i < j then j else i]);
    }
  }

  /**
   What the three exported numbers of a prefix tell a reader, for any subnets that do not
   overlap each other, of this prefix or of others: the total is the free ones, plus the
   blocks that subnets of this length or shorter take of it, plus the blocks that hold a
   longer subnet. Used and free together never exceed the total.
   */
  lemma ExportedNumbersConserve(p: Prefix, subnets: seq<Prefix>, length: nat)
    requires p.bits <= length <= Width(p.family) && length - p.bits <= PRECISION && Apart(subnets)
    ensures Pow2(length - p.bits)
         == ReportedFree(p, subnets, length)
            + WeightedCount(Parts(p.Masked(), Blocks(subnets)), Width(p.family) - length)
            + |AroundSubnets(p.Masked(), Blocks(subnets), Width(p.family) - length)|
    ensures UsedCount(p, subnets, length) + ReportedFree(p, subnets, length) <= Pow2(length - p.bits)
  {
    ReportedFreeExact(p, subnets, length);
    CountsConserve(p, subnets, length);
    ApartIsDistinct(p, subnets, length);
    UsedAndFreeFit(p, subnets, length);
  }

  /** Both hold after every run, for every prefix, in a pool that starts without overlaps (untouched, say). */
  lemma RunsConserve(prefixes: seq<Prefix>, subnets: seq<Prefix>, ops: seq<Op>, p: Prefix, length: nat)
    requires p.bits <= length <= Width(p.family) && length - p.bits <= PRECISION
    requires Apart(subnets) && IsRun(prefixes, subnets, ops)
    ensures var end := After(prefixes, subnets, ops);
            && Pow2(length - p.bits)
               == ReportedFree(p, end, length)
                  + WeightedCount(Parts(p.Masked(), Blocks(end)), Width(p.family) - length)
                  + |AroundSubnets(p.Masked(), Blocks(end), Width(p.family) - length)|
            && UsedCount(p, end, length) + ReportedFree(p, end, length) <= Pow2(length - p.bits)
  {
    RunKeepsApart(prefixes, subnets, ops);
    ExportedNumbersConserve(p, After(prefixes, subnets, ops), length);
  }

  /**
   Releasing a subnet and allocating it again leaves every exported number of every prefix
   as it was, rounded or not, wherever the subnet stood in the list.
   */
  lemma ReleaseUndoesAllocation(subnets: seq<Prefix>, at: nat, p: Prefix, length: int)
    requires Apart(subnets) && at < |subnets|
    ensures var rest := Apply(subnets, Release(at));
            var again := Apply(rest, Allocate(subnets[at]));
            && Unused(rest, subnets[at])
            && UsedCount(p, again, length) == UsedCount(p, subnets, length)
            && ReportedFree(p, again, length) == ReportedFree(p, subnets, length)
  {
    var before, s, after := subnets[..at], subnets[at], subnets[at + 1..];
    ReleasedIsUnused(subnets, at);
    assert subnets == before + [s] + after;
    UsedConcat(before + after, [s], p, length);
    UsedConcat(before, after, p, length);
    UsedConcat(before + [s], after, p, length);
    UsedConcat(before, [s], p, length);
    forall t: Prefix
      ensures t in subnets <==> t in before + after + [s]
    {
      assert t in subnets <==> t in before || t == s || t in after;
    }
    ReportedFreeDependsOnMembers(p, before + after + [s], subnets, length);
  }
}
