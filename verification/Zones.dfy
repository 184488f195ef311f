/**
 `ListZonesAndRecordsets` of `exporters/designate.go`: one worker per DNS zone, at most
 `dns-concurrent-count` of them at a time. A fetch is an arbitrary success or failure.
 */
module Zones {
  import opened ErrGroups
  import opened Sequences
  import opened Wrappers

  datatype Zone = Zone(id: string, name: string, projectID: string, status: string, kind: string)

  datatype Recordset = Recordset(id: string, name: string, status: string, zoneID: string, zoneName: string, kind: string)

  datatype Sample =
    | ZoneTotal(count: nat)
    | RecordsetCount(count: nat, zoneID: string, zoneName: string, projectID: string)
    | RecordsetStatus(r: Recordset)
    | ZoneStatus(z: Zone)

  /** What listing the recordsets of a zone answers; `None` is an error. */
  type Fetch = Zone -> Option<seq<Recordset>>

  function Statuses(rs: seq<Recordset>): seq<Sample> {
    seq(|rs|, i requires 0 <= i < |rs| => RecordsetStatus(rs[i]))
  }

  /** One worker: nothing at all if the fetch fails, otherwise the count, the recordsets' statuses and the zone's own. */
  function ZonePlan(z: Zone, answer: Option<seq<Recordset>>): Plan<Sample> {
    match answer
    case None => Plan([], false)
    case Some(rs) => Plan([RecordsetCount(|rs|, z.id, z.name, z.projectID)] + Statuses(rs) + [ZoneStatus(z)], true)
  }

  function ZonePlans(zones: seq<Zone>, fetch: Fetch): (ps: seq<Plan<Sample>>)
    ensures |ps| == |zones| && forall i :: 0 <= i < |ps| ==> ps[i] == ZonePlan(zones[i], fetch(zones[i]))
  {
    seq(|zones|, i requires 0 <= i < |zones| => ZonePlan(zones[i], fetch(zones[i])))
  }

  /** The group: limited as configured, and cancelled by the first failure. */
  function Group(zones: seq<Zone>, fetch: Fetch, limit: int): Config<Sample> {
    Config(ZonePlans(zones, fetch), limit, true)
  }

  /** The metric a sample is exported under, which `ListZonesAndRecordsets` looks up without a check. */
  function NameOf(x: Sample): string {
    match x
    case ZoneTotal(_) => "zones"
    case RecordsetCount(_, _, _, _) => "recordsets"
    case RecordsetStatus(_) => "recordsets_status"
    case ZoneStatus(_) => "zone_status"
  }

  const NAMES: set<string> := {"zones", "recordsets", "recordsets_status", "zone_status"}

  /** Some sample needs a metric that is not in the table. */
  predicate Missing(table: set<string>, xs: seq<Sample>) {
    exists x :: x in xs && NameOf(x) !in table
  }

  datatype Outcome = NilDereference | Returned(out: seq<Sample>, ok: bool)

  /**
   `table` holds the names of the registered metrics; `None` stands for zones that could not be
   listed. The total is sent before any worker starts. A schedule in which some sample's metric is
   not in the table ends there, in a nil dereference.
   */
  function ListZonesAndRecordsets(table: set<string>, listing: Option<seq<Zone>>, fetch: Fetch, limit: int, es: seq<Event>): Outcome
    requires listing.Some? ==> var c := Group(listing.value, fetch, limit); IsRun(c, Init(c), es)
  {
    if listing.None? then Returned([], false)
    else
      var c := Group(listing.value, fetch, limit);
      var s := After(c, Init(c), es);
      var out := [ZoneTotal(|listing.value|)] + s.out;
      if Missing(table, out) then NilDereference else Returned(out, s.failures == 0)
  }

  /** What a complete answer for every zone amounts to. */
  ghost function Expected(zones: seq<Zone>, fetch: Fetch): multiset<Sample> {
    multiset{ZoneTotal(|zones|)} + AllSamples(ZonePlans(zones, fetch))
  }

  /** Every zone's recordsets can be listed. */
  predicate AllFetched(zones: seq<Zone>, fetch: Fetch) {
    forall z :: z in zones ==> fetch(z).Some?
  }

  /** One recordset count per zone. */
  function Counts(zones: seq<Zone>, fetch: Fetch): seq<Sample>
    requires AllFetched(zones, fetch)
  {
    seq(|zones|, i requires 0 <= i < |zones| =>
      RecordsetCount(|fetch(zones[i]).value|, zones[i].id, zones[i].name, zones[i].projectID))
  }

  /** One status per zone. */
  function ZoneStatuses(zones: seq<Zone>): seq<Sample> {
    seq(|zones|, i requires 0 <= i < |zones| => ZoneStatus(zones[i]))
  }

  /** The recordsets of all zones. */
  function AllRecordsets(zones: seq<Zone>, fetch: Fetch): seq<Recordset>
    requires AllFetched(zones, fetch)
  {
    if zones == [] then [] else fetch(zones[0]).value + AllRecordsets(zones[1..], fetch)
  }

  lemma StatusesConcat(rs: seq<Recordset>, more: seq<Recordset>)
    ensures Statuses(rs + more) == Statuses(rs) + Statuses(more)
  {
  }

  lemma PlanParts(z: Zone, rs: seq<Recordset>)
    ensures multiset(ZonePlan(z, Some(rs)).emits)
         == multiset([RecordsetCount(|rs|, z.id, z.name, z.projectID)]) + multiset([ZoneStatus(z)]) + multiset(Statuses(rs))
  {
  }

  /** Three lists that each gain something in front. */
  lemma Interchange<T>(a: seq<T>, b: seq<T>, c: seq<T>, x: seq<T>, y: seq<T>, z: seq<T>)
    ensures multiset(a + x) + multiset(b + y) + multiset(c + z)
         == (multiset(a) + multiset(b) + multiset(c)) + (multiset(x) + multiset(y) + multiset(z))
  {
  }

  /**
   The complete output is the total once, one recordset count and one status per zone, and one
   status for each recordset of each zone, as often as they are listed.
   */
  lemma ExpectedCounts(zones: seq<Zone>, fetch: Fetch)
    requires AllFetched(zones, fetch)
    ensures Expected(zones, fetch)
         == multiset{ZoneTotal(|zones|)}
            + (multiset(Counts(zones, fetch)) + multiset(ZoneStatuses(zones)) + multiset(Statuses(AllRecordsets(zones, fetch))))
  {
    PlanSamples(zones, fetch);
  }

  lemma HeadZone(zones: seq<Zone>, fetch: Fetch, count: Sample)
    requires zones != [] && AllFetched(zones, fetch)
    requires count == RecordsetCount(|fetch(zones[0]).value|, zones[0].id, zones[0].name, zones[0].projectID)
    ensures Counts(zones, fetch) == [count] + Counts(zones[1..], fetch)
    ensures ZoneStatuses(zones) == [ZoneStatus(zones[0])] + ZoneStatuses(zones[1..])
    ensures Statuses(AllRecordsets(zones, fetch)) == Statuses(fetch(zones[0]).value) + Statuses(AllRecordsets(zones[1..], fetch))
  {
    StatusesConcat(fetch(zones[0]).value, AllRecordsets(zones[1..], fetch));
  }

  lemma HeadPlan(zones: seq<Zone>, fetch: Fetch)
    requires zones != []
    ensures AllSamples(ZonePlans(zones, fetch))
         == multiset(ZonePlan(zones[0], fetch(zones[0])).emits) + AllSamples(ZonePlans(zones[1..], fetch))
  {
    assert ZonePlans(zones, fetch)[1..] == ZonePlans(zones[1..], fetch);
  }

  lemma {:induction false} PlanSamples(zones: seq<Zone>, fetch: Fetch)
    requires AllFetched(zones, fetch)
    ensures AllSamples(ZonePlans(zones, fetch))
         == multiset(Counts(zones, fetch)) + multiset(ZoneStatuses(zones)) + multiset(Statuses(AllRecordsets(zones, fetch)))
  {
    if zones != [] {
      var z, rest, rs := zones[0], zones[1..], fetch(zones[0]).value;
      var count := RecordsetCount(|rs|, z.id, z.name, z.projectID);
      PlanSamples(rest, fetch);
      HeadPlan(zones, fetch);
      PlanParts(z, rs);
      HeadZone(zones, fetch, count);
      Interchange([count], [ZoneStatus(z)], Statuses(rs), Counts(rest, fetch), ZoneStatuses(rest), Statuses(AllRecordsets(rest, fetch)));
    }
  }

  /** The metrics that a complete answer is exported under. */
  predicate Looked(zones: seq<Zone>, fetch: Fetch, name: string)
    requires AllFetched(zones, fetch)
  {
    || name == "zones"
    || (zones != [] && (name == "recordsets" || name == "zone_status"))
    || (AllRecordsets(zones, fetch) != [] && name == "recordsets_status")
  }

  lemma ExpectedMember(zones: seq<Zone>, fetch: Fetch, x: Sample)
    requires AllFetched(zones, fetch)
    ensures x in Expected(zones, fetch)
       <==> x == ZoneTotal(|zones|) || x in Counts(zones, fetch) || x in ZoneStatuses(zones)
            || x in Statuses(AllRecordsets(zones, fetch))
  {
    ExpectedCounts(zones, fetch);
  }

  lemma SampleNames(zones: seq<Zone>, fetch: Fetch, x: Sample)
    requires AllFetched(zones, fetch) && x in Expected(zones, fetch)
    ensures Looked(zones, fetch, NameOf(x))
  {
    ExpectedMember(zones, fetch, x);
  }

  lemma FirstsNamed(zones: seq<Zone>, fetch: Fetch)
    requires AllFetched(zones, fetch)
    ensures zones != [] ==> NameOf(Counts(zones, fetch)[0]) == "recordsets" && NameOf(ZoneStatuses(zones)[0]) == "zone_status"
    ensures AllRecordsets(zones, fetch) != [] ==> NameOf(Statuses(AllRecordsets(zones, fetch))[0]) == "recordsets_status"
  {
  }

  lemma SampleNamed(zones: seq<Zone>, fetch: Fetch, name: string) returns (x: Sample)
    requires AllFetched(zones, fetch) && Looked(zones, fetch, name)
    ensures x in Expected(zones, fetch) && NameOf(x) == name
  {
    FirstsNamed(zones, fetch);
    x := if name == "zones" then ZoneTotal(|zones|)
         else if name == "recordsets_status" then Statuses(AllRecordsets(zones, fetch))[0]
         else if name == "recordsets" then Counts(zones, fetch)[0]
         else ZoneStatuses(zones)[0];
    ExpectedMember(zones, fetch, x);
  }

  lemma MissingIff(table: set<string>, zones: seq<Zone>, fetch: Fetch, sent: seq<Sample>)
    requires AllFetched(zones, fetch) && multiset(sent) == Expected(zones, fetch)
    ensures Missing(table, sent) <==> exists name :: Looked(zones, fetch, name) && name !in table
  {
    if x :| x in sent && NameOf(x) !in table {
      assert x in multiset(sent);
      SampleNames(zones, fetch, x);
    }
    if name :| Looked(zones, fetch, name) && name !in table {
      var x := SampleNamed(zones, fetch, name);
      assert x in multiset(sent);
    }
  }

  lemma FinishedZones(zones: seq<Zone>, fetch: Fetch, limit: int, s: State<Sample>)
    requires var c := Group(zones, fetch, limit); Inv(c, s) && Done(c, s)
    ensures s.failures == 0 <==> AllFetched(zones, fetch)
    ensures AllFetched(zones, fetch) ==> multiset([ZoneTotal(|zones|)] + s.out) == Expected(zones, fetch)
  {
    DoneOutcome(Group(zones, fetch, limit), s);
    FailingZones(zones, fetch);
  }

  /**
   In every schedule at most `limit` workers are in flight at any time. A schedule that
   cannot go on has finished if the limit is not zero. With the four metrics registered, the
   call then fails exactly when some fetch fails, and without a failure the samples sent are
   the same whatever the schedule. In any table, when no fetch fails, the call dereferences nil
   exactly when a metric that the answers call for is missing.
   */
  lemma ZonesEverySchedule(table: set<string>, zones: seq<Zone>, fetch: Fetch, limit: int, es: seq<Event>)
    requires var c := Group(zones, fetch, limit); IsRun(c, Init(c), es)
    ensures var c := Group(zones, fetch, limit);
            var s := After(c, Init(c), es);
            var result := ListZonesAndRecordsets(table, Some(zones), fetch, limit, es);
            && (0 <= limit ==> |InFlight(s.workers)| <= limit)
            && |es| <= Measure(c.plans, Init(c).workers)
            && (NAMES <= table ==> result.Returned?)
            && (Stuck(c, s) && limit != 0 ==>
                  && Done(c, s)
                  && (result.Returned? ==> (result.ok <==> AllFetched(zones, fetch)))
                  && (result.Returned? && result.ok ==> multiset(result.out) == Expected(zones, fetch))
                  && (AllFetched(zones, fetch) ==>
                        (result.NilDereference? <==> exists name :: Looked(zones, fetch, name) && name !in table)))
  {
    var c := Group(zones, fetch, limit);
    var s := After(c, Init(c), es);
    ReachableInv(c, es);
    InitInv(c);
    RunsAreBounded(c, Init(c), es);
    NamesEnough(table, [ZoneTotal(|zones|)] + s.out);
    if Stuck(c, s) && limit != 0 {
      StuckOnlyWhenDone(c, s);
      FinishedZones(zones, fetch, limit, s);
      if AllFetched(zones, fetch) {
        MissingIff(table, zones, fetch, [ZoneTotal(|zones|)] + s.out);
      }
    }
  }

  lemma NamesEnough(table: set<string>, xs: seq<Sample>)
    ensures NAMES <= table ==> !Missing(table, xs)
  {
  }

  /** How often a recordset is listed, in the answers for all zones. */
  ghost function TimesListed(zones: seq<Zone>, fetch: Fetch, r: Recordset): nat
    requires AllFetched(zones, fetch)
  {
    if zones == [] then 0 else multiset(fetch(zones[0]).value)[r] + TimesListed(zones[1..], fetch, r)
  }

  lemma {:induction false} RecordsetsCount(zones: seq<Zone>, fetch: Fetch, r: Recordset)
    requires AllFetched(zones, fetch)
    ensures multiset(AllRecordsets(zones, fetch))[r] == TimesListed(zones, fetch, r)
  {
    if zones != [] {
      RecordsetsCount(zones[1..], fetch, r);
    }
  }

  lemma {:induction false} StatusesCount(rs: seq<Recordset>, r: Recordset)
    ensures multiset(Statuses(rs))[RecordsetStatus(r)] == multiset(rs)[r]
  {
    if rs != [] {
      StatusesCount(rs[1..], r);
      assert Statuses(rs) == [RecordsetStatus(rs[0])] + Statuses(rs[1..]);
      assert rs == [rs[0]] + rs[1..];
    }
  }

  lemma {:induction false} ZoneStatusesCount(zones: seq<Zone>, z: Zone)
    ensures multiset(ZoneStatuses(zones))[ZoneStatus(z)] == multiset(zones)[z]
  {
    if zones != [] {
      ZoneStatusesCount(zones[1..], z);
      assert ZoneStatuses(zones) == [ZoneStatus(zones[0])] + ZoneStatuses(zones[1..]);
      assert zones == [zones[0]] + zones[1..];
    }
  }

  lemma NotIn<T>(s: seq<T>, x: T)
    requires forall i :: 0 <= i < |s| ==> s[i] != x
    ensures multiset(s)[x] == 0
  {
    assert x !in s;
  }

  /** Zones for which this count is sent. */
  function Counted(zones: seq<Zone>, fetch: Fetch, x: Sample): set<nat>
    requires AllFetched(zones, fetch)
  {
    set i | 0 <= i < |zones| && x == RecordsetCount(|fetch(zones[i]).value|, zones[i].id, zones[i].name, zones[i].projectID)
  }

  lemma CountsCount(zones: seq<Zone>, fetch: Fetch, x: Sample)
    requires AllFetched(zones, fetch)
    ensures multiset(Counts(zones, fetch))[x] == |Counted(zones, fetch, x)|
  {
    CountPositions(Counts(zones, fetch), x);
    assert Counted(zones, fetch, x) == Positions(Counts(zones, fetch), x);
  }

  /** How often each sample is sent when nothing fails, in terms of the zones and the answers alone. */
  ghost function Occurrences(zones: seq<Zone>, fetch: Fetch, x: Sample): nat
    requires AllFetched(zones, fetch)
  {
    match x
    case ZoneTotal(n) => if n == |zones| then 1 else 0
    case RecordsetCount(_, _, _, _) => |Counted(zones, fetch, x)|
    case RecordsetStatus(r) => TimesListed(zones, fetch, r)
    case ZoneStatus(z) => multiset(zones)[z]
  }

  lemma CompleteCounts(zones: seq<Zone>, fetch: Fetch, x: Sample)
    requires AllFetched(zones, fetch)
    ensures Expected(zones, fetch)[x] == Occurrences(zones, fetch, x)
  {
    ExpectedCounts(zones, fetch);
    OfCounts(zones, fetch, x);
    OfStatuses(zones, x);
    OfRecordsets(zones, fetch, x);
  }

  lemma OfCounts(zones: seq<Zone>, fetch: Fetch, x: Sample)
    requires AllFetched(zones, fetch)
    ensures multiset(Counts(zones, fetch))[x] == if x.RecordsetCount? then |Counted(zones, fetch, x)| else 0
  {
    if x.RecordsetCount? {
      CountsCount(zones, fetch, x);
    } else {
      NotIn(Counts(zones, fetch), x);
    }
  }

  lemma OfStatuses(zones: seq<Zone>, x: Sample)
    ensures multiset(ZoneStatuses(zones))[x] == if x.ZoneStatus? then multiset(zones)[x.z] else 0
  {
    if x.ZoneStatus? {
      ZoneStatusesCount(zones, x.z);
    } else {
      NotIn(ZoneStatuses(zones), x);
    }
  }

  lemma OfRecordsets(zones: seq<Zone>, fetch: Fetch, x: Sample)
    requires AllFetched(zones, fetch)
    ensures multiset(Statuses(AllRecordsets(zones, fetch)))[x] == if x.RecordsetStatus? then TimesListed(zones, fetch, x.r) else 0
  {
    if x.RecordsetStatus? {
      StatusesCount(AllRecordsets(zones, fetch), x.r);
      RecordsetsCount(zones, fetch, x.r);
    } else {
      NotIn(Statuses(AllRecordsets(zones, fetch)), x);
    }
  }

  /**
   The whole call, listing included. Zones that cannot be listed mean an error and nothing sent,
   whatever the table. With the four metrics registered and a schedule run to its end, the call
   succeeds iff the listing and every fetch did, and then sends exactly what `Occurrences` says,
   the total first.
   */
  lemma ListingOutcome(table: set<string>, listing: Option<seq<Zone>>, fetch: Fetch, limit: int, es: seq<Event>)
    requires limit != 0
    requires listing.Some? ==> var c := Group(listing.value, fetch, limit); IsRun(c, Init(c), es) && Stuck(c, After(c, Init(c), es))
    ensures var result := ListZonesAndRecordsets(table, listing, fetch, limit, es);
            && (listing.None? ==> result == Returned([], false))
            && (NAMES <= table ==> result.Returned? && (result.ok <==> listing.Some? && forall z :: z in listing.value ==> fetch(z).Some?))
            && (NAMES <= table && result.ok ==>
                  && result.out != []
                  && result.out[0] == ZoneTotal(|listing.value|)
                  && forall x :: multiset(result.out)[x] == Occurrences(listing.value, fetch, x))
  {
    if listing.Some? {
      var zones := listing.value;
      ZonesEverySchedule(table, zones, fetch, limit, es);
      if AllFetched(zones, fetch) {
        forall x
          ensures Expected(zones, fetch)[x] == Occurrences(zones, fetch, x)
        {
          CompleteCounts(zones, fetch, x);
        }
      }
    }
  }

  /** What one zone's worker sends when its recordsets are listed. */
  ghost predicate ZoneOutput(out: seq<Sample>, z: Zone, rs: seq<Recordset>) {
    && |out| == |rs| + 2
    && out[0] == RecordsetCount(|rs|, z.id, z.name, z.projectID)
    && (forall k :: 0 <= k < |rs| ==> out[k + 1] == RecordsetStatus(rs[k]))
    && out[|rs| + 1] == ZoneStatus(z)
  }

  /** Of one zone nothing has been sent, or its recordsets are listed and a first part of its output has; when finished, all of it. */
  ghost predicate ZonePart(part: seq<Sample>, z: Zone, answer: Option<seq<Recordset>>, finished: bool) {
    part == [] || (answer.Some? && exists whole :: ZoneOutput(whole, z, answer.value) && if finished then part == whole else part <= whole)
  }

  ghost predicate PartOf(sent: seq<Sample>, owner: seq<nat>, i: nat, z: Zone, answer: Option<seq<Recordset>>, finished: bool) {
    exists part :: ZonePart(part, z, answer, finished) && Selects(part, sent, Owned(owner, i))
  }

  lemma WorkerPart(sent: seq<Sample>, owner: seq<nat>, i: nat, z: Zone, answer: Option<seq<Recordset>>, w: Worker, finished: bool)
    requires Share(ZonePlan(z, answer), w, sent, owner, i) && (finished ==> !w.Running?)
    ensures PartOf(sent, owner, i, z, answer, finished)
  {
    var p := ZonePlan(z, answer);
    if answer.Some? {
      assert ZoneOutput(p.emits, z, answer.value);
    }
    assert ZonePart(Sent(p, w), z, answer, finished);
  }

  /**
   In every schedule, failing fetches or not, the channel interleaves first parts of the outputs
   of zones whose recordsets were listed, each in its own order; when the group is done, whole
   outputs. Other zones send nothing.
   */
  lemma ZonesInterleave(zones: seq<Zone>, fetch: Fetch, limit: int, es: seq<Event>) returns (owner: seq<nat>)
    requires var c := Group(zones, fetch, limit); IsRun(c, Init(c), es)
    ensures var c := Group(zones, fetch, limit);
            var s := After(c, Init(c), es);
            && |owner| == |s.out|
            && (forall k :: 0 <= k < |owner| ==> owner[k] < |zones|)
            && forall i: nat :: i < |zones| ==> PartOf(s.out, owner, i, zones[i], fetch(zones[i]), Done(c, s))
  {
    var c := Group(zones, fetch, limit);
    var s := After(c, Init(c), es);
    owner := ChannelInterleaves(c, es);
    forall i: nat | i < |zones|
      ensures PartOf(s.out, owner, i, zones[i], fetch(zones[i]), Done(c, s))
    {
      assert Share(c.plans[i], s.workers[i], s.out, owner, i);
      if Done(c, s) {
        assert i !in InFlight(s.workers);
      }
      WorkerPart(s.out, owner, i, zones[i], fetch(zones[i]), s.workers[i], Done(c, s));
    }
  }

  /** A failing fetch can cut another zone short: a schedule that ends without that zone's samples, though it could be listed. */
  lemma CutShort(bad: Zone, good: Zone, fetch: Fetch, limit: int) returns (es: seq<Event>)
    requires fetch(bad).None? && fetch(good).Some? && (limit < 0 || 2 <= limit)
    ensures var c := Group([bad, good], fetch, limit);
            IsRun(c, Init(c), es) && Stuck(c, After(c, Init(c), es)) && After(c, Init(c), es).out == []
  {
    var c := Group([bad, good], fetch, limit);
    var s2 := BothStarted(bad, good, fetch, limit);
    var s3 := Apply(c, s2, Finish(0));
    assert s3 == State(2, [Failed, Running(0)], [], 1, true);
    var s4 := Apply(c, s3, Abort(1));
    assert s4 == State(2, [Failed, Aborted], [], 2, true);
    es := [Spawn, Spawn];
    RunSnoc(c, Init(c), es, Finish(0));
    es := es + [Finish(0)];
    RunSnoc(c, Init(c), es, Abort(1));
    es := es + [Abort(1)];
  }

  lemma BothStarted(bad: Zone, good: Zone, fetch: Fetch, limit: int) returns (s: State<Sample>)
    requires limit < 0 || 2 <= limit
    ensures var c := Group([bad, good], fetch, limit);
            IsRun(c, Init(c), [Spawn, Spawn]) && After(c, Init(c), [Spawn, Spawn]) == s
    ensures s == State(2, [Running(0), Running(0)], [], 0, false)
  {
    var c := Group([bad, good], fetch, limit);
    assert InFlight(Init(c).workers) == {};
    var s1 := Apply(c, Init(c), Spawn);
    assert s1 == State(1, [Running(0), Waiting], [], 0, false);
    assert InFlight(s1.workers) == {0};
    assert [] + [Spawn] == [Spawn] && [Spawn] + [Spawn] == [Spawn, Spawn];
    RunSnoc(c, Init(c), [], Spawn);
    RunSnoc(c, Init(c), [Spawn], Spawn);
    s := Apply(c, s1, Spawn);
  }

  lemma MissingName(table: set<string>, name: string) returns (zones: seq<Zone>, fetch: Fetch, es: seq<Event>)
    requires name in NAMES && name !in table
    ensures IsRun(Group(zones, fetch, -1), Init(Group(zones, fetch, -1)), es)
    ensures ListZonesAndRecordsets(table, Some(zones), fetch, -1, es).NilDereference?
  {
    var rs := [Recordset("", "", "", "", "", "")];
    zones, fetch := [Zone("", "", "", "", "")], _ => Some(rs);
    var c := Group(zones, fetch, -1);
    InitInv(c);
    es := RunToEnd(c, Init(c));
    assert AllRecordsets(zones, fetch) == rs + AllRecordsets([], fetch);
    assert Looked(zones, fetch, name);
    ZonesEverySchedule(table, zones, fetch, -1, es);
  }

  /** The call never dereferences nil, whatever is listed and fetched and however it is scheduled, iff the four metrics are registered. */
  lemma ZonesSafeIff(table: set<string>)
    ensures (forall zones, fetch, limit, es :: IsRun(Group(zones, fetch, limit), Init(Group(zones, fetch, limit)), es) ==>
               ListZonesAndRecordsets(table, Some(zones), fetch, limit, es).Returned?)
       <==> NAMES <= table
  {
    if NAMES <= table {
      forall zones, fetch, limit, es | IsRun(Group(zones, fetch, limit), Init(Group(zones, fetch, limit)), es)
        ensures ListZonesAndRecordsets(table, Some(zones), fetch, limit, es).Returned?
      {
        ZonesEverySchedule(table, zones, fetch, limit, es);
      }
    } else {
      var name :| name in NAMES && name !in table;
      var zones, fetch, es := MissingName(table, name);
    }
  }

  lemma FailingZones(zones: seq<Zone>, fetch: Fetch)
    ensures FailingPlans(ZonePlans(zones, fetch)) == {} <==> AllFetched(zones, fetch)
  {
    var ps := ZonePlans(zones, fetch);
    if AllFetched(zones, fetch) {
      forall i | 0 <= i < |ps|
        ensures ps[i].ok
      {
        assert zones[i] in zones;
      }
    } else {
      var z :| z in zones && fetch(z).None?;
      var i :| 0 <= i < |zones| && zones[i] == z;
      assert i in FailingPlans(ps);
    }
  }

  /** The configured limit lets every schedule finish exactly when it is not zero, or there are no zones. */
  lemma ZonesFinishIff(zones: seq<Zone>, fetch: Fetch, limit: int)
    ensures (forall es ::
              var c := Group(zones, fetch, limit);
              IsRun(c, Init(c), es) && Stuck(c, After(c, Init(c), es)) ==> Done(c, After(c, Init(c), es)))
       <==> limit != 0 || zones == []
  {
    AlwaysFinishesIff(Group(zones, fetch, limit));
  }

  /** Even when a fetch fails, a zone's samples are exported as a group or not at all. */
  lemma ZonesAllOrNothing(zones: seq<Zone>, fetch: Fetch, limit: int, es: seq<Event>)
    requires var c := Group(zones, fetch, limit); IsRun(c, Init(c), es) && Done(c, After(c, Init(c), es))
    ensures var c := Group(zones, fetch, limit);
            var s := After(c, Init(c), es);
            multiset(s.out) == AllSamples(Uncut(c.plans, s.workers))
  {
    var c := Group(zones, fetch, limit);
    var s := After(c, Init(c), es);
    ReachableInv(c, es);
    DoneWorkers(c, s);
    WholePlansSent(c.plans, s.workers);
  }
}
