/**
 Every interleaving of the background service of `main.go` with the readers: one goroutine
 collects and flushes, any number of others read, and the clock moves between any two
 steps. Family maps are addresses in a heap, so that sharing is explicit.
 */
module CacheRuns {
  import opened CacheCycles

  type Ref = nat

  datatype Entry = Entry(time: int, families: Ref)

  /** What a reader holds: the struct copy, when it was made, and what the shared map said then. */
  datatype Snapshot = Snapshot(cloud: string, entry: Entry, readAt: int, seen: Families)

  /** The collection a published map came from. */
  datatype Cycle = Cycle(cloud: string, gathers: seq<Gather>)

  /** Where the background goroutine is. */
  datatype Phase =
    | Idle
    | Collecting(clouds: seq<string>)
    | Building(clouds: seq<string>, families: Ref, gathers: seq<Gather>, pending: seq<MetricFamily>)
    | Flushing(started: int, unchecked: set<string>)
    | Stopped

  /**
   `cycles`, `lastPublished` and `lastFlush` are history: no step depends on them. `lastFlush`
   is when the last completed flush began, or the run.
   */
  datatype State = State(
    now: int,
    heap: map<Ref, Families>,
    store: map<string, Entry>,
    phase: Phase,
    snapshots: seq<Snapshot>,
    cycles: map<Ref, Cycle>,
    lastFlush: int,
    lastPublished: map<string, int>)

  datatype Config = Config(services: seq<string>, ttl: int)

  function Init(start: int): State {
    State(start, map[], map[], Idle, [], map[], start, map[])
  }

  /**
   One atomic step of one goroutine. A flush holds the mutex from `BeginFlush` to `EndFlush`,
   so no read falls in between; `Stop` is a cancelled context or a cloud list that does not load.
   The guards on `heap` and `store` that the code does not test hold in every reachable state.
   */
  datatype Event =
    | Tick(passed: nat)
    | BeginCycle(list: seq<string>)
    | NewCache(r: Ref)
    | GatherService(g: Gather)
    | WriteFamily
    | Publish
    | EndCycle
    | BeginFlush
    | Check(cloud: string)
    | EndFlush
    | Read(cloud: string)
    | Stop

  predicate Enabled(c: Config, s: State, e: Event) {
    match e
    case Tick(_) => true
    case BeginCycle(_) => s.phase.Idle?
    case Stop => s.phase.Idle?
    case NewCache(r) => s.phase.Collecting? && s.phase.clouds != [] && r !in s.heap
    case GatherService(_) => s.phase.Building? && s.phase.pending == [] && |s.phase.gathers| < |c.services|
    case WriteFamily => s.phase.Building? && s.phase.pending != [] && s.phase.gathers != [] && s.phase.families in s.heap
                        && |s.phase.gathers| <= |c.services|
    case Publish => s.phase.Building? && s.phase.pending == [] && |s.phase.gathers| == |c.services| && s.phase.clouds != []
    case EndCycle => s.phase.Collecting? && s.phase.clouds == []
    case BeginFlush => s.phase.Idle?
    case Check(cloud) => s.phase.Flushing? && cloud in s.phase.unchecked && cloud in s.store
    case EndFlush => s.phase.Flushing? && s.phase.unchecked == {}
    case Read(cloud) => !s.phase.Flushing? && cloud in s.store && s.store[cloud].families in s.heap
  }

  function Apply(c: Config, s: State, e: Event): State
    requires Enabled(c, s, e)
  {
    match e
    case Tick(passed) => s.(now := s.now + passed)
    case BeginCycle(list) => s.(phase := Collecting(list))
    case Stop => s.(phase := Stopped)
    case NewCache(r) => s.(heap := s.heap[r := map[]], phase := Building(s.phase.clouds, r, [], []))
    case GatherService(g) =>
      s.(phase := s.phase.(gathers := s.phase.gathers + [g], pending := if g.Gathered? then g.families else []))
    case WriteFamily =>
      var f := s.phase.pending[0];
      var service := c.services[|s.phase.gathers| - 1];
      s.(heap := s.heap[s.phase.families := s.heap[s.phase.families][f.name := MetricFamilyCache(service, f)]],
         phase := s.phase.(pending := s.phase.pending[1..]))
    case Publish =>
      var cloud := s.phase.clouds[0];
      s.(store := s.store[cloud := Entry(s.now, s.phase.families)],
         cycles := s.cycles[s.phase.families := Cycle(cloud, s.phase.gathers)],
         lastPublished := s.lastPublished[cloud := s.now],
         phase := Collecting(s.phase.clouds[1..]))
    case EndCycle => s.(phase := Idle)
    case BeginFlush => s.(phase := Flushing(s.now, s.store.Keys))
    case Check(cloud) =>
      s.(store := if s.now > s.store[cloud].time + c.ttl then s.store - {cloud} else s.store,
         phase := s.phase.(unchecked := s.phase.unchecked - {cloud}))
    case EndFlush => s.(phase := Idle, lastFlush := s.phase.started)
    case Read(cloud) =>
      s.(snapshots := s.snapshots + [Snapshot(cloud, s.store[cloud], s.now, s.heap[s.store[cloud].families])])
  }

  predicate IsRun(c: Config, s: State, es: seq<Event>)
    decreases |es|
  {
    es != [] ==> Enabled(c, s, es[0]) && IsRun(c, Apply(c, s, es[0]), es[1..])
  }

  function After(c: Config, s: State, es: seq<Event>): State
    requires IsRun(c, s, es)
    decreases |es|
  {
    if es == [] then s else After(c, Apply(c, s, es[0]), es[1..])
  }

  /** A published map: all services gathered, and the map is exactly what that cycle produced. */
  predicate Complete(c: Config, s: State, r: Ref, cloud: string) {
    && r in s.heap
    && r in s.cycles
    && s.cycles[r].cloud == cloud
    && |s.cycles[r].gathers| == |c.services|
    && s.heap[r] == CycleMap(c.services, s.cycles[r].gathers)
  }

  /** The map under construction: nobody else knows it, and writing what is pending completes the services so far. */
  ghost predicate UnderConstruction(c: Config, s: State) {
    s.phase.Building? ==>
      var p := s.phase;
      && p.clouds != []
      && p.families in s.heap
      && p.families !in s.cycles
      && |p.gathers| <= |c.services|
      && (p.pending != [] ==> p.gathers != [])
      && (if p.pending == [] then s.heap[p.families] == CycleMap(c.services[..|p.gathers|], p.gathers)
          else
            WriteAll(s.heap[p.families], c.services[|p.gathers| - 1], p.pending)
            == CycleMap(c.services[..|p.gathers|], p.gathers))
  }

  /** Isolation: what the store and every reader refer to is complete and finished. */
  ghost predicate Isolated(c: Config, s: State) {
    && (forall r :: r in s.cycles ==> Complete(c, s, r, s.cycles[r].cloud))
    && (forall k :: k in s.store ==> s.store[k].families in s.cycles && s.cycles[s.store[k].families].cloud == k)
    && (forall i :: 0 <= i < |s.snapshots| ==>
          var t := s.snapshots[i];
          t.entry.families in s.cycles && s.cycles[t.entry.families].cloud == t.cloud && s.heap[t.entry.families] == t.seen)
    && UnderConstruction(c, s)
  }

  lemma {:induction false} WriteAllHead(m: Families, service: string, families: seq<MetricFamily>)
    requires families != []
    ensures WriteAll(m, service, families)
         == WriteAll(m[families[0].name := MetricFamilyCache(service, families[0])], service, families[1..])
    decreases |families|
  {
    if |families| > 1 {
      var init := families[..|families| - 1];
      WriteAllHead(m, service, init);
      assert families[1..][..|families[1..]| - 1] == init[1..];
    } else {
      assert families[..0] == [] && families[1..] == [];
    }
  }

  lemma GatherStep(c: Config, s: State, g: Gather)
    requires Isolated(c, s) && Enabled(c, s, GatherService(g))
    ensures UnderConstruction(c, Apply(c, s, GatherService(g)))
  {
    var p := s.phase;
    var n, after := |p.gathers|, p.gathers + [g];
    assert after[..n] == p.gathers && c.services[..n + 1][..n] == c.services[..n];
    assert CycleMap(c.services[..n + 1], after) == Record(s.heap[p.families], c.services[n], g);
  }

  lemma WriteStep(c: Config, s: State)
    requires Isolated(c, s) && Enabled(c, s, WriteFamily)
    ensures UnderConstruction(c, Apply(c, s, WriteFamily))
  {
    WriteAllHead(s.heap[s.phase.families], c.services[|s.phase.gathers| - 1], s.phase.pending);
  }

  lemma StepUnderConstruction(c: Config, s: State, e: Event)
    requires Isolated(c, s) && Enabled(c, s, e)
    ensures UnderConstruction(c, Apply(c, s, e))
  {
    match e {
      case GatherService(g) => GatherStep(c, s, g);
      case WriteFamily => WriteStep(c, s);
      case NewCache(r) => assert CycleMap(c.services[..0], []) == map[];
      case _ =>
    }
  }

  /** Steps only add history: cycles are never rewritten, their maps never change, snapshots are never withdrawn. */
  lemma StepKeepsHistory(c: Config, s: State, e: Event)
    requires Isolated(c, s) && Enabled(c, s, e)
    ensures var s' := Apply(c, s, e);
            && s.snapshots <= s'.snapshots
            && (forall r :: r in s.cycles ==>
                  Complete(c, s, r, s.cycles[r].cloud) && r in s'.cycles && s'.cycles[r] == s.cycles[r]
                  && r in s'.heap && s'.heap[r] == s.heap[r])
  {
    assert forall r :: r in s.cycles ==> Complete(c, s, r, s.cycles[r].cloud);
  }

  lemma StepComplete(c: Config, s: State, e: Event)
    requires Isolated(c, s) && Enabled(c, s, e)
    ensures forall r :: r in Apply(c, s, e).cycles ==> Complete(c, Apply(c, s, e), r, Apply(c, s, e).cycles[r].cloud)
  {
    StepKeepsHistory(c, s, e);
    if e.Publish? {
      assert c.services[..|c.services|] == c.services;
    }
  }

  lemma StepStore(c: Config, s: State, e: Event, k: string)
    requires Isolated(c, s) && Enabled(c, s, e) && k in Apply(c, s, e).store
    ensures var s' := Apply(c, s, e);
            s'.store[k].families in s'.cycles && s'.cycles[s'.store[k].families].cloud == k
  {
    StepKeepsHistory(c, s, e);
  }

  lemma StepIsolated(c: Config, s: State, e: Event)
    requires Isolated(c, s) && Enabled(c, s, e)
    ensures Isolated(c, Apply(c, s, e))
  {
    StepKeepsHistory(c, s, e);
    StepComplete(c, s, e);
    forall k | k in Apply(c, s, e).store
      ensures Apply(c, s, e).store[k].families in Apply(c, s, e).cycles
      ensures Apply(c, s, e).cycles[Apply(c, s, e).store[k].families].cloud == k
    {
      StepStore(c, s, e, k);
    }
    StepUnderConstruction(c, s, e);
  }

  lemma {:induction false} RunIsolated(c: Config, s: State, es: seq<Event>)
    requires Isolated(c, s) && IsRun(c, s, es)
    ensures Isolated(c, After(c, s, es))
    ensures s.snapshots <= After(c, s, es).snapshots
    decreases |es|
  {
    if es != [] {
      StepIsolated(c, s, es[0]);
      StepKeepsHistory(c, s, es[0]);
      RunIsolated(c, Apply(c, s, es[0]), es[1..]);
    }
  }

  /**
   In every interleaving, whatever a reader was handed for a cloud is the complete output
   of one collection of that cloud over all services, and the map it shares with the store
   still says, at any later time, what it said when it was read.
   */
  lemma SnapshotsAreWholeCycles(c: Config, start: int, es: seq<Event>, i: nat)
    requires IsRun(c, Init(start), es) && i < |After(c, Init(start), es).snapshots|
    ensures var s := After(c, Init(start), es);
            var t := s.snapshots[i];
            && t.entry.families in s.heap && s.heap[t.entry.families] == t.seen
            && exists gathers :: |gathers| == |c.services| && t.seen == CycleMap(c.services, gathers)
                 && t.entry.families in s.cycles && s.cycles[t.entry.families] == Cycle(t.cloud, gathers)
  {
    RunIsolated(c, Init(start), es);
    var s := After(c, Init(start), es);
    var r := s.snapshots[i].entry.families;
    assert Complete(c, s, r, s.cycles[r].cloud);
  }

  /** The clouds that are read, in order. */
  function ReadsOf(es: seq<Event>): seq<string> {
    if es == [] then [] else (if es[0].Read? then [es[0].cloud] else []) + ReadsOf(es[1..])
  }

  /** Every read is answered once, for the cloud asked for, in order. */
  lemma {:induction false} ReadsAnswered(c: Config, s: State, es: seq<Event>)
    requires IsRun(c, s, es)
    ensures var t := After(c, s, es).snapshots;
            && s.snapshots <= t
            && |t| == |s.snapshots| + |ReadsOf(es)|
            && forall k :: 0 <= k < |ReadsOf(es)| ==> t[|s.snapshots| + k].cloud == ReadsOf(es)[k]
    decreases |es|
  {
    if es != [] {
      ReadsAnswered(c, Apply(c, s, es[0]), es[1..]);
    }
  }

  /** The cloud is not published anew during the run. */
  predicate NotPublished(c: Config, s: State, es: seq<Event>, cloud: string)
    requires IsRun(c, s, es)
    decreases |es|
  {
    es != [] ==>
      (es[0].Publish? ==> s.phase.clouds[0] != cloud) && NotPublished(c, Apply(c, s, es[0]), es[1..], cloud)
  }

  /** Until then its entry stays as it was published, or goes. */
  lemma {:induction false} EntryStays(c: Config, s: State, es: seq<Event>, cloud: string)
    requires IsRun(c, s, es) && NotPublished(c, s, es, cloud)
    ensures cloud in After(c, s, es).store ==> cloud in s.store && After(c, s, es).store[cloud] == s.store[cloud]
    decreases |es|
  {
    if es != [] {
      EntryStays(c, Apply(c, s, es[0]), es[1..], cloud);
    }
  }

  lemma {:induction false} RunKeepsMap(c: Config, s: State, es: seq<Event>, r: Ref)
    requires Isolated(c, s) && IsRun(c, s, es) && r in s.cycles
    ensures r in s.heap && r in After(c, s, es).heap && After(c, s, es).heap[r] == s.heap[r]
    decreases |es|
  {
    assert Complete(c, s, r, s.cycles[r].cloud);
    if es != [] {
      StepIsolated(c, s, es[0]);
      StepKeepsHistory(c, s, es[0]);
      RunKeepsMap(c, Apply(c, s, es[0]), es[1..], r);
    }
  }

  /**
   A read gets the cloud's last publication: what was gathered for it, under the time at which
   it was published. `s` is any reachable state in which the cloud is about to be published.
   */
  lemma ReadGetsLastPublication(c: Config, s: State, mid: seq<Event>, cloud: string)
    requires Isolated(c, s) && Enabled(c, s, Publish) && s.phase.clouds[0] == cloud
    requires IsRun(c, Apply(c, s, Publish), mid) && NotPublished(c, Apply(c, s, Publish), mid, cloud)
    requires Enabled(c, After(c, Apply(c, s, Publish), mid), Read(cloud))
    ensures var before := After(c, Apply(c, s, Publish), mid);
            Apply(c, before, Read(cloud)).snapshots
            == before.snapshots + [Snapshot(cloud, Entry(s.now, s.phase.families), before.now, CycleMap(c.services, s.phase.gathers))]
  {
    var s1 := Apply(c, s, Publish);
    StepIsolated(c, s, Publish);
    EntryStays(c, s1, mid, cloud);
    RunKeepsMap(c, s1, mid, s.phase.families);
    assert c.services[..|c.services|] == c.services;
  }

  /** Age bounds: entries are no older than the last flush allows, checked entries than the one under way. */
  ghost predicate Aged(c: Config, s: State) {
    && s.lastFlush <= s.now
    && (s.phase.Flushing? ==> s.lastFlush <= s.phase.started <= s.now && s.phase.unchecked <= s.store.Keys)
    && (forall k :: k in s.store ==> s.lastFlush - c.ttl <= s.store[k].time <= s.now)
    && (forall k :: s.phase.Flushing? && k in s.store && k !in s.phase.unchecked ==> s.phase.started - c.ttl <= s.store[k].time)
    && (forall k :: k in s.store ==> k in s.lastPublished && s.store[k].time == s.lastPublished[k])
  }

  lemma StepAged(c: Config, s: State, e: Event)
    requires c.ttl >= 0 && Aged(c, s) && Enabled(c, s, e)
    ensures Aged(c, Apply(c, s, e))
  {
  }

  /** A read at most `gap` after the last completed flush began and at most `period` after its cloud was last published. */
  predicate InTime(s: State, e: Event, gap: int, period: int) {
    e.Read? ==>
      s.now <= s.lastFlush + gap && (e.cloud in s.lastPublished ==> s.now <= s.lastPublished[e.cloud] + period)
  }

  /** Every read of the run is in time. */
  predicate Timely(c: Config, s: State, es: seq<Event>, gap: int, period: int)
    requires IsRun(c, s, es)
    decreases |es|
  {
    es != [] ==> InTime(s, es[0], gap, period) && Timely(c, Apply(c, s, es[0]), es[1..], gap, period)
  }

  predicate NoOlderThan(s: State, age: int) {
    forall i :: 0 <= i < |s.snapshots| ==> s.snapshots[i].readAt - s.snapshots[i].entry.time <= age
  }

  function Smaller(a: int, b: int): int { if a < b then a else b }

  lemma {:induction false} RunStaleness(c: Config, s: State, es: seq<Event>, gap: int, period: int)
    requires c.ttl >= 0 && Aged(c, s) && IsRun(c, s, es) && Timely(c, s, es, gap, period)
    requires NoOlderThan(s, Smaller(c.ttl + gap, period))
    ensures NoOlderThan(After(c, s, es), Smaller(c.ttl + gap, period))
    decreases |es|
  {
    if es != [] {
      StepAged(c, s, es[0]);
      RunStaleness(c, Apply(c, s, es[0]), es[1..], gap, period);
    }
  }

  /**
   No reader is handed data older than the TTL plus the time since the last completed flush
   began, nor older than the time since its cloud was last published.
   */
  lemma StalenessBound(c: Config, start: int, es: seq<Event>, gap: int, period: int)
    requires c.ttl >= 0 && IsRun(c, Init(start), es) && Timely(c, Init(start), es, gap, period)
    ensures NoOlderThan(After(c, Init(start), es), Smaller(c.ttl + gap, period))
  {
    RunStaleness(c, Init(start), es, gap, period);
  }

  lemma {:induction false} RunJoin(c: Config, s: State, es: seq<Event>, more: seq<Event>)
    requires IsRun(c, s, es) && IsRun(c, After(c, s, es), more)
    ensures IsRun(c, s, es + more) && After(c, s, es + more) == After(c, After(c, s, es), more)
    decreases |es|
  {
    if es == [] {
      assert es + more == more;
    } else {
      RunJoin(c, Apply(c, s, es[0]), es[1..], more);
      assert (es + more)[0] == es[0] && (es + more)[1..] == es[1..] + more;
    }
  }

  lemma {:induction false} RunConcat(c: Config, s: State, es: seq<Event>, more: seq<Event>, gap: int, period: int)
    requires IsRun(c, s, es) && IsRun(c, After(c, s, es), more)
    requires Timely(c, s, es, gap, period) && Timely(c, After(c, s, es), more, gap, period)
    ensures IsRun(c, s, es + more) && After(c, s, es + more) == After(c, After(c, s, es), more)
    ensures Timely(c, s, es + more, gap, period)
    decreases |es|
  {
    RunJoin(c, s, es, more);
    if es == [] {
      assert es + more == more;
    } else {
      RunConcat(c, Apply(c, s, es[0]), es[1..], more, gap, period);
      assert (es + more)[0] == es[0] && (es + more)[1..] == es[1..] + more;
    }
  }

  /** `n` services that cannot be enabled. */
  function Failures(n: nat): seq<Event> {
    if n == 0 then [] else [GatherService(EnableFailed)] + Failures(n - 1)
  }

  lemma {:induction false} FailuresRun(c: Config, s: State, n: nat, gap: int, period: int)
    requires s.phase.Building? && s.phase.pending == [] && |s.phase.gathers| + n == |c.services|
    ensures IsRun(c, s, Failures(n)) && Timely(c, s, Failures(n), gap, period)
    ensures var s' := After(c, s, Failures(n));
            s'.phase.Building? && |s'.phase.gathers| == |c.services| && s' == s.(phase := s.phase.(gathers := s'.phase.gathers))
    decreases n
  {
    if n > 0 {
      FailuresRun(c, Apply(c, s, GatherService(EnableFailed)), n - 1, gap, period);
      assert Failures(n)[1..] == Failures(n - 1);
    }
  }

  /**
   The bound is reached, whatever the two times: a cloud is published at the start, kept by a
   flush that begins as late as allowed, and read back as late as allowed.
   */
  lemma LateRead(c: Config, start: int, gap: nat, period: nat) returns (es: seq<Event>)
    requires c.ttl >= 0
    ensures IsRun(c, Init(start), es) && Timely(c, Init(start), es, gap, period)
    ensures var t := After(c, Init(start), es).snapshots;
            |t| == 1 && t[0].readAt - t[0].entry.time == Smaller(c.ttl + gap, period)
  {
    var head := [BeginCycle(["cloud"]), NewCache(0)];
    var building := State(start, map[0 := map[]], map[], Building(["cloud"], 0, [], []), [], map[], start, map[]);
    TwoSteps(c, Init(start), head, building, gap, period);
    var n := |c.services|;
    FailuresRun(c, building, n, gap, period);
    var built := After(c, building, Failures(n));
    RunConcat(c, Init(start), head, Failures(n), gap, period);
    var wait := Smaller(c.ttl, period);
    var tail := PublishFlushRead(c, built, wait, Smaller(c.ttl + gap, period) - wait, gap, period);
    RunConcat(c, Init(start), head + Failures(n), tail, gap, period);
    es := (head + Failures(n)) + tail;
  }

  lemma TwoSteps(c: Config, s: State, es: seq<Event>, s2: State, gap: int, period: int)
    requires |es| == 2 && Enabled(c, s, es[0]) && Enabled(c, Apply(c, s, es[0]), es[1])
    requires Apply(c, Apply(c, s, es[0]), es[1]) == s2 && !es[0].Read? && !es[1].Read?
    ensures IsRun(c, s, es) && After(c, s, es) == s2 && Timely(c, s, es, gap, period)
  {
    var s1 := Apply(c, s, es[0]);
    Step(c, s1, es[1], [], gap, period);
    Step(c, s, es[0], [es[1]] + [], gap, period);
    assert es == [es[0]] + ([es[1]] + []);
  }

  lemma Step(c: Config, s: State, e: Event, es: seq<Event>, gap: int, period: int)
    requires Enabled(c, s, e) && IsRun(c, Apply(c, s, e), es)
    requires InTime(s, e, gap, period) && Timely(c, Apply(c, s, e), es, gap, period)
    ensures IsRun(c, s, [e] + es) && After(c, s, [e] + es) == After(c, Apply(c, s, e), es)
    ensures Timely(c, s, [e] + es, gap, period)
  {
    assert ([e] + es)[0] == e && ([e] + es)[1..] == es;
  }

  /** Publishes the built cloud, lets `wait` pass, flushes, lets `late` pass, and reads. */
  lemma PublishFlushRead(c: Config, s: State, wait: nat, late: nat, gap: int, period: int) returns (es: seq<Event>)
    requires wait <= c.ttl && late <= gap && wait + late <= period
    requires s.phase.Building? && s.phase.clouds == ["cloud"] && s.phase.pending == []
    requires |s.phase.gathers| == |c.services| && s.store == map[] && s.snapshots == [] && s.phase.families in s.heap
    ensures IsRun(c, s, es) && Timely(c, s, es, gap, period)
    ensures var t := After(c, s, es).snapshots;
            |t| == 1 && t[0].readAt - t[0].entry.time == wait + late
  {
    var s1 := Apply(c, s, Publish);
    var s2 := Apply(c, s1, EndCycle);
    var s3 := Apply(c, s2, Tick(wait));
    es := FlushRead(c, s3, wait, late, gap, period);
    Step(c, s2, Tick(wait), es, gap, period); es := [Tick(wait)] + es;
    Step(c, s1, EndCycle, es, gap, period); es := [EndCycle] + es;
    Step(c, s, Publish, es, gap, period); es := [Publish] + es;
  }

  lemma FlushRead(c: Config, s: State, wait: nat, late: nat, gap: int, period: int) returns (es: seq<Event>)
    requires wait <= c.ttl && late <= gap && wait + late <= period
    requires s.phase == Idle && s.snapshots == [] && s.store.Keys == {"cloud"}
    requires s.now == s.store["cloud"].time + wait && s.store["cloud"].families in s.heap
    requires "cloud" in s.lastPublished && s.lastPublished["cloud"] == s.store["cloud"].time
    ensures IsRun(c, s, es) && Timely(c, s, es, gap, period)
    ensures var t := After(c, s, es).snapshots;
            |t| == 1 && t[0].readAt - t[0].entry.time == wait + late
  {
    var s1 := Apply(c, s, BeginFlush);
    var s2 := Apply(c, s1, Check("cloud"));
    var s3 := Apply(c, s2, EndFlush);
    var s4 := Apply(c, s3, Tick(late));
    es := [];
    Step(c, s4, Read("cloud"), es, gap, period); es := [Read("cloud")] + es;
    Step(c, s3, Tick(late), es, gap, period); es := [Tick(late)] + es;
    Step(c, s2, EndFlush, es, gap, period); es := [EndFlush] + es;
    Step(c, s1, Check("cloud"), es, gap, period); es := [Check("cloud")] + es;
    Step(c, s, BeginFlush, es, gap, period); es := [BeginFlush] + es;
  }

  /** The exact bound: a given age is never exceeded, over all runs, iff it is at least the smaller of the two. */
  lemma AgeBoundIff(c: Config, start: int, gap: nat, period: nat, age: int)
    requires c.ttl >= 0
    ensures (forall es :: IsRun(c, Init(start), es) && Timely(c, Init(start), es, gap, period) ==>
               NoOlderThan(After(c, Init(start), es), age))
       <==> Smaller(c.ttl + gap, period) <= age
  {
    var es := LateRead(c, start, gap, period);
    forall es | IsRun(c, Init(start), es) && Timely(c, Init(start), es, gap, period)
      ensures NoOlderThan(After(c, Init(start), es), Smaller(c.ttl + gap, period))
    {
      StalenessBound(c, start, es, gap, period);
    }
  }

  /**
   The documented promise, that expired data is never returned, holds of all runs exactly
   when clouds are published again often enough, every read coming within the TTL of its
   cloud's last publication, or no time may pass between a flush and a read. The code checks
   no age on reading.
   */
  lemma NeverExpiredIff(c: Config, start: int, gap: int, period: int)
    requires c.ttl >= 0
    ensures (forall es :: IsRun(c, Init(start), es) && Timely(c, Init(start), es, gap, period) ==>
               NoOlderThan(After(c, Init(start), es), c.ttl))
       <==> period <= c.ttl || gap <= 0
  {
    if period > c.ttl && gap > 0 {
      var es := LateRead(c, start, gap, period);
      assert !NoOlderThan(After(c, Init(start), es), c.ttl);
    } else {
      forall es | IsRun(c, Init(start), es) && Timely(c, Init(start), es, gap, period)
        ensures NoOlderThan(After(c, Init(start), es), c.ttl)
      {
        StalenessBound(c, start, es, gap, period);
      }
    }
  }

  /** At no point of the run is the cloud's last publication more than the TTL ago. */
  predicate Refreshed(c: Config, s: State, es: seq<Event>, cloud: string)
    requires IsRun(c, s, es)
    decreases |es|
  {
    && (cloud in s.lastPublished ==> s.now <= s.lastPublished[cloud] + c.ttl)
    && (es != [] ==> Refreshed(c, Apply(c, s, es[0]), es[1..], cloud))
  }

  lemma {:induction false} RunKeepsCloud(c: Config, s: State, es: seq<Event>, cloud: string)
    requires c.ttl >= 0 && Aged(c, s) && IsRun(c, s, es) && Refreshed(c, s, es, cloud)
    requires cloud in s.lastPublished ==> cloud in s.store
    ensures cloud in After(c, s, es).lastPublished ==> cloud in After(c, s, es).store
    decreases |es|
  {
    if es != [] {
      StepAged(c, s, es[0]);
      RunKeepsCloud(c, Apply(c, s, es[0]), es[1..], cloud);
    }
  }

  /** A cloud published again at intervals of at most the TTL is never flushed. */
  lemma RefreshedNeverFlushed(c: Config, start: int, es: seq<Event>, cloud: string)
    requires c.ttl >= 0 && IsRun(c, Init(start), es) && Refreshed(c, Init(start), es, cloud)
    ensures cloud in After(c, Init(start), es).lastPublished ==> cloud in After(c, Init(start), es).store
  {
    RunKeepsCloud(c, Init(start), es, cloud);
  }
}
