/**
 `BaseOpenStackExporter` of `exporters/exporter.go`: building the metric table, and one
 `Collect` as a fan-out over the table's handlers.
 */
module Collection {
  import opened ErrGroups
  import opened Sequences
  import opened Wrappers

  /** Identifies a handler function; `None` in its place is a nil function. */
  type Handler = nat

  /** A metric as the exporters list them, before any filtering. */
  datatype Metric = Metric(name: string, fn: Option<Handler>, slow: bool, deprecatedVersion: string)

  type Table = map<string, Option<Handler>>

  const UP := "up"
  const COLLECT_SECONDS := "openstack_metric_collect_seconds"

  /** A table that exists holds the two metrics that `Collect` looks up, and never runs them. */
  predicate TableValid(t: Option<Table>) {
    t.Some? ==> UP in t.value && t.value[UP] == None && COLLECT_SECONDS in t.value && t.value[COLLECT_SECONDS] == None
  }

  /** The table after one more metric: created on first use, and the first metric of a name stays. */
  function Added(t: Option<Table>, name: string, fn: Option<Handler>): Option<Table> {
    var base := if t.None? then map[UP := None, COLLECT_SECONDS := None] else t.value;
    Some(if name in base then base else base[name := fn])
  }

  datatype Options = Options(name: string, disabledMetrics: seq<string>, disableSlow: bool, disableDeprecated: bool)

  predicate Disabled(o: Options, name: string) { o.name + "-" + name in o.disabledMetrics }

  /** The metric survives the deprecation, slowness and disable filters. */
  predicate Kept(o: Options, m: Metric) {
    && !(o.disableDeprecated && |m.deprecatedVersion| > 0)
    && !(o.disableSlow && m.slow)
    && !Disabled(o, m.name)
  }

  function Registered(o: Options, t: Option<Table>, ms: seq<Metric>): Option<Table> {
    if ms == [] then t
    else
      var before := Registered(o, t, ms[..|ms| - 1]);
      var m := ms[|ms| - 1];
      if Kept(o, m) then Added(before, m.name, m.fn) else before
  }

  class BaseOpenStackExporter {
    const options: Options
    var Metrics: Option<Table>

    constructor (options: Options)
      ensures this.options == options && Metrics == None
    {
      this.options := options;
      Metrics := None;
    }

    method MetricIsDisabled(name: string) returns (b: bool)
      ensures b == Disabled(options, name)
      ensures b <==> options.name + "-" + name in options.disabledMetrics
    {
      for i := 0 to |options.disabledMetrics|
        invariant options.name + "-" + name !in options.disabledMetrics[..i]
      {
        if options.disabledMetrics[i] == options.name + "-" + name {
          return true;
        }
      }
      return false;
    }

    method AddMetric(name: string, fn: Option<Handler>)
      requires TableValid(Metrics)
      modifies this
      ensures TableValid(Metrics)
      ensures Metrics == if Disabled(options, name) then old(Metrics) else Added(old(Metrics), name, fn)
    {
      var disabled := MetricIsDisabled(name);
      if disabled {
        return;
      }
      if Metrics == None {
        Metrics := Some(map[UP := None, COLLECT_SECONDS := None]);
      }
      if name !in Metrics.value {
        Metrics := Some(Metrics.value[name := fn]);
      }
    }

    /** What most constructors do with their default metrics; the load balancer's applies neither the slow nor the deprecated filter. */
    method RegisterMetrics(defaults: seq<Metric>)
      requires TableValid(Metrics)
      modifies this
      ensures TableValid(Metrics)
      ensures Metrics == Registered(options, old(Metrics), defaults)
    {
      for i := 0 to |defaults|
        invariant TableValid(Metrics)
        invariant Metrics == Registered(options, old(Metrics), defaults[..i])
      {
        var metric := defaults[i];
        assert defaults[..i + 1][..i] == defaults[..i];
        if options.disableDeprecated && |metric.deprecatedVersion| > 0 {
          continue;
        }
        if !(options.disableSlow && metric.slow) {
          AddMetric(metric.name, metric.fn);
        }
      }
      assert defaults[..|defaults|] == defaults;
    }
  }

  /** The first metric of a name that survives the filters. */
  predicate FirstKept(o: Options, ms: seq<Metric>, i: nat) {
    && i < |ms|
    && Kept(o, ms[i])
    && forall j :: 0 <= j < i && Kept(o, ms[j]) ==> ms[j].name != ms[i].name
  }

  predicate Reserved(name: string) { name == UP || name == COLLECT_SECONDS }

  /** A surviving metric of that name is listed. */
  predicate SomeKept(o: Options, ms: seq<Metric>, name: string) {
    exists m :: m in ms && Kept(o, m) && m.name == name
  }

  /** A fresh exporter has a table iff a metric survives the filters, and the table names those and the two reserved ones. */
  lemma {:induction false} RegisteredNames(o: Options, ms: seq<Metric>)
    ensures var t := Registered(o, None, ms);
            && TableValid(t)
            && (t.Some? <==> exists m :: m in ms && Kept(o, m))
            && (t.Some? ==> forall n :: n in t.value <==> Reserved(n) || SomeKept(o, ms, n))
    decreases |ms|
  {
    if ms != [] {
      var init, last := ms[..|ms| - 1], ms[|ms| - 1];
      RegisteredNames(o, init);
      assert ms == init + [last];
      forall n
        ensures SomeKept(o, ms, n) <==> SomeKept(o, init, n) || (Kept(o, last) && last.name == n)
      {
      }
    }
  }

  /** Of several surviving metrics of one name the first one's handler is the one that runs. */
  lemma {:induction false} FirstRegistrationWins(o: Options, ms: seq<Metric>, i: nat)
    requires FirstKept(o, ms, i) && !Reserved(ms[i].name)
    ensures var t := Registered(o, None, ms);
            t.Some? && ms[i].name in t.value && t.value[ms[i].name] == ms[i].fn
    decreases |ms|
  {
    var init := ms[..|ms| - 1];
    if i < |init| {
      assert FirstKept(o, init, i);
      FirstRegistrationWins(o, init, i);
    } else {
      RegisteredNames(o, init);
      assert !SomeKept(o, init, ms[i].name);
    }
  }

  /** Every metric name is supplied by its first surviving metric. */
  lemma {:induction false} FirstKeptExists(o: Options, ms: seq<Metric>, name: string) returns (i: nat)
    requires SomeKept(o, ms, name)
    ensures FirstKept(o, ms, i) && ms[i].name == name
    decreases |ms|
  {
    var init, last := ms[..|ms| - 1], ms[|ms| - 1];
    assert ms == init + [last];
    if SomeKept(o, init, name) {
      i := FirstKeptExists(o, init, name);
    } else {
      i := |init|;
    }
  }

  /**
   The table in terms of the options alone: besides `up` and the timing metric, a name is in it
   iff some default metric of that name is not disabled, not slow where slow ones are left out,
   and not deprecated where deprecated ones are; its handler is that of the first such metric.
   Without any such metric there is no table.
   */
  lemma TableMeaning(o: Options, ms: seq<Metric>, name: string)
    requires name != "up" && name != "openstack_metric_collect_seconds"
    ensures var t := Registered(o, None, ms);
            && (t.Some? <==> exists i :: 0 <= i < |ms| && Survives(o, ms[i]))
            && (t.Some? ==> t.value.Keys >= {"up", "openstack_metric_collect_seconds"}
                            && t.value["up"] == None && t.value["openstack_metric_collect_seconds"] == None)
            && (t.Some? && name in t.value <==> exists i :: 0 <= i < |ms| && ms[i].name == name && Survives(o, ms[i]))
            && forall i :: Supplies(o, ms, i, name) ==> t.value[name] == ms[i].fn
  {
    var t := Registered(o, None, ms);
    RegisteredNames(o, ms);
    assert forall m: Metric :: Kept(o, m) <==> Survives(o, m);
    forall i | 0 <= i < |ms| && ms[i].name == name && Survives(o, ms[i])
      ensures ms[i] in ms
    {
    }
    forall i | Supplies(o, ms, i, name)
      ensures t.value[name] == ms[i].fn
    {
      FirstRegistrationWins(o, ms, i);
    }
  }

  /** The first metric of that name that survives the filters. */
  predicate Supplies(o: Options, ms: seq<Metric>, i: int, name: string) {
    && 0 <= i < |ms| && ms[i].name == name && Survives(o, ms[i])
    && forall j :: 0 <= j < i && ms[j].name == name ==> !Survives(o, ms[j])
  }

  predicate Survives(o: Options, m: Metric) {
    && o.name + "-" + m.name !in o.disabledMetrics
    && (o.disableSlow ==> !m.slow)
    && (o.disableDeprecated ==> m.deprecatedVersion == "")
  }

  /** A value for a metric that a handler looks up in the exporter's table without a check. */
  datatype Reading = Reading(metric: string, labels: seq<string>, value: real)

  /** One sample: a handler's own, the duration of a handler, or the exporter's `up`. */
  datatype Sample = FromHandler(r: Reading) | Duration(handler: string) | Up(value: nat) {
    /** The table entry it needs. */
    function Looked(): string {
      match this
      case FromHandler(r) => r.metric
      case Duration(_) => COLLECT_SECONDS
      case Up(_) => UP
    }
  }

  /** What a handler does in one run: the readings it sends and whether it returns an error. */
  datatype Behaviour = Behaviour(sends: seq<Reading>, ok: bool)

  function Readings(rs: seq<Reading>): seq<Sample> {
    seq(|rs|, i requires 0 <= i < |rs| => FromHandler(rs[i]))
  }

  /** `RunCollection`: the handler's readings, then its duration if it succeeded and timing is on. */
  function CollectionPlan(name: string, b: Behaviour, collectTime: bool): Plan<Sample> {
    Plan(Readings(b.sends) + if b.ok && collectTime then [Duration(name)] else [], b.ok)
  }

  /** The entries the loop of `Collect` runs over; without a table there are none. */
  function Entries(t: Option<Table>): Table { if t.Some? then t.value else map[] }

  /** `order` lists the metrics that have a handler, in some order of map iteration. */
  ghost predicate Iterates(t: Option<Table>, order: seq<string>) {
    (forall n :: n in order <==> n in Entries(t) && Entries(t)[n].Some?) && Distinct(order)
  }

  function Plans(order: seq<string>, behave: string -> Behaviour, collectTime: bool): seq<Plan<Sample>> {
    if order == [] then [] else [CollectionPlan(order[0], behave(order[0]), collectTime)] + Plans(order[1..], behave, collectTime)
  }

  function Group(order: seq<string>, behave: string -> Behaviour, collectTime: bool): Config<Sample> {
    Config(Plans(order, behave, collectTime), -1, false)
  }

  /** What `Collect` sends last, once all handlers have ended. */
  function UpValue(metricsCount: nat, failures: nat): nat {
    if metricsCount == 0 then 0 else if failures >= metricsCount then 0 else 1
  }

  datatype Outcome = NilDereference | Collected(out: seq<Sample>)

  /** Some sample needs a metric that is not in the table. */
  predicate Missing(t: Option<Table>, xs: seq<Sample>) {
    exists x :: x in xs && x.Looked() !in Entries(t)
  }

  /**
   The result of `Collect` for one schedule of its handlers. A schedule in which some sample's
   metric is not in the table ends, at that sample, in a nil dereference; so does one without a
   table, when `up` is looked up.
   */
  function Collect(t: Option<Table>, order: seq<string>, behave: string -> Behaviour, collectTime: bool, es: seq<Event>): Outcome
    requires var c := Group(order, behave, collectTime); IsRun(c, Init(c), es)
  {
    var c := Group(order, behave, collectTime);
    var s := After(c, Init(c), es);
    var out := s.out + [Up(UpValue(|order|, s.failures))];
    if Missing(t, out) then NilDereference else Collected(out)
  }

  lemma {:induction false} PlansAt(order: seq<string>, behave: string -> Behaviour, collectTime: bool)
    ensures var ps := Plans(order, behave, collectTime);
            |ps| == |order| && forall i :: 0 <= i < |ps| ==> ps[i] == CollectionPlan(order[i], behave(order[i]), collectTime)
  {
    if order != [] {
      PlansAt(order[1..], behave, collectTime);
    }
  }

  lemma PlanCounts(name: string, b: Behaviour, collectTime: bool, n: string)
    ensures var emits := multiset(CollectionPlan(name, b, collectTime).emits);
            && emits[Duration(n)] == (if n == name && b.ok && collectTime then 1 else 0)
            && forall v :: emits[Up(v)] == 0
  {
    var readings, more := Readings(b.sends), if b.ok && collectTime then [Duration(name)] else [];
    assert Duration(n) !in readings && forall v :: Up(v) !in readings;
    assert multiset(readings + more) == multiset(readings) + multiset(more);
  }

  /** Handlers send no `up`, and a duration exactly once for each success when timing is on. */
  lemma {:induction false} SampleCounts(order: seq<string>, behave: string -> Behaviour, collectTime: bool, n: string)
    requires Distinct(order)
    ensures var all := AllSamples(Plans(order, behave, collectTime));
            && all[Duration(n)] == (if n in order && behave(n).ok && collectTime then 1 else 0)
            && forall v :: all[Up(v)] == 0
  {
    if order != [] {
      SampleCounts(order[1..], behave, collectTime, n);
      PlanCounts(order[0], behave(order[0]), collectTime, n);
      assert n in order[1..] ==> n != order[0];
      assert n in order <==> n == order[0] || n in order[1..];
    }
  }

  /** How often handlers send a reading, all of them run once. */
  ghost function TimesSent(order: seq<string>, behave: string -> Behaviour, r: Reading): nat {
    if order == [] then 0 else multiset(behave(order[0]).sends)[r] + TimesSent(order[1..], behave, r)
  }

  lemma {:induction false} ReadingsCount(rs: seq<Reading>, r: Reading)
    ensures multiset(Readings(rs))[FromHandler(r)] == multiset(rs)[r]
  {
    if rs != [] {
      ReadingsCount(rs[1..], r);
      assert Readings(rs) == [FromHandler(rs[0])] + Readings(rs[1..]);
      assert rs == [rs[0]] + rs[1..];
    }
  }

  lemma PlanReadings(name: string, b: Behaviour, collectTime: bool, r: Reading)
    ensures multiset(CollectionPlan(name, b, collectTime).emits)[FromHandler(r)] == multiset(b.sends)[r]
  {
    var more := if b.ok && collectTime then [Duration(name)] else [];
    ReadingsCount(b.sends, r);
    assert multiset(Readings(b.sends) + more) == multiset(Readings(b.sends)) + multiset(more);
  }

  lemma {:induction false} ReadingCounts(order: seq<string>, behave: string -> Behaviour, collectTime: bool, r: Reading)
    ensures AllSamples(Plans(order, behave, collectTime))[FromHandler(r)] == TimesSent(order, behave, r)
  {
    if order != [] {
      ReadingCounts(order[1..], behave, collectTime, r);
      PlanReadings(order[0], behave(order[0]), collectTime, r);
    }
  }

  /** What one handler's run leaves on the channel: its readings in order, then its duration if it succeeded and timing is on. */
  ghost predicate HandlerOutput(out: seq<Sample>, name: string, b: Behaviour, collectTime: bool) {
    && |out| == |b.sends| + (if b.ok && collectTime then 1 else 0)
    && (forall k :: 0 <= k < |b.sends| ==> out[k] == FromHandler(b.sends[k]))
    && (b.ok && collectTime ==> out[|b.sends|] == Duration(name))
  }

  /** A handler's output stands on the channel, complete and in order, at the positions it wrote. */
  ghost predicate OutputOf(sent: seq<Sample>, owner: seq<nat>, i: nat, name: string, b: Behaviour, collectTime: bool) {
    exists part :: HandlerOutput(part, name, b, collectTime) && Selects(part, sent, Owned(owner, i))
  }

  /** In every schedule run to its end the channel is an interleaving of the outputs of the handlers, each run once. */
  lemma CollectInterleaves(order: seq<string>, behave: string -> Behaviour, collectTime: bool, es: seq<Event>) returns (owner: seq<nat>)
    requires var c := Group(order, behave, collectTime);
             IsRun(c, Init(c), es) && Stuck(c, After(c, Init(c), es))
    ensures var c := Group(order, behave, collectTime);
            var sent := After(c, Init(c), es).out;
            && |owner| == |sent|
            && (forall k :: 0 <= k < |owner| ==> owner[k] < |order|)
            && forall i: nat :: i < |order| ==> OutputOf(sent, owner, i, order[i], behave(order[i]), collectTime)
  {
    var c := Group(order, behave, collectTime);
    var s := After(c, Init(c), es);
    ReachableInv(c, es);
    StuckOnlyWhenDone(c, s);
    DoneWorkers(c, s);
    PlansAt(order, behave, collectTime);
    owner := ChannelInterleaves(c, es);
    forall i: nat | i < |order|
      ensures OutputOf(s.out, owner, i, order[i], behave(order[i]), collectTime)
    {
      assert Share(c.plans[i], s.workers[i], s.out, owner, i);
      WholeOutput(s.out, owner, i, order[i], behave(order[i]), collectTime, s.workers[i]);
    }
  }

  lemma WholeOutput(sent: seq<Sample>, owner: seq<nat>, i: nat, name: string, b: Behaviour, collectTime: bool, w: Worker)
    requires w == (if b.ok then Succeeded else Failed) && Share(CollectionPlan(name, b, collectTime), w, sent, owner, i)
    ensures OutputOf(sent, owner, i, name, b, collectTime)
  {
    assert HandlerOutput(CollectionPlan(name, b, collectTime).emits, name, b, collectTime);
  }

  function Failing(order: seq<string>, behave: string -> Behaviour): set<nat> {
    set i | 0 <= i < |order| && !behave(order[i]).ok
  }

  /** As many failures as handlers means that all of them failed. */
  lemma {:induction false} FailingSize(order: seq<string>, behave: string -> Behaviour)
    ensures |Failing(order, behave)| <= |order|
    ensures |Failing(order, behave)| == |order| <==> forall n :: n in order ==> !behave(n).ok
    decreases |order|
  {
    if order != [] {
      var init, n := order[..|order| - 1], |order| - 1;
      FailingSize(init, behave);
      assert order == init + [order[n]];
      assert Failing(order, behave) == if behave(order[n]).ok then Failing(init, behave) else Failing(init, behave) + {n};
    }
  }

  lemma GroupOutcome(order: seq<string>, behave: string -> Behaviour, collectTime: bool, es: seq<Event>)
    requires var c := Group(order, behave, collectTime);
             IsRun(c, Init(c), es) && Stuck(c, After(c, Init(c), es))
    ensures var c := Group(order, behave, collectTime);
            var s := After(c, Init(c), es);
            multiset(s.out) == AllSamples(Plans(order, behave, collectTime)) && s.failures == |Failing(order, behave)|
  {
    var c := Group(order, behave, collectTime);
    var s := After(c, Init(c), es);
    ReachableInv(c, es);
    StuckOnlyWhenDone(c, s);
    DoneOutcome(c, s);
    FailingAt(order, behave, collectTime);
  }

  lemma FailingAt(order: seq<string>, behave: string -> Behaviour, collectTime: bool)
    ensures FailingPlans(Plans(order, behave, collectTime)) == Failing(order, behave)
  {
    PlansAt(order, behave, collectTime);
  }

  lemma SentCounts(t: Option<Table>, order: seq<string>, behave: string -> Behaviour, collectTime: bool, sent: seq<Sample>)
    requires Iterates(t, order) && multiset(sent) == AllSamples(Plans(order, behave, collectTime))
    ensures forall n :: multiset(sent)[Duration(n)] == if HasHandler(t, n) && behave(n).ok && collectTime then 1 else 0
    ensures forall v :: Up(v) !in sent
  {
    forall n
      ensures multiset(sent)[Duration(n)] == if HasHandler(t, n) && behave(n).ok && collectTime then 1 else 0
    {
      SampleCounts(order, behave, collectTime, n);
    }
    forall v
      ensures Up(v) !in sent
    {
      SampleCounts(order, behave, collectTime, "");
      assert multiset(sent)[Up(v)] == 0;
    }
  }

  predicate HasHandler(t: Option<Table>, n: string) { n in Entries(t) && Entries(t)[n].Some? }

  lemma UpIff(t: Option<Table>, order: seq<string>, behave: string -> Behaviour)
    requires Iterates(t, order)
    ensures UpValue(|order|, |Failing(order, behave)|) == if exists n :: HasHandler(t, n) && behave(n).ok then 1 else 0
  {
    FailingSize(order, behave);
  }

  lemma SentByHandlers(order: seq<string>, behave: string -> Behaviour, collectTime: bool, sent: seq<Sample>, r: Reading)
    requires multiset(sent) == AllSamples(Plans(order, behave, collectTime))
    ensures FromHandler(r) in sent <==> exists n :: n in order && r in behave(n).sends
  {
    var ps := Plans(order, behave, collectTime);
    PlansAt(order, behave, collectTime);
    SampleFromPlan(ps, FromHandler(r));
    assert FromHandler(r) in sent <==> FromHandler(r) in multiset(sent);
    forall i | 0 <= i < |ps|
      ensures FromHandler(r) in ps[i].emits <==> r in behave(order[i]).sends
    {
      ReadingsOnly(behave(order[i]).sends, r);
    }
    if n :| n in order && r in behave(n).sends {
      var i :| 0 <= i < |order| && order[i] == n;
      assert FromHandler(r) in ps[i].emits;
    }
  }

  lemma ReadingsOnly(rs: seq<Reading>, r: Reading)
    ensures FromHandler(r) in Readings(rs) <==> r in rs
  {
    if r in rs {
      var i :| 0 <= i < |rs| && rs[i] == r;
      assert Readings(rs)[i] == FromHandler(r);
    }
  }

  /** Every reading of every handler in the table is for a metric in the table. */
  ghost predicate AllKnown(t: Option<Table>, behave: string -> Behaviour) {
    forall n, r :: HasHandler(t, n) && r in behave(n).sends ==> r.metric in Entries(t)
  }

  lemma NoTable(sent: seq<Sample>, up: Sample)
    ensures Missing(None, sent + [up])
  {
    assert up in sent + [up];
  }

  lemma CollectedIff(t: Option<Table>, order: seq<string>, behave: string -> Behaviour, collectTime: bool, es: seq<Event>)
    requires TableValid(t) && Iterates(t, order)
    requires var c := Group(order, behave, collectTime);
             IsRun(c, Init(c), es) && Stuck(c, After(c, Init(c), es))
    ensures Collect(t, order, behave, collectTime, es).Collected? <==> t.Some? && AllKnown(t, behave)
  {
    var c := Group(order, behave, collectTime);
    var s := After(c, Init(c), es);
    var up := Up(UpValue(|order|, s.failures));
    GroupOutcome(order, behave, collectTime, es);
    if t.Some? {
      LookupsFound(t, order, behave, collectTime, s.out, up);
    } else {
      NoTable(s.out, up);
    }
  }

  /** All lookups of a complete output succeed exactly when the handlers keep to the table. */
  lemma LookupsFound(t: Option<Table>, order: seq<string>, behave: string -> Behaviour, collectTime: bool,
                     sent: seq<Sample>, up: Sample)
    requires TableValid(t) && t.Some? && Iterates(t, order) && up.Up?
    requires multiset(sent) == AllSamples(Plans(order, behave, collectTime))
    ensures Missing(t, sent + [up]) <==> !AllKnown(t, behave)
  {
    if AllKnown(t, behave) {
      forall x | x in sent && x.FromHandler?
        ensures x.Looked() in Entries(t)
      {
        SentByHandlers(order, behave, collectTime, sent, x.r);
      }
    } else {
      var n, r :| HasHandler(t, n) && r in behave(n).sends && r.metric !in Entries(t);
      SentByHandlers(order, behave, collectTime, sent, r);
      assert FromHandler(r) in sent + [up] && FromHandler(r).Looked() == r.metric;
    }
  }

  /**
   For every order of the table and every schedule that runs to its end: `Collect` completes
   exactly when there is a table and every handler keeps to metrics in it. Then the handlers'
   samples are all sent once, one duration is sent for each success when timing is on, and
   `up` comes once, last, and is 1 exactly when some handler succeeded.
   */
  lemma CollectEverySchedule(t: Option<Table>, order: seq<string>, behave: string -> Behaviour, collectTime: bool, es: seq<Event>)
    requires TableValid(t) && Iterates(t, order)
    requires var c := Group(order, behave, collectTime);
             IsRun(c, Init(c), es) && Stuck(c, After(c, Init(c), es))
    ensures var c := Group(order, behave, collectTime);
            var sent := After(c, Init(c), es).out;
            var result := Collect(t, order, behave, collectTime, es);
            && (result.Collected? <==> t.Some? && AllKnown(t, behave))
            && (result.Collected? ==> result.out == sent + [Up(if exists n :: HasHandler(t, n) && behave(n).ok then 1 else 0)])
            && multiset(sent) == AllSamples(Plans(order, behave, collectTime))
            && (forall r :: multiset(sent)[FromHandler(r)] == TimesSent(order, behave, r))
            && (forall n :: multiset(sent)[Duration(n)] == if HasHandler(t, n) && behave(n).ok && collectTime then 1 else 0)
            && (forall v :: Up(v) !in sent)
            && After(c, Init(c), es).failures == |Failing(order, behave)|
  {
    var c := Group(order, behave, collectTime);
    var s := After(c, Init(c), es);
    GroupOutcome(order, behave, collectTime, es);
    SentCounts(t, order, behave, collectTime, s.out);
    forall r
      ensures multiset(s.out)[FromHandler(r)] == TimesSent(order, behave, r)
    {
      ReadingCounts(order, behave, collectTime, r);
    }
    UpIff(t, order, behave);
    CollectedIff(t, order, behave, collectTime, es);
  }

  /** Which metrics each handler function may look up. */
  type Lookups = Handler -> set<string>

  /** Handlers send readings only for metrics they are known to look up. */
  ghost predicate Respects(t: Option<Table>, needs: Lookups, behave: string -> Behaviour) {
    forall n, r :: HasHandler(t, n) && r in behave(n).sends ==> r.metric in needs(Entries(t)[n].value)
  }

  /** No order, behaviour and schedule makes `Collect` dereference nil. */
  ghost predicate Safe(t: Option<Table>, needs: Lookups) {
    forall order, behave, collectTime, es ::
      Iterates(t, order) && Respects(t, needs, behave) && RunsToEnd(order, behave, collectTime, es)
      ==> Collect(t, order, behave, collectTime, es).Collected?
  }

  ghost predicate RunsToEnd(order: seq<string>, behave: string -> Behaviour, collectTime: bool, es: seq<Event>) {
    var c := Group(order, behave, collectTime);
    IsRun(c, Init(c), es) && Stuck(c, After(c, Init(c), es))
  }

  /** Every metric that a registered handler may look up is registered. */
  ghost predicate Closed(t: Option<Table>, needs: Lookups) {
    forall n, x :: HasHandler(t, n) && x in needs(Entries(t)[n].value) ==> x in Entries(t)
  }

  /** Only the handler of `n` sends anything, and that is one reading for `x`. */
  function Only(n: string, x: string): string -> Behaviour {
    k => if k == n then Behaviour([Reading(x, [], 0.0)], true) else Behaviour([], true)
  }

  lemma UnsafeRun(t: Option<Table>, needs: Lookups, behave: string -> Behaviour)
    requires TableValid(t) && Respects(t, needs, behave) && (t.None? || !AllKnown(t, behave))
    ensures !Safe(t, needs)
  {
    var order := Listing(set n | n in Entries(t) && Entries(t)[n].Some?);
    var c := Group(order, behave, false);
    InitInv(c);
    var es := RunToEnd(c, Init(c));
    CollectedIff(t, order, behave, false, es);
    assert RunsToEnd(order, behave, false, es);
  }

  lemma SafeIffClosed(t: Option<Table>, needs: Lookups)
    requires TableValid(t)
    ensures Safe(t, needs) <==> t.Some? && Closed(t, needs)
  {
    if t.None? {
      UnsafeRun(t, needs, Only("", ""));
    } else if !Closed(t, needs) {
      var n, x :| HasHandler(t, n) && x in needs(Entries(t)[n].value) && x !in Entries(t);
      var behave := Only(n, x);
      assert Reading(x, [], 0.0) in behave(n).sends;
      UnsafeRun(t, needs, behave);
    } else {
      forall order, behave, collectTime, es |
        Iterates(t, order) && Respects(t, needs, behave) && RunsToEnd(order, behave, collectTime, es)
        ensures Collect(t, order, behave, collectTime, es).Collected?
      {
        CollectedIff(t, order, behave, collectTime, es);
      }
    }
  }

  /** The metrics that a surviving handler may look up have survived too. */
  ghost predicate KeepsNeeded(o: Options, defaults: seq<Metric>, needs: Lookups) {
    forall i: nat, x ::
      FirstKept(o, defaults, i) && !Reserved(defaults[i].name) && defaults[i].fn.Some? && x in needs(defaults[i].fn.value)
      ==> Reserved(x) || SomeKept(o, defaults, x)
  }

  /**
   A fresh exporter never dereferences nil in `Collect`, in whatever order, behaviour and
   schedule, exactly when some default metric survives the filters and every metric that a
   surviving handler may look up does too.
   */
  lemma CollectSafeIff(o: Options, defaults: seq<Metric>, needs: Lookups)
    ensures Safe(Registered(o, None, defaults), needs)
       <==> (exists m :: m in defaults && Kept(o, m)) && KeepsNeeded(o, defaults, needs)
  {
    var t := Registered(o, None, defaults);
    RegisteredNames(o, defaults);
    SafeIffClosed(t, needs);
    if t.Some? {
      ClosedIffKept(o, defaults, needs);
    }
  }

  lemma ClosedIffKept(o: Options, defaults: seq<Metric>, needs: Lookups)
    requires Registered(o, None, defaults).Some?
    ensures Closed(Registered(o, None, defaults), needs) <==> KeepsNeeded(o, defaults, needs)
  {
    var t := Registered(o, None, defaults);
    RegisteredNames(o, defaults);
    if KeepsNeeded(o, defaults, needs) {
      forall n, x | HasHandler(t, n) && x in needs(Entries(t)[n].value)
        ensures x in Entries(t)
      {
        var i := FirstKeptExists(o, defaults, n);
        FirstRegistrationWins(o, defaults, i);
      }
    }
    if Closed(t, needs) {
      forall i: nat, x |
        FirstKept(o, defaults, i) && !Reserved(defaults[i].name) && defaults[i].fn.Some? && x in needs(defaults[i].fn.value)
        ensures Reserved(x) || SomeKept(o, defaults, x)
      {
        FirstRegistrationWins(o, defaults, i);
        assert HasHandler(t, defaults[i].name);
      }
    }
  }
}
