/**
 The fan-out both collectors use: one goroutine per task in an `errgroup`, an optional
 limit on how many run at once, and tasks that send samples on a shared channel. A
 schedule is any sequence of events, so a statement about all runs is a statement about
 all interleavings.
 */
module ErrGroups {
  import opened Sequences

  /** What a task does when left alone: the samples it sends, in order, and whether it then succeeds. */
  datatype Plan<T> = Plan(emits: seq<T>, ok: bool)

  /** `limit` as given to `SetLimit`, negative for none; `cancels` for a group made with a context. */
  datatype Config<T> = Config(plans: seq<Plan<T>>, limit: int, cancels: bool)

  datatype Worker = Waiting | Running(at: nat) | Succeeded | Failed | Aborted

  datatype State<T> = State(next: nat, workers: seq<Worker>, out: seq<T>, failures: nat, cancelled: bool)

  /** `Abort` is a task whose first request is cut short because another task's failure cancelled the context. */
  datatype Event = Spawn | Emit(i: nat) | Finish(i: nat) | Abort(i: nat)

  function Init<T>(c: Config<T>): State<T> {
    State(0, seq(|c.plans|, i => Waiting), [], 0, false)
  }

  function InFlight(ws: seq<Worker>): set<nat> {
    set i | 0 <= i < |ws| && ws[i].Running?
  }

  predicate Enabled<T>(c: Config<T>, s: State<T>, e: Event)
    requires |s.workers| == |c.plans|
  {
    match e
    case Spawn => s.next < |c.plans| && (c.limit < 0 || |InFlight(s.workers)| < c.limit)
    case Emit(i) => i < |c.plans| && s.workers[i].Running? && s.workers[i].at < |c.plans[i].emits|
    case Finish(i) => i < |c.plans| && s.workers[i] == Running(|c.plans[i].emits|)
    case Abort(i) => i < |c.plans| && c.cancels && s.cancelled && s.workers[i] == Running(0)
  }

  function Apply<T>(c: Config<T>, s: State<T>, e: Event): (s': State<T>)
    requires |s.workers| == |c.plans| && Enabled(c, s, e)
    ensures |s'.workers| == |c.plans|
  {
    match e
    case Spawn => s.(next := s.next + 1, workers := s.workers[s.next := Running(0)])
    case Emit(i) =>
      s.(workers := s.workers[i := Running(s.workers[i].at + 1)], out := s.out + [c.plans[i].emits[s.workers[i].at]])
    case Finish(i) =>
      if c.plans[i].ok then s.(workers := s.workers[i := Succeeded])
      else s.(workers := s.workers[i := Failed], failures := s.failures + 1, cancelled := true)
    case Abort(i) => s.(workers := s.workers[i := Aborted], failures := s.failures + 1)
  }

  predicate IsRun<T>(c: Config<T>, s: State<T>, es: seq<Event>)
    requires |s.workers| == |c.plans|
    decreases |es|
  {
    es != [] ==> Enabled(c, s, es[0]) && IsRun(c, Apply(c, s, es[0]), es[1..])
  }

  function After<T>(c: Config<T>, s: State<T>, es: seq<Event>): (s': State<T>)
    requires |s.workers| == |c.plans| && IsRun(c, s, es)
    ensures |s'.workers| == |c.plans|
    decreases |es|
  {
    if es == [] then s else After(c, Apply(c, s, es[0]), es[1..])
  }

  /** `Wait` returns: every task has been started and has ended. */
  predicate Done<T>(c: Config<T>, s: State<T>) {
    s.next == |c.plans| && InFlight(s.workers) == {}
  }

  /** Part of its plan that a worker has sent so far. */
  function Sent<T>(p: Plan<T>, w: Worker): seq<T> {
    match w
    case Waiting => []
    case Running(at) => if at <= |p.emits| then p.emits[..at] else []
    case Succeeded => p.emits
    case Failed => p.emits
    case Aborted => []
  }

  ghost function SentBy<T>(ps: seq<Plan<T>>, ws: seq<Worker>): multiset<T>
    requires |ps| == |ws|
  {
    if ps == [] then multiset{} else multiset(Sent(ps[0], ws[0])) + SentBy(ps[1..], ws[1..])
  }

  lemma Regroup<T>(first: multiset<T>, rest: multiset<T>, rest': multiset<T>, a: multiset<T>, b: multiset<T>)
    requires rest' + a == rest + b
    ensures (first + rest') + a == (first + rest) + b
  {
    assert (first + rest') + a == first + (rest' + a);
    assert (first + rest) + b == first + (rest + b);
  }

  lemma {:induction false} SentByUpdate<T>(ps: seq<Plan<T>>, ws: seq<Worker>, i: nat, w: Worker)
    requires |ps| == |ws| && i < |ws|
    ensures SentBy(ps, ws[i := w]) + multiset(Sent(ps[i], ws[i])) == SentBy(ps, ws) + multiset(Sent(ps[i], w))
    decreases |ps|
  {
    if i == 0 {
      assert ws[i := w][1..] == ws[1..];
    } else {
      SentByUpdate(ps[1..], ws[1..], i - 1, w);
      assert ws[i := w][1..] == ws[1..][i - 1 := w];
      Regroup(multiset(Sent(ps[0], ws[0])), SentBy(ps[1..], ws[1..]), SentBy(ps[1..], ws[1..][i - 1 := w]),
              multiset(Sent(ps[i], ws[i])), multiset(Sent(ps[i], w)));
    }
  }

  lemma {:induction false} SentByNobody<T>(ps: seq<Plan<T>>, ws: seq<Worker>)
    requires |ps| == |ws| && forall i :: 0 <= i < |ws| ==> ws[i].Waiting?
    ensures SentBy(ps, ws) == multiset{}
    decreases |ps|
  {
    if ps != [] {
      SentByNobody(ps[1..], ws[1..]);
    }
  }

  function Unsuccessful(ws: seq<Worker>): set<nat> {
    set i | 0 <= i < |ws| && (ws[i].Failed? || ws[i].Aborted?)
  }

  ghost predicate WorkerInv<T>(c: Config<T>, s: State<T>, i: nat)
    requires |s.workers| == |c.plans| && i < |c.plans|
  {
    && (s.workers[i].Waiting? <==> s.next <= i)
    && (s.workers[i].Running? ==> s.workers[i].at <= |c.plans[i].emits|)
    && (s.workers[i].Succeeded? ==> c.plans[i].ok)
    && (s.workers[i].Failed? ==> !c.plans[i].ok && s.cancelled)
    && (s.workers[i].Aborted? ==> c.cancels && s.cancelled)
  }

  /** Holds in every reachable state. */
  ghost predicate Inv<T>(c: Config<T>, s: State<T>) {
    && |s.workers| == |c.plans|
    && s.next <= |c.plans|
    && (forall i: nat :: i < |c.plans| ==> WorkerInv(c, s, i))
    && (0 <= c.limit ==> |InFlight(s.workers)| <= c.limit)
    && s.failures == |Unsuccessful(s.workers)|
    && multiset(s.out) == SentBy(c.plans, s.workers)
    && (s.cancelled ==> exists i: nat :: i < |c.plans| && s.workers[i].Failed?)
  }

  lemma InitInv<T>(c: Config<T>)
    ensures Inv(c, Init(c))
  {
    SentByNobody(c.plans, Init(c).workers);
    assert InFlight(Init(c).workers) == {};
    assert Unsuccessful(Init(c).workers) == {};
  }

  datatype Move = Move(worker: nat, becomes: Worker)

  /** The worker an event moves, and what it becomes. */
  function Moved<T>(c: Config<T>, s: State<T>, e: Event): (r: Move)
    requires |s.workers| == |c.plans| && Enabled(c, s, e)
    ensures r.worker < |c.plans| && Apply(c, s, e).workers == s.workers[r.worker := r.becomes]
  {
    match e
    case Spawn => Move(s.next, Running(0))
    case Emit(i) => Move(i, Running(s.workers[i].at + 1))
    case Finish(i) => Move(i, if c.plans[i].ok then Succeeded else Failed)
    case Abort(i) => Move(i, Aborted)
  }

  lemma ClassUpdate(ws: seq<Worker>, i: nat, w: Worker)
    requires i < |ws|
    ensures InFlight(ws[i := w]) == if w.Running? then InFlight(ws) + {i} else InFlight(ws) - {i}
    ensures Unsuccessful(ws[i := w]) == if w.Failed? || w.Aborted? then Unsuccessful(ws) + {i} else Unsuccessful(ws) - {i}
  {
  }

  lemma StepInFlight<T>(c: Config<T>, s: State<T>, e: Event)
    requires Inv(c, s) && Enabled(c, s, e)
    ensures 0 <= c.limit ==> |InFlight(Apply(c, s, e).workers)| <= c.limit
  {
    var Move(i, w) := Moved(c, s, e);
    ClassUpdate(s.workers, i, w);
    if !e.Spawn? {
      assert i in InFlight(s.workers);
      assert InFlight(s.workers) + {i} == InFlight(s.workers);
    }
  }

  lemma StepFailures<T>(c: Config<T>, s: State<T>, e: Event)
    requires Inv(c, s) && Enabled(c, s, e)
    ensures Apply(c, s, e).failures == |Unsuccessful(Apply(c, s, e).workers)|
  {
    var Move(i, w) := Moved(c, s, e);
    assert WorkerInv(c, s, i);
    ClassUpdate(s.workers, i, w);
    assert i !in Unsuccessful(s.workers);
    assert Unsuccessful(s.workers) - {i} == Unsuccessful(s.workers);
  }

  lemma SentOneMore<T>(p: Plan<T>, at: nat)
    requires at < |p.emits|
    ensures Sent(p, Running(at + 1)) == Sent(p, Running(at)) + [p.emits[at]]
  {
  }

  lemma SentAll<T>(p: Plan<T>)
    ensures Sent(p, Running(|p.emits|)) == p.emits && Sent(p, Running(0)) == []
  {
  }

  /** What an event adds to the channel is what its worker then counts as sent. */
  lemma EventSends<T>(c: Config<T>, s: State<T>, e: Event)
    requires Inv(c, s) && Enabled(c, s, e)
    ensures multiset(Apply(c, s, e).out) + multiset(Sent(c.plans[Moved(c, s, e).worker], s.workers[Moved(c, s, e).worker]))
         == multiset(s.out) + multiset(Sent(c.plans[Moved(c, s, e).worker], Moved(c, s, e).becomes))
  {
    var Move(i, w) := Moved(c, s, e);
    var p := c.plans[i];
    assert WorkerInv(c, s, i);
    SentAll(p);
    if e.Emit? {
      SentOneMore(p, s.workers[i].at);
    }
  }

  lemma StepSends<T>(c: Config<T>, s: State<T>, e: Event)
    requires Inv(c, s) && Enabled(c, s, e)
    ensures multiset(Apply(c, s, e).out) == SentBy(c.plans, Apply(c, s, e).workers)
  {
    var Move(i, w) := Moved(c, s, e);
    EventSends(c, s, e);
    SentByUpdate(c.plans, s.workers, i, w);
    Cancel(multiset(Apply(c, s, e).out), SentBy(c.plans, s.workers[i := w]), multiset(Sent(c.plans[i], s.workers[i])));
  }

  lemma Cancel<T>(a: multiset<T>, b: multiset<T>, x: multiset<T>)
    requires a + x == b + x
    ensures a == b
  {
    assert a == (a + x) - x && b == (b + x) - x;
  }

  lemma StepWorkers<T>(c: Config<T>, s: State<T>, e: Event, i: nat)
    requires Inv(c, s) && Enabled(c, s, e) && i < |c.plans|
    ensures WorkerInv(c, Apply(c, s, e), i)
  {
    assert WorkerInv(c, s, i) && WorkerInv(c, s, Moved(c, s, e).worker);
  }

  lemma StepCancelled<T>(c: Config<T>, s: State<T>, e: Event)
    requires Inv(c, s) && Enabled(c, s, e) && Apply(c, s, e).cancelled
    ensures exists i: nat :: i < |c.plans| && Apply(c, s, e).workers[i].Failed?
  {
    var s', m := Apply(c, s, e), Moved(c, s, e);
    if s.cancelled {
      var i: nat :| i < |c.plans| && s.workers[i].Failed?;
      assert WorkerInv(c, s, m.worker);
      assert s'.workers[i].Failed?;
    } else {
      assert s'.workers[m.worker].Failed?;
    }
  }

  lemma StepInv<T>(c: Config<T>, s: State<T>, e: Event)
    requires Inv(c, s) && Enabled(c, s, e)
    ensures Inv(c, Apply(c, s, e))
  {
    StepInFlight(c, s, e);
    StepFailures(c, s, e);
    StepSends(c, s, e);
    forall i: nat | i < |c.plans|
      ensures WorkerInv(c, Apply(c, s, e), i)
    {
      StepWorkers(c, s, e, i);
    }
    if Apply(c, s, e).cancelled {
      StepCancelled(c, s, e);
    }
  }

  lemma {:induction false} RunInv<T>(c: Config<T>, s: State<T>, es: seq<Event>)
    requires Inv(c, s) && IsRun(c, s, es)
    ensures Inv(c, After(c, s, es))
    decreases |es|
  {
    if es != [] {
      StepInv(c, s, es[0]);
      RunInv(c, Apply(c, s, es[0]), es[1..]);
    }
  }

  /** Every schedule keeps the invariant: the limit is respected, the counter is right, nothing is sent twice or lost. */
  lemma ReachableInv<T>(c: Config<T>, es: seq<Event>)
    requires IsRun(c, Init(c), es)
    ensures Inv(c, After(c, Init(c), es))
  {
    InitInv(c);
    RunInv(c, Init(c), es);
  }

  /** The positions of the channel that task `i` wrote. */
  function Owned(owner: seq<nat>, i: nat): set<nat> { set k | 0 <= k < |owner| && owner[k] == i }

  /** The channel interleaves what the tasks have sent: each task's samples stand in it complete and in order. */
  ghost predicate Interleaves<T>(ps: seq<Plan<T>>, ws: seq<Worker>, out: seq<T>, owner: seq<nat>)
    requires |ps| == |ws|
  {
    && |owner| == |out|
    && (forall k :: 0 <= k < |owner| ==> owner[k] < |ps|)
    && forall i: nat :: i < |ps| ==> Share(ps[i], ws[i], out, owner, i)
  }

  /** What task `i` has sent is what it wrote. */
  ghost predicate Share<T>(p: Plan<T>, w: Worker, out: seq<T>, owner: seq<nat>, i: nat) {
    Selects(Sent(p, w), out, Owned(owner, i))
  }

  lemma OwnedSnoc(owner: seq<nat>, i: nat, j: nat)
    ensures Owned(owner + [j], i) == if i == j then Owned(owner, i) + {|owner|} else Owned(owner, i)
    ensures forall k :: k in Owned(owner, i) ==> k < |owner|
  {
  }

  lemma ShareOwn<T>(sent: seq<T>, sent': seq<T>, out: seq<T>, owner: seq<nat>, i: nat, x: T)
    requires Selects(sent, out, Owned(owner, i)) && |owner| == |out| && sent' == sent + [x]
    ensures Selects(sent', out + [x], Owned(owner + [i], i))
  {
    OwnedSnoc(owner, i, i);
    SelectsSnoc(sent, out, Owned(owner, i), x, sent', Owned(owner + [i], i));
  }

  lemma ShareOther<T>(sent: seq<T>, out: seq<T>, owner: seq<nat>, i: nat, j: nat, x: T)
    requires Selects(sent, out, Owned(owner, i)) && |owner| == |out| && i != j
    ensures Selects(sent, out + [x], Owned(owner + [j], i))
  {
    OwnedSnoc(owner, i, j);
    SelectsSnoc(sent, out, Owned(owner, i), x, sent, Owned(owner + [j], i));
  }

  lemma SentUnlessEmitted<T>(c: Config<T>, s: State<T>, e: Event, i: nat)
    requires Inv(c, s) && Enabled(c, s, e) && i < |c.plans| && e != Emit(i)
    ensures Sent(c.plans[i], Apply(c, s, e).workers[i]) == Sent(c.plans[i], s.workers[i])
  {
    assert WorkerInv(c, s, i);
    SentAll(c.plans[i]);
  }

  lemma SentWhenEmitted<T>(c: Config<T>, s: State<T>, i: nat)
    requires Inv(c, s) && Enabled(c, s, Emit(i))
    ensures Sent(c.plans[i], Apply(c, s, Emit(i)).workers[i])
         == Sent(c.plans[i], s.workers[i]) + [c.plans[i].emits[s.workers[i].at]]
  {
    SentOneMore(c.plans[i], s.workers[i].at);
  }

  /** Who wrote what after one more event. */
  function Signed(owner: seq<nat>, e: Event): seq<nat> { if e.Emit? then owner + [e.i] else owner }

  lemma StepShare<T>(c: Config<T>, s: State<T>, e: Event, owner: seq<nat>, i: nat)
    requires Inv(c, s) && Enabled(c, s, e) && i < |c.plans| && |owner| == |s.out|
    requires Share(c.plans[i], s.workers[i], s.out, owner, i)
    ensures Share(c.plans[i], Apply(c, s, e).workers[i], Apply(c, s, e).out, Signed(owner, e), i)
  {
    var sent, sent' := Sent(c.plans[i], s.workers[i]), Sent(c.plans[i], Apply(c, s, e).workers[i]);
    if e == Emit(i) {
      SentWhenEmitted(c, s, i);
      ShareOwn(sent, sent', s.out, owner, i, c.plans[i].emits[s.workers[i].at]);
    } else {
      SentUnlessEmitted(c, s, e, i);
      if e.Emit? {
        ShareOther(sent, s.out, owner, i, e.i, c.plans[e.i].emits[s.workers[e.i].at]);
      }
    }
  }

  lemma StepInterleaves<T>(c: Config<T>, s: State<T>, e: Event, owner: seq<nat>)
    requires Inv(c, s) && Enabled(c, s, e) && Interleaves(c.plans, s.workers, s.out, owner)
    ensures Interleaves(c.plans, Apply(c, s, e).workers, Apply(c, s, e).out, Signed(owner, e))
  {
    forall i: nat | i < |c.plans|
      ensures Share(c.plans[i], Apply(c, s, e).workers[i], Apply(c, s, e).out, Signed(owner, e), i)
    {
      StepShare(c, s, e, owner, i);
    }
  }

  lemma {:induction false} RunInterleaves<T>(c: Config<T>, s: State<T>, es: seq<Event>, before: seq<nat>) returns (owner: seq<nat>)
    requires Inv(c, s) && IsRun(c, s, es) && Interleaves(c.plans, s.workers, s.out, before)
    ensures Interleaves(c.plans, After(c, s, es).workers, After(c, s, es).out, owner)
    decreases |es|
  {
    owner := before;
    if es != [] {
      StepInv(c, s, es[0]);
      StepInterleaves(c, s, es[0], before);
      owner := RunInterleaves(c, Apply(c, s, es[0]), es[1..], Signed(before, es[0]));
    }
  }

  /** In every schedule the channel is an interleaving of what each task sends, in the task's own order. */
  lemma ChannelInterleaves<T>(c: Config<T>, es: seq<Event>) returns (owner: seq<nat>)
    requires IsRun(c, Init(c), es)
    ensures Interleaves(c.plans, After(c, Init(c), es).workers, After(c, Init(c), es).out, owner)
  {
    InitInv(c);
    forall i: nat | i < |c.plans|
      ensures Share(c.plans[i], Init(c).workers[i], Init(c).out, [], i)
    {
      SelectsNone(Sent(c.plans[i], Init(c).workers[i]), Init(c).out, Owned([], i));
    }
    owner := RunInterleaves(c, Init(c), es, []);
  }

  function Remaining<T>(p: Plan<T>, w: Worker): nat {
    match w
    case Waiting => |p.emits| + 2
    case Running(at) => if at <= |p.emits| then |p.emits| - at + 1 else 0
    case _ => 0
  }

  /** Work left: drops with every event, so no schedule runs forever. */
  function Measure<T>(ps: seq<Plan<T>>, ws: seq<Worker>): nat
    requires |ps| == |ws|
  {
    if ps == [] then 0 else Remaining(ps[0], ws[0]) + Measure(ps[1..], ws[1..])
  }

  lemma {:induction false} MeasureUpdate<T>(ps: seq<Plan<T>>, ws: seq<Worker>, i: nat, w: Worker)
    requires |ps| == |ws| && i < |ws|
    ensures Measure(ps, ws[i := w]) == Measure(ps, ws) - Remaining(ps[i], ws[i]) + Remaining(ps[i], w)
    decreases |ps|
  {
    if i == 0 {
      assert ws[i := w][1..] == ws[1..];
    } else {
      MeasureUpdate(ps[1..], ws[1..], i - 1, w);
      assert ws[i := w][1..] == ws[1..][i - 1 := w];
    }
  }

  lemma StepDecreases<T>(c: Config<T>, s: State<T>, e: Event)
    requires Inv(c, s) && Enabled(c, s, e)
    ensures Measure(c.plans, Apply(c, s, e).workers) < Measure(c.plans, s.workers)
  {
    var Move(i, w) := Moved(c, s, e);
    assert WorkerInv(c, s, i);
    MeasureUpdate(c.plans, s.workers, i, w);
  }

  /** A schedule has at most as many events as there was work to do. */
  lemma {:induction false} RunsAreBounded<T>(c: Config<T>, s: State<T>, es: seq<Event>)
    requires Inv(c, s) && IsRun(c, s, es)
    ensures |es| <= Measure(c.plans, s.workers)
    decreases |es|
  {
    if es != [] {
      StepInv(c, s, es[0]);
      StepDecreases(c, s, es[0]);
      RunsAreBounded(c, Apply(c, s, es[0]), es[1..]);
    }
  }

  ghost predicate Stuck<T>(c: Config<T>, s: State<T>)
    requires |s.workers| == |c.plans|
  {
    forall e :: !Enabled(c, s, e)
  }

  /** The limit is no smaller than it says: as many tasks as it allows can all be in flight at once. */
  lemma {:induction false} LimitIsReached<T>(c: Config<T>, n: nat) returns (es: seq<Event>)
    requires n <= |c.plans| && (c.limit < 0 || n <= c.limit)
    ensures IsRun(c, Init(c), es)
    ensures After(c, Init(c), es).next == n && |InFlight(After(c, Init(c), es).workers)| == n
  {
    InitInv(c);
    if n == 0 {
      es := [];
      assert InFlight(Init(c).workers) == {};
    } else {
      var before := LimitIsReached(c, n - 1);
      ReachableInv(c, before);
      OneMoreInFlight(c, After(c, Init(c), before));
      RunSnoc(c, Init(c), before, Spawn);
      es := before + [Spawn];
    }
  }

  lemma OneMoreInFlight<T>(c: Config<T>, s: State<T>)
    requires Inv(c, s) && Enabled(c, s, Spawn)
    ensures |InFlight(Apply(c, s, Spawn).workers)| == |InFlight(s.workers)| + 1
  {
    assert WorkerInv(c, s, s.next);
    ClassUpdate(s.workers, s.next, Running(0));
    assert s.next !in InFlight(s.workers);
  }

  lemma {:induction false} RunSnoc<T>(c: Config<T>, s: State<T>, es: seq<Event>, e: Event)
    requires |s.workers| == |c.plans| && IsRun(c, s, es) && Enabled(c, After(c, s, es), e)
    ensures IsRun(c, s, es + [e]) && After(c, s, es + [e]) == Apply(c, After(c, s, es), e)
    decreases |es|
  {
    if es == [] {
      assert es + [e] == [e] && [e][1..] == [];
    } else {
      RunSnoc(c, Apply(c, s, es[0]), es[1..], e);
      assert (es + [e])[0] == es[0] && (es + [e])[1..] == es[1..] + [e];
    }
  }

  /** Every schedule can be continued to one that cannot. */
  lemma {:induction false} RunToEnd<T>(c: Config<T>, s: State<T>) returns (es: seq<Event>)
    requires Inv(c, s)
    ensures IsRun(c, s, es) && Stuck(c, After(c, s, es))
    decreases Measure(c.plans, s.workers)
  {
    es := [];
    if e :| Enabled(c, s, e) {
      StepInv(c, s, e);
      StepDecreases(c, s, e);
      var rest := RunToEnd(c, Apply(c, s, e));
      es := [e] + rest;
    }
  }

  lemma RunningCanMove<T>(c: Config<T>, s: State<T>, i: nat) returns (e: Event)
    requires Inv(c, s) && i in InFlight(s.workers)
    ensures Enabled(c, s, e)
  {
    assert WorkerInv(c, s, i);
    e := if s.workers[i].at < |c.plans[i].emits| then Emit(i) else Finish(i);
  }

  /** With any limit but zero a schedule can only end when the group is done. */
  lemma StuckOnlyWhenDone<T>(c: Config<T>, s: State<T>)
    requires Inv(c, s) && Stuck(c, s) && c.limit != 0
    ensures Done(c, s)
  {
    if i :| i in InFlight(s.workers) {
      var e := RunningCanMove(c, s, i);
    } else {
      assert InFlight(s.workers) == {};
      assert !Enabled(c, s, Spawn);
    }
  }

  /** With limit zero nothing can ever start: the first `Go` blocks for good. */
  lemma LimitZeroBlocks<T>(c: Config<T>)
    requires c.limit == 0
    ensures Stuck(c, Init(c))
    ensures Done(c, Init(c)) <==> c.plans == []
  {
    assert InFlight(Init(c).workers) == {};
  }

  lemma StuckRunsAreEmpty<T>(c: Config<T>, s: State<T>, es: seq<Event>)
    requires |s.workers| == |c.plans| && Stuck(c, s) && IsRun(c, s, es)
    ensures es == []
  {
  }

  /** Schedules that cannot be continued end with the group done, whatever the schedule, iff the limit lets tasks start. */
  lemma AlwaysFinishesIff<T>(c: Config<T>)
    ensures (forall es :: IsRun(c, Init(c), es) && Stuck(c, After(c, Init(c), es)) ==> Done(c, After(c, Init(c), es)))
       <==> c.limit != 0 || c.plans == []
  {
    if c.limit != 0 {
      forall es | IsRun(c, Init(c), es) && Stuck(c, After(c, Init(c), es))
        ensures Done(c, After(c, Init(c), es))
      {
        ReachableInv(c, es);
        StuckOnlyWhenDone(c, After(c, Init(c), es));
      }
    } else {
      LimitZeroBlocks(c);
      assert IsRun(c, Init(c), []) && After(c, Init(c), []) == Init(c);
      if c.plans != [] {
        assert !Done(c, After(c, Init(c), []));
      } else {
        forall es | IsRun(c, Init(c), es)
          ensures Done(c, After(c, Init(c), es))
        {
          StuckRunsAreEmpty(c, Init(c), es);
        }
      }
    }
  }

  /** All samples of all plans. */
  ghost function AllSamples<T>(ps: seq<Plan<T>>): multiset<T> {
    if ps == [] then multiset{} else multiset(ps[0].emits) + AllSamples(ps[1..])
  }

  lemma {:induction false} SentByAll<T>(ps: seq<Plan<T>>, ws: seq<Worker>)
    requires |ps| == |ws| && forall i :: 0 <= i < |ws| ==> ws[i].Succeeded? || ws[i].Failed?
    ensures SentBy(ps, ws) == AllSamples(ps)
    decreases |ps|
  {
    if ps != [] {
      SentByAll(ps[1..], ws[1..]);
    }
  }

  function FailingPlans<T>(ps: seq<Plan<T>>): set<nat> {
    set i | 0 <= i < |ps| && !ps[i].ok
  }

  lemma DoneWorkers<T>(c: Config<T>, s: State<T>)
    requires Inv(c, s) && Done(c, s)
    ensures forall i :: 0 <= i < |c.plans| ==>
              s.workers[i] == (if c.plans[i].ok then Succeeded else Failed) || (s.workers[i].Aborted? && c.cancels && s.cancelled)
  {
    forall i | 0 <= i < |c.plans|
      ensures s.workers[i] == (if c.plans[i].ok then Succeeded else Failed) || (s.workers[i].Aborted? && c.cancels && s.cancelled)
    {
      assert WorkerInv(c, s, i);
      assert i !in InFlight(s.workers);
    }
  }

  /**
   When the group is done, `Wait` reports an error exactly when some task fails by itself.
   If none does, or the group has no context to cancel, every sample of every plan has been
   sent exactly once, in whatever order, and the counter is the number of failing tasks.
   */
  lemma DoneOutcome<T>(c: Config<T>, s: State<T>)
    requires Inv(c, s) && Done(c, s)
    ensures s.failures > 0 <==> FailingPlans(c.plans) != {}
    ensures FailingPlans(c.plans) == {} || !c.cancels ==>
              multiset(s.out) == AllSamples(c.plans) && s.failures == |FailingPlans(c.plans)|
  {
    DoneWorkers(c, s);
    if s.cancelled {
      var i: nat :| i < |c.plans| && s.workers[i].Failed?;
      assert WorkerInv(c, s, i) && i in FailingPlans(c.plans) && i in Unsuccessful(s.workers);
    }
    if i :| i in FailingPlans(c.plans) {
      assert i in Unsuccessful(s.workers);
    }
    if !s.cancelled || !c.cancels {
      assert Unsuccessful(s.workers) == FailingPlans(c.plans);
      SentByAll(c.plans, s.workers);
    }
  }

  /** The plans of the tasks that were not cut short. */
  function Uncut<T>(ps: seq<Plan<T>>, ws: seq<Worker>): seq<Plan<T>>
    requires |ps| == |ws|
  {
    if ps == [] then []
    else if ws[0].Aborted? then Uncut(ps[1..], ws[1..])
    else [ps[0]] + Uncut(ps[1..], ws[1..])
  }

  /** When the group is done each task has sent all of its plan or, if it was cut short, none of it. */
  lemma {:induction false} WholePlansSent<T>(ps: seq<Plan<T>>, ws: seq<Worker>)
    requires |ps| == |ws| && forall i :: 0 <= i < |ws| ==> !ws[i].Waiting? && !ws[i].Running?
    ensures SentBy(ps, ws) == AllSamples(Uncut(ps, ws))
    decreases |ps|
  {
    if ps != [] {
      WholePlansSent(ps[1..], ws[1..]);
      if ws[0].Aborted? {
        assert SentBy(ps, ws) == multiset{} + SentBy(ps[1..], ws[1..]);
      } else {
        assert Uncut(ps, ws)[0] == ps[0] && Uncut(ps, ws)[1..] == Uncut(ps[1..], ws[1..]);
        assert Sent(ps[0], ws[0]) == ps[0].emits;
      }
    }
  }

  lemma {:induction false} SampleFromPlan<T>(ps: seq<Plan<T>>, t: T)
    ensures t in AllSamples(ps) <==> exists i :: 0 <= i < |ps| && t in ps[i].emits
  {
    if ps != [] {
      SampleFromPlan(ps[1..], t);
      if i :| 0 <= i < |ps| && t in ps[i].emits {
        assert i > 0 ==> t in ps[1..][i - 1].emits;
      }
    }
  }
}
