/**
 The methods of the cache and the state machine agree: what the contracts of `CacheStore` let a
 flush or a publication do is what some run of `CacheRuns` does.
 */
module CacheRefinement {
  import opened CacheCycles
  import opened CacheRuns

  predicate Expired(c: Config, s: State, k: string) { k in s.store && s.store[k].time + c.ttl < s.now }

  /** Checking some of the entries at one moment. */
  lemma {:induction false} CheckAll(c: Config, s: State, keys: set<string>) returns (es: seq<Event>)
    requires s.phase.Flushing? && keys <= s.phase.unchecked && keys <= s.store.Keys
    ensures IsRun(c, s, es)
    ensures After(c, s, es) == s.(store := s.store - (set k | k in keys && Expired(c, s, k)),
                                  phase := s.phase.(unchecked := s.phase.unchecked - keys))
    decreases keys
  {
    es := [];
    if keys == {} {
      assert s.store - (set k | k in keys && Expired(c, s, k)) == s.store;
      assert s.phase.unchecked - keys == s.phase.unchecked;
    } else {
      var k :| k in keys;
      var s1 := Apply(c, s, Check(k));
      var rest := CheckAll(c, s1, keys - {k});
      es := [Check(k)] + rest;
      assert s.phase.unchecked - keys == s1.phase.unchecked - (keys - {k});
      CheckOneMore(c, s, keys, k);
    }
  }

  lemma CheckOneMore(c: Config, s: State, keys: set<string>, k: string)
    requires Enabled(c, s, Check(k)) && k in keys
    ensures var s1 := Apply(c, s, Check(k));
            s.store - (set x | x in keys && Expired(c, s, x)) == s1.store - (set x | x in keys - {k} && Expired(c, s1, x))
  {
    var s1 := Apply(c, s, Check(k));
    var all, rest := set x | x in keys && Expired(c, s, x), set x | x in keys - {k} && Expired(c, s1, x);
    assert all == if Expired(c, s, k) then rest + {k} else rest;
  }

  lemma One(c: Config, s: State, e: Event)
    requires Enabled(c, s, e)
    ensures IsRun(c, s, [e]) && After(c, s, [e]) == Apply(c, s, e)
  {
    assert [e][1..] == [];
  }

  lemma Before(c: Config, s: State, e: Event, es: seq<Event>)
    requires Enabled(c, s, e) && IsRun(c, Apply(c, s, e), es)
    ensures IsRun(c, s, [e] + es) && After(c, s, [e] + es) == After(c, Apply(c, s, e), es)
  {
    One(c, s, e);
    RunJoin(c, s, [e], es);
  }

  /** Checking entries none of which has expired, or all of which have. */
  lemma CheckAlike(c: Config, s: State, keys: set<string>, gone: bool) returns (es: seq<Event>)
    requires s.phase.Flushing? && keys <= s.phase.unchecked && keys <= s.store.Keys
    requires forall k :: k in keys ==> (Expired(c, s, k) <==> gone)
    ensures IsRun(c, s, es)
    ensures After(c, s, es) == s.(store := if gone then s.store - keys else s.store,
                                  phase := s.phase.(unchecked := s.phase.unchecked - keys))
  {
    es := CheckAll(c, s, keys);
    assert (set k | k in keys && Expired(c, s, k)) == if gone then keys else {};
    assert s.store - {} == s.store;
  }

  /** The entries that stay are checked when the flush begins, the others when it ends. */
  lemma Checks(c: Config, s: State, after: map<string, Entry>, ended: int) returns (es: seq<Event>)
    requires s.phase.Flushing? && s.phase.unchecked == s.store.Keys && s.now <= ended
    requires Flushed(s.store, after, (e: Entry) => e.time, s.now, ended, c.ttl)
    ensures IsRun(c, s, es)
    ensures After(c, s, es) == s.(now := ended, store := after, phase := s.phase.(unchecked := {}))
  {
    var tick := Tick(ended - s.now);
    var kept := CheckAlike(c, s, after.Keys, false);
    var s2 := After(c, s, kept);
    var s3 := Apply(c, s2, tick);
    var gone := CheckAlike(c, s3, s.store.Keys - after.Keys, true);
    assert s.store - (s.store.Keys - after.Keys) == after;
    assert s.phase.unchecked - after.Keys - (s.store.Keys - after.Keys) == {};
    Before(c, s2, tick, gone);
    RunJoin(c, s, kept, [tick] + gone);
    es := kept + ([tick] + gone);
  }

  /** Every outcome that the contract of `FlushExpiredCloudCaches` allows is reached by a flush of the machine. */
  lemma FlushRun(c: Config, s: State, after: map<string, Entry>, ended: int) returns (es: seq<Event>)
    requires s.phase.Idle? && s.now <= ended && Flushed(s.store, after, (e: Entry) => e.time, s.now, ended, c.ttl)
    ensures IsRun(c, s, es) && After(c, s, es) == s.(now := ended, store := after, lastFlush := s.now)
  {
    var s1 := Apply(c, s, BeginFlush);
    var checks := Checks(c, s1, after, ended);
    var s2 := After(c, s1, checks);
    One(c, s2, EndFlush);
    RunJoin(c, s1, checks, [EndFlush]);
    Before(c, s, BeginFlush, checks + [EndFlush]);
    es := [BeginFlush] + (checks + [EndFlush]);
  }

  lemma {:induction false} WritePending(c: Config, s: State) returns (es: seq<Event>)
    requires s.phase.Building? && s.phase.families in s.heap && s.phase.gathers != [] && |s.phase.gathers| <= |c.services|
    ensures IsRun(c, s, es)
    ensures var t := After(c, s, es);
            s.phase.families in t.heap
            && t == s.(heap := s.heap[s.phase.families := t.heap[s.phase.families]], phase := s.phase.(pending := []))
    decreases |s.phase.pending|
  {
    es := [];
    if s.phase.pending != [] {
      var rest := WritePending(c, Apply(c, s, WriteFamily));
      es := [WriteFamily] + rest;
    } else {
      assert s.heap[s.phase.families := s.heap[s.phase.families]] == s.heap;
    }
  }

  /** A run that ends with the map under construction changed, `gs` more services gathered, and nothing else. */
  ghost predicate GathersMore(c: Config, s: State, es: seq<Event>, gs: seq<Gather>)
    requires s.phase.Building? && IsRun(c, s, es)
  {
    var r, t := s.phase.families, After(c, s, es);
    && r in t.heap
    && t == s.(heap := s.heap[r := t.heap[r]], phase := s.phase.(gathers := s.phase.gathers + gs))
  }

  predicate CanGather(c: Config, s: State, n: nat) {
    && s.phase.Building?
    && s.phase.families in s.heap
    && s.phase.pending == []
    && |s.phase.gathers| + n <= |c.services|
  }

  lemma GatherOne(c: Config, s: State, g: Gather) returns (es: seq<Event>)
    requires CanGather(c, s, 1)
    ensures IsRun(c, s, es) && GathersMore(c, s, es, [g])
  {
    var s1 := Apply(c, s, GatherService(g));
    var writes := WritePending(c, s1);
    Before(c, s, GatherService(g), writes);
    es := [GatherService(g)] + writes;
  }

  lemma GathersJoin(c: Config, s: State, es: seq<Event>, g: Gather, more: seq<Event>, gs: seq<Gather>)
    requires s.phase.Building? && IsRun(c, s, es) && GathersMore(c, s, es, [g])
    requires IsRun(c, After(c, s, es), more) && GathersMore(c, After(c, s, es), more, gs)
    ensures IsRun(c, s, es + more) && GathersMore(c, s, es + more, [g] + gs)
  {
    RunJoin(c, s, es, more);
    assert (s.phase.gathers + [g]) + gs == s.phase.gathers + ([g] + gs);
  }

  lemma {:induction false} GatherAll(c: Config, s: State, gs: seq<Gather>) returns (es: seq<Event>)
    requires CanGather(c, s, |gs|)
    ensures IsRun(c, s, es) && GathersMore(c, s, es, gs)
    decreases |gs|
  {
    if gs == [] {
      es := [];
      assert s.phase.gathers + gs == s.phase.gathers;
      assert s.heap[s.phase.families := s.heap[s.phase.families]] == s.heap;
    } else {
      var first := GatherOne(c, s, gs[0]);
      var rest := GatherAll(c, After(c, s, first), gs[1..]);
      GathersJoin(c, s, first, gs[0], rest, gs[1..]);
      assert gs == [gs[0]] + gs[1..];
      es := first + rest;
    }
  }

  /**
   What `BuildCloud` and `SetCloudCache` do for one cloud, a fresh map with the output of a
   cycle stored under a time not before the start, is what a run of the machine does.
   */
  lemma PublishRun(c: Config, s: State, r: Ref, gs: seq<Gather>, time: int) returns (es: seq<Event>)
    requires Isolated(c, s) && s.phase.Collecting? && s.phase.clouds != [] && r !in s.heap
    requires |gs| == |c.services| && s.now <= time
    ensures var cloud := s.phase.clouds[0];
            && IsRun(c, s, es)
            && After(c, s, es) == s.(now := time,
                                     heap := s.heap[r := CycleMap(c.services, gs)],
                                     store := s.store[cloud := Entry(time, r)],
                                     cycles := s.cycles[r := Cycle(cloud, gs)],
                                     lastPublished := s.lastPublished[cloud := time],
                                     phase := Collecting(s.phase.clouds[1..]))
  {
    var gathered := GatheredRun(c, s, r, gs);
    var published := PublishAt(c, Gathered(c, s, r, gs), time);
    RunJoin(c, s, gathered, published);
    es := gathered + published;
  }

  /** The machine with a new map that all services have been gathered into. */
  function Gathered(c: Config, s: State, r: Ref, gs: seq<Gather>): State
    requires s.phase.Collecting? && |gs| == |c.services|
  {
    s.(heap := s.heap[r := CycleMap(c.services, gs)], phase := Building(s.phase.clouds, r, gs, []))
  }

  lemma GatheredRun(c: Config, s: State, r: Ref, gs: seq<Gather>) returns (es: seq<Event>)
    requires Isolated(c, s) && Enabled(c, s, NewCache(r)) && |gs| == |c.services|
    ensures IsRun(c, s, es) && After(c, s, es) == Gathered(c, s, r, gs)
  {
    var s1 := Apply(c, s, NewCache(r));
    var gathered := GatherAll(c, s1, gs);
    assert [] + gs == gs;
    Finished(c, s, r, gs, gathered);
    Rewritten(s.heap, r, map[], CycleMap(c.services, gs));
    Before(c, s, NewCache(r), gathered);
    es := [NewCache(r)] + gathered;
  }

  lemma Rewritten(heap: map<Ref, Families>, r: Ref, first: Families, last: Families)
    ensures heap[r := first][r := last] == heap[r := last]
  {
  }

  lemma PublishAt(c: Config, s: State, time: int) returns (es: seq<Event>)
    requires Enabled(c, s, Publish) && s.now <= time
    ensures IsRun(c, s, es) && After(c, s, es) == Apply(c, s.(now := time), Publish)
  {
    var tick := Tick(time - s.now);
    One(c, s.(now := time), Publish);
    Before(c, s, tick, [Publish]);
    es := [tick] + [Publish];
  }

  /** Once all services are gathered the map under construction holds the output of the cycle. */
  lemma Finished(c: Config, s: State, r: Ref, gs: seq<Gather>, es: seq<Event>)
    requires Isolated(c, s) && Enabled(c, s, NewCache(r)) && IsRun(c, Apply(c, s, NewCache(r)), es)
    requires var t := After(c, Apply(c, s, NewCache(r)), es);
             t.phase.Building? && t.phase.families == r && t.phase.gathers == gs && t.phase.pending == [] && |gs| == |c.services|
    ensures var t := After(c, Apply(c, s, NewCache(r)), es);
            r in t.heap && t.heap[r] == CycleMap(c.services, gs)
  {
    StepIsolated(c, s, NewCache(r));
    RunIsolated(c, Apply(c, s, NewCache(r)), es);
    assert c.services[..|c.services|] == c.services;
  }
}
