/**
 What one collection cycle of `cache/utils.go` produces for a cloud, and which of its
 metric families a cached read then serves.
 */
module CacheCycles {
  import opened Sequences
  import Collection

  datatype Metric = Metric(labels: seq<string>, value: real)

  datatype MetricFamily = MetricFamily(name: string, metrics: seq<Metric>)

  datatype MetricFamilyCache = MetricFamilyCache(service: string, mf: MetricFamily)

  type Families = map<string, MetricFamilyCache>

  /** Enabling the exporter and gathering from it: either can fail, and then the service is skipped. */
  datatype Gather = EnableFailed | GatherFailed | Gathered(families: seq<MetricFamily>)

  /** Writes the families of one service in order; a later family of the same name replaces an earlier one. */
  function WriteAll(m: Families, service: string, families: seq<MetricFamily>): Families {
    if families == [] then m
    else
      var f := families[|families| - 1];
      WriteAll(m, service, families[..|families| - 1])[f.name := MetricFamilyCache(service, f)]
  }

  function Record(m: Families, service: string, g: Gather): Families {
    if g.Gathered? then WriteAll(m, service, g.families) else m
  }

  /** The output of a cycle: one gather for each service, in collection order. */
  function CycleMap(services: seq<string>, gathers: seq<Gather>): Families
    requires |services| == |gathers|
  {
    if services == [] then map[]
    else
      var n := |services| - 1;
      Record(CycleMap(services[..n], gathers[..n]), services[n], gathers[n])
  }

  /** A gather succeeded and holds this family. */
  predicate Holds(g: Gather, f: MetricFamily) { g.Gathered? && f in g.families }

  predicate HasName(g: Gather, name: string) {
    g.Gathered? && exists f :: f in g.families && f.name == name
  }

  /** A registry gathers each family name once, and no family without a sample. */
  predicate WellGathered(g: Gather) {
    g.Gathered? ==>
      && (forall i, j :: 0 <= i < j < |g.families| ==> g.families[i].name != g.families[j].name)
      && forall f :: f in g.families ==> f.metrics != []
  }

  lemma {:induction false} WriteAllEntries(m: Families, service: string, families: seq<MetricFamily>, name: string)
    requires forall i, j :: 0 <= i < j < |families| ==> families[i].name != families[j].name
    ensures var w := WriteAll(m, service, families);
            && (name in w <==> name in m || exists f :: f in families && f.name == name)
            && (name in w && !(exists f :: f in families && f.name == name) ==> w[name] == m[name])
            && forall f :: f in families && f.name == name ==> name in w && w[name] == MetricFamilyCache(service, f)
    decreases |families|
  {
    if families != [] {
      var init, last := families[..|families| - 1], families[|families| - 1];
      WriteAllEntries(m, service, init, name);
      assert families == init + [last];
      forall f | f in init
        ensures f.name != last.name
      {
      }
    }
  }

  /** Position `i` is the last service in collection order that gathered a family of this name. */
  predicate LastToGather(gathers: seq<Gather>, i: nat, name: string) {
    && i < |gathers|
    && HasName(gathers[i], name)
    && forall j :: i < j < |gathers| ==> !HasName(gathers[j], name)
  }

  /** What `CycleMapEntries` says of one name. */
  ghost predicate Entry(services: seq<string>, gathers: seq<Gather>, m: Families, name: string)
    requires |services| == |gathers|
  {
    && (name in m <==> exists i: nat :: LastToGather(gathers, i, name))
    && forall i: nat, f :: LastToGather(gathers, i, name) && Holds(gathers[i], f) && f.name == name ==>
         name in m && m[name] == MetricFamilyCache(services[i], f)
  }

  lemma EntryFromLast(services: seq<string>, gathers: seq<Gather>, m: Families, name: string)
    requires 0 < |services| == |gathers| && WellGathered(gathers[|gathers| - 1]) && HasName(gathers[|gathers| - 1], name)
    ensures Entry(services, gathers, Record(m, services[|services| - 1], gathers[|gathers| - 1]), name)
  {
    var n := |services| - 1;
    WriteAllEntries(m, services[n], gathers[n].families, name);
    assert LastToGather(gathers, n, name);
  }

  lemma EntryFromBefore(services: seq<string>, gathers: seq<Gather>, m: Families, name: string)
    requires 0 < |services| == |gathers| && WellGathered(gathers[|gathers| - 1]) && !HasName(gathers[|gathers| - 1], name)
    requires Entry(services[..|services| - 1], gathers[..|gathers| - 1], m, name)
    ensures Entry(services, gathers, Record(m, services[|services| - 1], gathers[|gathers| - 1]), name)
  {
    var n := |services| - 1;
    if gathers[n].Gathered? {
      WriteAllEntries(m, services[n], gathers[n].families, name);
    }
    forall i: nat
      ensures LastToGather(gathers, i, name) <==> LastToGather(gathers[..n], i, name)
    {
    }
  }

  /** Each name maps to the last service that gathered it, with that service's family. */
  lemma {:induction false} CycleMapEntries(services: seq<string>, gathers: seq<Gather>, name: string)
    requires |services| == |gathers| && forall i :: 0 <= i < |gathers| ==> WellGathered(gathers[i])
    ensures name in CycleMap(services, gathers) <==> exists i: nat :: LastToGather(gathers, i, name)
    ensures forall i: nat, f :: LastToGather(gathers, i, name) && Holds(gathers[i], f) && f.name == name ==>
              name in CycleMap(services, gathers) && CycleMap(services, gathers)[name] == MetricFamilyCache(services[i], f)
    decreases |services|
  {
    if services != [] {
      var n := |services| - 1;
      var m := CycleMap(services[..n], gathers[..n]);
      CycleMapEntries(services[..n], gathers[..n], name);
      if HasName(gathers[n], name) {
        EntryFromLast(services, gathers, m, name);
      } else {
        EntryFromBefore(services, gathers, m, name);
      }
      assert Entry(services, gathers, CycleMap(services, gathers), name);
    }
  }

  /** The names a read for these services writes out. */
  function Served(m: Families, services: seq<string>): set<string> {
    set name | name in m && m[name].service in services
  }

  /** A read serves a name exactly when the last service that gathered it is among those asked for. */
  lemma ServedIff(services: seq<string>, gathers: seq<Gather>, asked: seq<string>, name: string)
    requires |services| == |gathers| && forall i :: 0 <= i < |gathers| ==> WellGathered(gathers[i])
    ensures name in Served(CycleMap(services, gathers), asked)
       <==> exists i: nat :: LastToGather(gathers, i, name) && services[i] in asked
  {
    var m := CycleMap(services, gathers);
    CycleMapEntries(services, gathers, name);
    if i: nat :| LastToGather(gathers, i, name) {
      var f :| f in gathers[i].families && f.name == name;
      assert Holds(gathers[i], f);
      assert m[name].service == services[i];
      forall j: nat | LastToGather(gathers, j, name)
        ensures j == i
      {
      }
    }
  }

  /** Nothing that a requested service gathered is gathered again, under the same name, by a later service. */
  ghost predicate NotOverwritten(services: seq<string>, gathers: seq<Gather>, asked: seq<string>)
    requires |services| == |gathers|
  {
    forall i, j, name :: 0 <= i < j < |gathers| && services[i] in asked && HasName(gathers[i], name) ==> !HasName(gathers[j], name)
  }

  /** What one service adds to a direct read. */
  function Added(service: string, g: Gather, asked: seq<string>): seq<MetricFamily> {
    if service in asked && g.Gathered? then g.families else []
  }

  /** What the requested services gathered, one after the other: what a read without the cache would merge. */
  function Direct(services: seq<string>, gathers: seq<Gather>, asked: seq<string>): seq<MetricFamily>
    requires |services| == |gathers|
  {
    if services == [] then []
    else
      var n := |services| - 1;
      Direct(services[..n], gathers[..n], asked)
      + Added(services[n], gathers[n], asked)
  }

  /** The service at position `i` is requested and gathered `f`. */
  predicate GatheredFor(services: seq<string>, gathers: seq<Gather>, asked: seq<string>, f: MetricFamily, i: nat)
    requires |services| == |gathers|
  {
    i < |gathers| && services[i] in asked && Holds(gathers[i], f)
  }

  lemma {:induction false} DirectMembers(services: seq<string>, gathers: seq<Gather>, asked: seq<string>, f: MetricFamily)
    requires |services| == |gathers|
    ensures f in Direct(services, gathers, asked) <==> exists i: nat :: GatheredFor(services, gathers, asked, f, i)
    decreases |services|
  {
    if services != [] {
      var n := |services| - 1;
      DirectMembers(services[..n], gathers[..n], asked, f);
      forall i: nat | i < n
        ensures GatheredFor(services, gathers, asked, f, i) <==> GatheredFor(services[..n], gathers[..n], asked, f, i)
      {
      }
      if f in Direct(services[..n], gathers[..n], asked) {
        var i: nat :| GatheredFor(services[..n], gathers[..n], asked, f, i);
        assert GatheredFor(services, gathers, asked, f, i);
      } else if i: nat :| GatheredFor(services, gathers, asked, f, i) {
        assert i == n;
      } else {
        assert !GatheredFor(services, gathers, asked, f, n);
      }
    }
  }

  lemma HoldsHasName(g: Gather, f: MetricFamily)
    requires Holds(g, f)
    ensures HasName(g, f.name)
  {
  }

  lemma {:induction false} DirectDistinct(services: seq<string>, gathers: seq<Gather>, asked: seq<string>)
    requires |services| == |gathers| && NotOverwritten(services, gathers, asked)
    requires forall i :: 0 <= i < |gathers| ==> WellGathered(gathers[i])
    ensures Distinct(Direct(services, gathers, asked))
    decreases |services|
  {
    if services != [] {
      var n := |services| - 1;
      var before := Direct(services[..n], gathers[..n], asked);
      DirectDistinct(services[..n], gathers[..n], asked);
      if services[n] in asked && gathers[n].Gathered? {
        forall f | f in before
          ensures f !in gathers[n].families
        {
          if f in gathers[n].families {
            HoldsHasName(gathers[n], f);
          }
          DirectMembers(services[..n], gathers[..n], asked, f);
          var i: nat :| GatheredFor(services[..n], gathers[..n], asked, f, i);
          HoldsHasName(gathers[i], f);
        }
        DistinctConcat(before, gathers[n].families);
      }
    }
  }

  /** `out` writes each served family once, in some order of map iteration. */
  ghost predicate Writes(m: Families, asked: seq<string>, names: seq<string>, out: seq<MetricFamily>) {
    && Distinct(names)
    && (forall name :: name in names <==> name in Served(m, asked))
    && |out| == |names|
    && forall i :: 0 <= i < |names| ==> names[i] in m && out[i] == m[names[i]].mf
  }

  /**
   The samples that families hold, each with its family's name. Merging families of one name, as
   a registry does, leaves them as they are.
   */
  function Samples(fs: seq<MetricFamily>): seq<(string, Metric)> {
    if fs == [] then [] else Lines(fs[0]) + Samples(fs[1..])
  }

  function Lines(f: MetricFamily): seq<(string, Metric)> {
    seq(|f.metrics|, i requires 0 <= i < |f.metrics| => (f.name, f.metrics[i]))
  }

  lemma {:induction false} SamplesConcat(fs: seq<MetricFamily>, gs: seq<MetricFamily>)
    ensures Samples(fs + gs) == Samples(fs) + Samples(gs)
  {
    if fs == [] {
      assert fs + gs == gs;
    } else {
      assert (fs + gs)[0] == fs[0] && (fs + gs)[1..] == fs[1..] + gs;
      SamplesConcat(fs[1..], gs);
    }
  }

  lemma SamplesAround(fs: seq<MetricFamily>, k: nat)
    requires k < |fs|
    ensures multiset(Samples(fs)) == multiset(Lines(fs[k])) + multiset(Samples(fs[..k] + fs[k + 1..]))
  {
    assert fs == fs[..k] + fs[k..];
    SamplesConcat(fs[..k], fs[k..]);
    SamplesConcat(fs[..k], fs[k + 1..]);
    assert fs[k..][1..] == fs[k + 1..];
    MiddleFirst(Samples(fs[..k]), Lines(fs[k]), Samples(fs[k + 1..]));
  }

  lemma MiddleFirst<T>(before: seq<T>, middle: seq<T>, after: seq<T>)
    ensures multiset(before + (middle + after)) == multiset(middle) + multiset(before + after)
  {
  }

  /** Reordering families reorders their samples. */
  lemma {:induction false} SamplesReorder(fs: seq<MetricFamily>, gs: seq<MetricFamily>)
    requires multiset(fs) == multiset(gs)
    ensures multiset(Samples(fs)) == multiset(Samples(gs))
  {
    if fs == [] {
      assert |multiset(gs)| == 0;
    } else {
      assert fs[0] in multiset(fs);
      var k :| 0 <= k < |gs| && gs[k] == fs[0];
      var rest := gs[..k] + gs[k + 1..];
      Without(fs, gs, k);
      SamplesReorder(fs[1..], rest);
      SamplesAround(gs, k);
    }
  }

  lemma Without(fs: seq<MetricFamily>, gs: seq<MetricFamily>, k: nat)
    requires fs != [] && k < |gs| && gs[k] == fs[0] && multiset(fs) == multiset(gs)
    ensures multiset(fs[1..]) == multiset(gs[..k] + gs[k + 1..])
  {
    assert fs == [fs[0]] + fs[1..];
    assert gs == gs[..k] + ([gs[k]] + gs[k + 1..]);
    assert multiset(fs[1..]) == multiset(fs) - multiset{fs[0]};
    assert multiset(gs[..k] + gs[k + 1..]) == multiset(gs) - multiset{gs[k]};
  }

  lemma FamilySamples(fs: seq<MetricFamily>, f: MetricFamily, x: (string, Metric))
    requires f in fs
    ensures multiset(Samples(fs))[x] >= multiset(Lines(f))[x]
  {
    var k :| 0 <= k < |fs| && fs[k] == f;
    SamplesAround(fs, k);
  }

  lemma DirectSnoc(services: seq<string>, gathers: seq<Gather>, asked: seq<string>, n: nat, x: (string, Metric))
    requires |services| == |gathers| == n + 1
    ensures multiset(Samples(Direct(services, gathers, asked)))[x]
         == multiset(Samples(Direct(services[..n], gathers[..n], asked)))[x]
            + multiset(Samples(Added(services[n], gathers[n], asked)))[x]
  {
    SamplesConcat(Direct(services[..n], gathers[..n], asked), Added(services[n], gathers[n], asked));
  }

  lemma GatheredBefore(services: seq<string>, gathers: seq<Gather>, asked: seq<string>, f: MetricFamily, i: nat, n: nat)
    requires |services| == |gathers| && i < n <= |services| && GatheredFor(services, gathers, asked, f, i)
    ensures GatheredFor(services[..n], gathers[..n], asked, f, i)
    ensures f in Direct(services[..n], gathers[..n], asked)
  {
    assert GatheredFor(services[..n], gathers[..n], asked, f, i);
    DirectMembers(services[..n], gathers[..n], asked, f);
  }

  lemma LastAdds(services: seq<string>, gathers: seq<Gather>, asked: seq<string>,
                 f: MetricFamily, g: MetricFamily, n: nat, x: (string, Metric))
    requires |services| == |gathers| == n + 1
    requires f in Direct(services[..n], gathers[..n], asked) && GatheredFor(services, gathers, asked, g, n)
    ensures multiset(Samples(Direct(services, gathers, asked)))[x] >= multiset(Lines(f))[x] + multiset(Lines(g))[x]
  {
    DirectSnoc(services, gathers, asked, n, x);
    FamilySamples(Direct(services[..n], gathers[..n], asked), f, x);
    FamilySamples(Added(services[n], gathers[n], asked), g, x);
  }

  /** What a requested service gathered is all in the direct read, and adds to what an earlier one gathered. */
  lemma {:induction false} DirectTwice(services: seq<string>, gathers: seq<Gather>, asked: seq<string>,
                                       f: MetricFamily, i: nat, g: MetricFamily, j: nat, x: (string, Metric))
    requires |services| == |gathers| && i < j
    requires GatheredFor(services, gathers, asked, f, i) && GatheredFor(services, gathers, asked, g, j)
    ensures multiset(Samples(Direct(services, gathers, asked)))[x] >= multiset(Lines(f))[x] + multiset(Lines(g))[x]
    decreases |services|
  {
    var n := |services| - 1;
    GatheredBefore(services, gathers, asked, f, i, n);
    if j < n {
      GatheredBefore(services, gathers, asked, g, j, n);
      DirectTwice(services[..n], gathers[..n], asked, f, i, g, j, x);
      DirectSnoc(services, gathers, asked, n, x);
    } else {
      LastAdds(services, gathers, asked, f, g, n, x);
    }
  }

  lemma OtherName(f: MetricFamily, x: (string, Metric))
    requires f.name != x.0
    ensures multiset(Lines(f))[x] == 0
  {
    assert x !in Lines(f);
  }

  /** When every family is written under its own name, a sample can only come from the family of its name. */
  lemma {:induction false} SamplesOfName(names: seq<string>, out: seq<MetricFamily>, x: (string, Metric))
    requires Distinct(names) && |out| == |names| && forall k :: 0 <= k < |names| ==> out[k].name == names[k]
    ensures x.0 !in names ==> multiset(Samples(out))[x] == 0
    ensures forall k :: 0 <= k < |names| && names[k] == x.0 ==> multiset(Samples(out))[x] == multiset(Lines(out[k]))[x]
  {
    if out != [] {
      assert Distinct(names[1..]);
      SamplesOfName(names[1..], out[1..], x);
      assert multiset(Samples(out))[x] == multiset(Lines(out[0]))[x] + multiset(Samples(out[1..]))[x];
      if names[0] != x.0 {
        OtherName(out[0], x);
      }
      assert names == [names[0]] + names[1..];
      forall k | 0 <= k < |names| && names[k] == x.0
        ensures multiset(Samples(out))[x] == multiset(Lines(out[k]))[x]
      {
        if k > 0 {
          assert names[1..][k - 1] == x.0 && out[1..][k - 1] == out[k];
        }
      }
    }
  }

  lemma WrittenNames(services: seq<string>, gathers: seq<Gather>, asked: seq<string>, names: seq<string>, out: seq<MetricFamily>)
    requires |services| == |gathers| && forall i :: 0 <= i < |gathers| ==> WellGathered(gathers[i])
    requires Writes(CycleMap(services, gathers), asked, names, out)
    ensures forall k :: 0 <= k < |names| ==> out[k].name == names[k]
  {
    forall k | 0 <= k < |names|
      ensures out[k].name == names[k]
    {
      WrittenIsGathered(services, gathers, asked, names[k]);
    }
  }

  /** The last of several services to gather a name. */
  lemma {:induction false} LastGatherer(gathers: seq<Gather>, i: nat, name: string) returns (l: nat)
    requires i < |gathers| && HasName(gathers[i], name)
    ensures i <= l && LastToGather(gathers, l, name)
    decreases |gathers| - i
  {
    if j :| i < j < |gathers| && HasName(gathers[j], name) {
      l := LastGatherer(gathers, j, name);
    } else {
      l := i;
    }
  }

  lemma FamilyOf(g: Gather, name: string) returns (f: MetricFamily)
    requires WellGathered(g) && HasName(g, name)
    ensures Holds(g, f) && f.name == name && f.metrics != []
  {
    f :| f in g.families && f.name == name;
  }

  /** Under the name of a family that a later service gathers again, the cached read has only the last service's samples. */
  lemma LastSamples(services: seq<string>, gathers: seq<Gather>, asked: seq<string>,
                    names: seq<string>, out: seq<MetricFamily>, l: nat, last: MetricFamily, x: (string, Metric))
    requires |services| == |gathers| && forall k :: 0 <= k < |gathers| ==> WellGathered(gathers[k])
    requires Writes(CycleMap(services, gathers), asked, names, out)
    requires LastToGather(gathers, l, x.0) && Holds(gathers[l], last) && last.name == x.0
    ensures multiset(Samples(out))[x] == if services[l] in asked then multiset(Lines(last))[x] else 0
  {
    WrittenNames(services, gathers, asked, names, out);
    SamplesOfName(names, out, x);
    CycleMapEntries(services, gathers, x.0);
    if x.0 in names {
      var k :| 0 <= k < |names| && names[k] == x.0;
      assert out[k] == last;
    }
  }

  /** A requested service's samples of a family that a later service gathers again are lost. */
  lemma OverwrittenIsLost(services: seq<string>, gathers: seq<Gather>, asked: seq<string>,
                          names: seq<string>, out: seq<MetricFamily>, i: nat, j: nat, name: string) returns (x: (string, Metric))
    requires |services| == |gathers| && forall k :: 0 <= k < |gathers| ==> WellGathered(gathers[k])
    requires Writes(CycleMap(services, gathers), asked, names, out)
    requires i < j < |gathers| && services[i] in asked && HasName(gathers[i], name) && HasName(gathers[j], name)
    ensures x.0 == name && multiset(Samples(out))[x] < multiset(Samples(Direct(services, gathers, asked)))[x]
  {
    var l := LastGatherer(gathers, j, name);
    var mine := FamilyOf(gathers[i], name);
    var last := FamilyOf(gathers[l], name);
    x := (name, mine.metrics[0]);
    assert Lines(mine)[0] == x;
    assert GatheredFor(services, gathers, asked, mine, i);
    LastSamples(services, gathers, asked, names, out, l, last, x);
    if services[l] in asked {
      DirectTwice(services, gathers, asked, mine, i, last, l, x);
    } else {
      DirectMembers(services, gathers, asked, mine);
      FamilySamples(Direct(services, gathers, asked), mine, x);
    }
  }

  /**
   A cached read gives exactly the samples that the requested services gave when they were
   collected, nothing lost and nothing added, iff no later service gathered a family of the
   same name as one of theirs.
   */
  lemma CachedReadIsDirectIff(services: seq<string>, gathers: seq<Gather>, asked: seq<string>,
                              names: seq<string>, out: seq<MetricFamily>)
    requires |services| == |gathers| && forall i :: 0 <= i < |gathers| ==> WellGathered(gathers[i])
    requires Writes(CycleMap(services, gathers), asked, names, out)
    ensures multiset(Samples(out)) == multiset(Samples(Direct(services, gathers, asked)))
       <==> NotOverwritten(services, gathers, asked)
  {
    if NotOverwritten(services, gathers, asked) {
      NothingLost(services, gathers, asked, names, out);
      SamplesReorder(out, Direct(services, gathers, asked));
    } else {
      var i, j, name :| 0 <= i < j < |gathers| && services[i] in asked && HasName(gathers[i], name) && HasName(gathers[j], name);
      var x := OverwrittenIsLost(services, gathers, asked, names, out, i, j, name);
    }
  }

  /**
   The failing case. With collection times exported, every service that collects anything
   gathers a family of this one name, and a cached read misses the times of a requested service
   as soon as a later service has some.
   */
  lemma TimesAreLost(services: seq<string>, gathers: seq<Gather>, asked: seq<string>, names: seq<string>, out: seq<MetricFamily>,
                     i: nat, j: nat) returns (x: (string, Metric))
    requires |services| == |gathers| && forall k :: 0 <= k < |gathers| ==> WellGathered(gathers[k])
    requires Writes(CycleMap(services, gathers), asked, names, out)
    requires i < j < |gathers| && services[i] in asked
    requires HasName(gathers[i], Collection.COLLECT_SECONDS) && HasName(gathers[j], Collection.COLLECT_SECONDS)
    ensures x.0 == Collection.COLLECT_SECONDS
    ensures multiset(Samples(out))[x] < multiset(Samples(Direct(services, gathers, asked)))[x]
  {
    x := OverwrittenIsLost(services, gathers, asked, names, out, i, j, Collection.COLLECT_SECONDS);
  }

  lemma NothingLost(services: seq<string>, gathers: seq<Gather>, asked: seq<string>, names: seq<string>, out: seq<MetricFamily>)
    requires |services| == |gathers| && NotOverwritten(services, gathers, asked)
    requires forall i :: 0 <= i < |gathers| ==> WellGathered(gathers[i])
    requires Writes(CycleMap(services, gathers), asked, names, out)
    ensures multiset(out) == multiset(Direct(services, gathers, asked))
  {
    var direct := Direct(services, gathers, asked);
    WrittenNames(services, gathers, asked, names, out);
    forall k | 0 <= k < |names|
      ensures out[k] in direct
    {
      WrittenIsGathered(services, gathers, asked, names[k]);
      DirectMembers(services, gathers, asked, out[k]);
    }
    forall f | f in direct
      ensures f in out
    {
      GatheredIsServed(services, gathers, asked, f);
      var k :| 0 <= k < |names| && names[k] == f.name;
      assert out[k] == f;
    }
    assert Distinct(out);
    DirectDistinct(services, gathers, asked);
    SameMembersSameMultiset(out, direct);
  }

  lemma WrittenIsGathered(services: seq<string>, gathers: seq<Gather>, asked: seq<string>, name: string)
    requires |services| == |gathers| && forall i :: 0 <= i < |gathers| ==> WellGathered(gathers[i])
    requires name in Served(CycleMap(services, gathers), asked)
    ensures var f := CycleMap(services, gathers)[name].mf;
            f.name == name && exists i: nat :: GatheredFor(services, gathers, asked, f, i)
  {
    CycleMapEntries(services, gathers, name);
    var i: nat :| LastToGather(gathers, i, name);
    var f :| f in gathers[i].families && f.name == name;
    assert GatheredFor(services, gathers, asked, f, i);
  }

  lemma GatheredIsServed(services: seq<string>, gathers: seq<Gather>, asked: seq<string>, f: MetricFamily)
    requires |services| == |gathers| && NotOverwritten(services, gathers, asked)
    requires forall i :: 0 <= i < |gathers| ==> WellGathered(gathers[i])
    requires f in Direct(services, gathers, asked)
    ensures f.name in Served(CycleMap(services, gathers), asked) && CycleMap(services, gathers)[f.name].mf == f
  {
    DirectMembers(services, gathers, asked, f);
    var i: nat :| GatheredFor(services, gathers, asked, f, i);
    HoldsHasName(gathers[i], f);
    assert LastToGather(gathers, i, f.name);
    CycleMapEntries(services, gathers, f.name);
  }

  /**
   What a flush from `began` to `ended` may do: entries stay as they are or go; one that stays
   was within its TTL when the flush began, one that goes was past it when the flush ended.
   */
  ghost predicate Flushed<E>(before: map<string, E>, after: map<string, E>, timeOf: E -> int, began: int, ended: int, ttl: int) {
    && (forall k :: k in after ==> k in before && after[k] == before[k] && began <= timeOf(after[k]) + ttl)
    && forall k :: k in before && k !in after ==> timeOf(before[k]) + ttl < ended
  }
}
