/**
 The in-memory cache of `cache/cache.go` and the cycle builder and reader of
 `cache/utils.go`, over the heap: a `CloudCache` is a struct that is copied, the family map
 inside it is an object that copies share.
 */
module CacheStore {
  import opened CacheCycles
  import opened Sequences
  import opened Wrappers

  /** `time.Now`: every reading is at or after the one before. */
  class Clock {
    var now: int

    constructor (start: int)
      ensures now == start
    {
      now := start;
    }

    method Now() returns (t: int)
      modifies this
      ensures old(now) <= now == t
    {
      t :| now <= t;
      now := t;
    }
  }

  /** The Go map behind `MetricFamilyCaches`. */
  class FamilyMap {
    var entries: Families

    constructor ()
      ensures entries == map[]
    {
      entries := map[];
    }
  }

  /** `families` is null only in the zero value that a miss returns. */
  datatype CloudCache = CloudCache(time: int, families: FamilyMap?)

  method NewCloudCache(clock: Clock) returns (cloud: CloudCache)
    modifies clock
    ensures old(clock.now) <= clock.now == cloud.time
    ensures cloud.families != null && fresh(cloud.families) && cloud.families.entries == map[]
  {
    var families := new FamilyMap();
    var now := clock.Now();
    cloud := CloudCache(now, families);
  }

  method SetMetricFamilyCache(c: CloudCache, mfName: string, data: MetricFamilyCache)
    requires c.families != null
    modifies c.families
    ensures c.families.entries == old(c.families.entries)[mfName := data]
  {
    c.families.entries := c.families.entries[mfName := data];
  }

  /** Each method below holds the mutex throughout. A nil map of clouds reads as an empty one. */
  class InMemoryCache {
    var CloudCaches: map<string, CloudCache>

    constructor ()
      ensures CloudCaches == map[]
    {
      CloudCaches := map[];
    }

    /** Gives an unknown cloud an empty cache. */
    method Init(cloud: Option<string>, clock: Clock)
      modifies this, clock
      ensures old(clock.now) <= clock.now
      ensures forall k :: k in old(CloudCaches) ==> k in CloudCaches && CloudCaches[k] == old(CloudCaches)[k]
      ensures CloudCaches.Keys == old(CloudCaches.Keys) + if cloud.Some? then {cloud.value} else {}
      ensures forall k :: k in CloudCaches && k !in old(CloudCaches) ==>
                CloudCaches[k].families != null && fresh(CloudCaches[k].families) && CloudCaches[k].families.entries == map[]
    {
      if cloud.Some? {
        if cloud.value !in CloudCaches {
          var cloudCache := NewCloudCache(clock);
          CloudCaches := CloudCaches[cloud.value := cloudCache];
        }
      }
    }

    /** Returns a copy of the struct, which shares the family map; the age of the entry plays no part. */
    method GetCloudCache(cloud: string) returns (data: CloudCache, found: bool)
      ensures found == (cloud in CloudCaches)
      ensures data == if found then CloudCaches[cloud] else CloudCache(0, null)
    {
      if cloud in CloudCaches {
        return CloudCaches[cloud], true;
      }
      return CloudCache(0, null), false;
    }

    /** Publishes a cloud's data under the current time, replacing what was there. */
    method SetCloudCache(cloud: string, data: CloudCache, clock: Clock)
      modifies this, clock
      ensures old(clock.now) <= clock.now
      ensures CloudCaches == old(CloudCaches)[cloud := CloudCache(clock.now, data.families)]
    {
      Init(Some(cloud), clock);
      var now := clock.Now();
      CloudCaches := CloudCaches[cloud := data.(time := now)];
    }

    /**
     The clock is read again for every entry, so an entry that stays was within its TTL when
     the flush began, and an entry that goes was past it when the flush ended.
     */
    method FlushExpiredCloudCaches(ttl: int, clock: Clock)
      modifies this, clock
      ensures old(clock.now) <= clock.now
      ensures Flushed(old(CloudCaches), CloudCaches, (e: CloudCache) => e.time, old(clock.now), clock.now, ttl)
    {
      var pending := CloudCaches.Keys;
      while pending != {}
        invariant pending <= CloudCaches.Keys
        invariant old(clock.now) <= clock.now
        invariant forall k :: k in CloudCaches ==> k in old(CloudCaches) && CloudCaches[k] == old(CloudCaches)[k]
        invariant forall k :: k in CloudCaches && k !in pending ==> old(clock.now) <= CloudCaches[k].time + ttl
        invariant forall k :: k in old(CloudCaches) && k !in CloudCaches ==> old(CloudCaches)[k].time + ttl < clock.now
        decreases pending
      {
        var key :| key in pending;
        var expirationTime := CloudCaches[key].time + ttl;
        var now := clock.Now();
        if now > expirationTime {
          CloudCaches := CloudCaches - {key};
        }
        pending := pending - {key};
      }
    }
  }

  /** Clouds and services as the gathers of one collection see them. */
  type Source = (string, string) -> Gather

  function Gathers(services: seq<string>, cloud: string, gather: Source): (gs: seq<Gather>)
    ensures |gs| == |services| && forall i :: 0 <= i < |gs| ==> gs[i] == gather(cloud, services[i])
  {
    seq(|services|, i requires 0 <= i < |services| => gather(cloud, services[i]))
  }

  /** The complete output of a cycle for one cloud. */
  function CycleOutput(services: seq<string>, cloud: string, gather: Source): Families {
    CycleMap(services, Gathers(services, cloud, gather))
  }

  /** Position `i` holds the last service whose gather for the cloud has a family of this name. */
  predicate LastFor(services: seq<string>, cloud: string, gather: Source, i: nat, name: string) {
    && i < |services|
    && HasName(gather(cloud, services[i]), name)
    && forall j :: i < j < |services| ==> !HasName(gather(cloud, services[j]), name)
  }

  /** Under this name the map has what the last service to gather it for the cloud gave, or nothing if none did. */
  ghost predicate HoldsName(m: Families, services: seq<string>, cloud: string, gather: Source, name: string) {
    && (name in m <==> exists i: nat :: LastFor(services, cloud, gather, i, name))
    && forall i: nat, f :: LastFor(services, cloud, gather, i, name) && Holds(gather(cloud, services[i]), f) && f.name == name ==>
         name in m && m[name] == MetricFamilyCache(services[i], f)
  }

  ghost predicate HoldsCycle(m: Families, services: seq<string>, cloud: string, gather: Source) {
    forall name :: HoldsName(m, services, cloud, gather, name)
  }

  lemma OutputHoldsCycle(services: seq<string>, cloud: string, gather: Source)
    requires forall s :: WellGathered(gather(cloud, s))
    ensures HoldsCycle(CycleOutput(services, cloud, gather), services, cloud, gather)
  {
    var gs := Gathers(services, cloud, gather);
    forall name
      ensures HoldsName(CycleOutput(services, cloud, gather), services, cloud, gather, name)
    {
      CycleMapEntries(services, gs, name);
      forall i: nat
        ensures LastFor(services, cloud, gather, i, name) <==> LastToGather(gs, i, name)
      {
      }
    }
  }

  lemma GathersPrefix(services: seq<string>, cloud: string, gather: Source, k: nat)
    requires k <= |services|
    ensures Gathers(services[..k], cloud, gather) == Gathers(services, cloud, gather)[..k]
  {
  }

  lemma CycleStep(services: seq<string>, cloud: string, gather: Source, k: nat)
    requires k < |services|
    ensures CycleOutput(services[..k + 1], cloud, gather)
         == Record(CycleOutput(services[..k], cloud, gather), services[k], gather(cloud, services[k]))
  {
    assert services[..k + 1][..k] == services[..k];
    GathersPrefix(services[..k + 1], cloud, gather, k);
  }

  method RecordGather(cloudCache: CloudCache, service: string, metricFamilies: seq<MetricFamily>)
    requires cloudCache.families != null
    modifies cloudCache.families
    ensures cloudCache.families.entries == WriteAll(old(cloudCache.families.entries), service, metricFamilies)
  {
    for i := 0 to |metricFamilies|
      invariant cloudCache.families.entries == WriteAll(old(cloudCache.families.entries), service, metricFamilies[..i])
    {
      var mf := metricFamilies[i];
      assert metricFamilies[..i + 1][..i] == metricFamilies[..i];
      SetMetricFamilyCache(cloudCache, mf.name, MetricFamilyCache(service, mf));
    }
    assert metricFamilies[..|metricFamilies|] == metricFamilies;
  }

  /** Builds the data of one cloud in a map that nobody else can reach. */
  method BuildCloud(services: seq<string>, cloud: string, gather: Source, clock: Clock) returns (cloudCache: CloudCache)
    modifies clock
    ensures old(clock.now) <= clock.now
    ensures cloudCache.families != null && fresh(cloudCache.families)
    ensures cloudCache.families.entries == CycleOutput(services, cloud, gather)
    ensures (forall s :: WellGathered(gather(cloud, s))) ==> HoldsCycle(cloudCache.families.entries, services, cloud, gather)
  {
    if forall s :: WellGathered(gather(cloud, s)) {
      OutputHoldsCycle(services, cloud, gather);
    }
    cloudCache := NewCloudCache(clock);
    for i := 0 to |services|
      invariant cloudCache.families != null && fresh(cloudCache.families)
      invariant old(clock.now) <= clock.now
      invariant cloudCache.families.entries == CycleOutput(services[..i], cloud, gather)
    {
      CycleStep(services, cloud, gather, i);
      match gather(cloud, services[i]) {
        case EnableFailed =>
        case GatherFailed =>
        case Gathered(families) => RecordGather(cloudCache, services[i], families);
      }
    }
    assert services[..|services|] == services;
  }

  /**
   One collection. `clouds` is `None` when the cloud list cannot be loaded. Every listed
   cloud ends up with a complete output of this collection in a map of its own; the other
   clouds and, since only `cache` and `clock` may change, every map published before stay
   as they were.
   */
  method CollectCache(cache: InMemoryCache, clouds: Option<seq<string>>, services: seq<string>, gather: Source, clock: Clock)
    returns (ok: bool)
    modifies cache, clock
    ensures ok == clouds.Some? && old(clock.now) <= clock.now
    ensures !ok ==> cache.CloudCaches == old(cache.CloudCaches)
    ensures ok ==> forall c :: c in clouds.value ==>
              c in cache.CloudCaches
              && var e := cache.CloudCaches[c];
                 e.families != null && fresh(e.families)
                 && e.families.entries == CycleOutput(services, c, gather)
                 && ((forall s :: WellGathered(gather(c, s))) ==> HoldsCycle(e.families.entries, services, c, gather))
                 && old(clock.now) <= e.time <= clock.now
    ensures ok ==> forall c :: c !in clouds.value ==>
              (c in cache.CloudCaches <==> c in old(cache.CloudCaches))
              && (c in cache.CloudCaches ==> cache.CloudCaches[c] == old(cache.CloudCaches)[c])
  {
    if clouds.None? {
      return false;
    }
    for i := 0 to |clouds.value|
      invariant old(clock.now) <= clock.now
      invariant forall c :: c in clouds.value[..i] ==>
        c in cache.CloudCaches
        && var e := cache.CloudCaches[c];
           e.families != null && fresh(e.families)
           && e.families.entries == CycleOutput(services, c, gather)
           && old(clock.now) <= e.time <= clock.now
      invariant forall c :: c !in clouds.value[..i] ==>
        (c in cache.CloudCaches <==> c in old(cache.CloudCaches))
        && (c in cache.CloudCaches ==> cache.CloudCaches[c] == old(cache.CloudCaches)[c])
    {
      var cloud := clouds.value[i];
      assert clouds.value[..i + 1] == clouds.value[..i] + [cloud];
      var cloudCache := BuildCloud(services, cloud, gather, clock);
      cache.SetCloudCache(cloud, cloudCache, clock);
    }
    assert clouds.value[..|clouds.value|] == clouds.value;
    forall c | forall s :: WellGathered(gather(c, s))
      ensures HoldsCycle(CycleOutput(services, c, gather), services, c, gather)
    {
      OutputHoldsCycle(services, c, gather);
    }
    return true;
  }

  /**
   Writes the families of the requested services, in any order of map iteration, and stops
   at the first one that cannot be encoded; a nil map has none. `names` tells which family each output is.
   */
  method BufferFromCache(cache: InMemoryCache, cloud: string, services: seq<string>, encodes: MetricFamily -> bool)
    returns (buf: seq<MetricFamily>, ok: bool, ghost names: seq<string>)
    ensures cloud !in cache.CloudCaches ==> ok && buf == []
    ensures cloud in cache.CloudCaches ==>
              var families := cache.CloudCaches[cloud].families;
              var m := if families == null then map[] else families.entries;
              && (ok ==> Writes(m, services, names, buf) && forall f :: f in buf ==> encodes(f))
              && (!ok ==> exists name :: name in Served(m, services) && name !in names && !encodes(m[name].mf))
              && forall i :: 0 <= i < |buf| ==> i < |names| && names[i] in Served(m, services) && buf[i] == m[names[i]].mf
  {
    buf, names := [], [];
    var cloudCache, known := cache.GetCloudCache(cloud);
    if !known {
      return buf, true, names;
    }
    var m := if cloudCache.families == null then map[] else cloudCache.families.entries;
    var pending := m.Keys;
    while pending != {}
      invariant pending <= m.Keys && |buf| == |names| && Distinct(names)
      invariant forall name :: name in names <==> name in Served(m, services) && name !in pending
      invariant forall i :: 0 <= i < |names| ==> names[i] in m && buf[i] == m[names[i]].mf && encodes(buf[i])
      decreases pending
    {
      var name :| name in pending;
      pending := pending - {name};
      if m[name].service !in services {
        continue;
      }
      if !encodes(m[name].mf) {
        assert name in Served(m, services) && name !in names;
        return buf, false, names;
      }
      buf, names := buf + [m[name].mf], names + [name];
    }
    return buf, true, names;
  }
}
