/**
 The designate exporter of `exporters/designate.go`: its default metrics, what their one
 handler looks up, and which disabled metrics make `Collect` dereference nil.
 */
module Designate {
  import opened Collection
  import opened Wrappers
  import Zones

  const LIST_ZONES: Handler := 0

  const METRICS: seq<Metric> := [
    Metric("zones", Some(LIST_ZONES), false, ""),
    Metric("zone_status", None, false, ""),
    Metric("recordsets", None, false, ""),
    Metric("recordsets_status", None, false, "")]

  /** `ListZonesAndRecordsets` looks up all four, as `Zones.ZonesSafeIff` shows. */
  function Needs(h: Handler): set<string> { if h == LIST_ZONES then Zones.NAMES else {} }

  lemma DesignateKept(o: Options, name: string)
    ensures SomeKept(o, METRICS, name) <==> name in Zones.NAMES && !Disabled(o, name)
    ensures (exists m :: m in METRICS && Kept(o, m)) <==> exists n :: n in Zones.NAMES && !Disabled(o, n)
  {
    forall i | 0 <= i < |METRICS|
      ensures METRICS[i] in METRICS && METRICS[i].name in Zones.NAMES && (Kept(o, METRICS[i]) <==> !Disabled(o, METRICS[i].name))
    {
    }
    forall n | n in Zones.NAMES
      ensures exists i :: 0 <= i < |METRICS| && METRICS[i].name == n
    {
      assert METRICS[0].name == "zones" && METRICS[1].name == "zone_status";
      assert METRICS[2].name == "recordsets" && METRICS[3].name == "recordsets_status";
    }
  }

  lemma OneHandler(o: Options, i: nat)
    ensures FirstKept(o, METRICS, i) && METRICS[i].fn.Some? ==> i == 0
    ensures FirstKept(o, METRICS, 0) <==> !Disabled(o, "zones")
    ensures METRICS[0].fn == Some(LIST_ZONES) && METRICS[0].name == "zones"
  {
    assert METRICS[0] == Metric("zones", Some(LIST_ZONES), false, "");
  }

  lemma NeededKept(o: Options)
    ensures KeepsNeeded(o, METRICS, Needs) <==> (!Disabled(o, "zones") ==> forall n :: n in Zones.NAMES ==> !Disabled(o, n))
  {
    forall x
      ensures x in Zones.NAMES ==> (Reserved(x) || SomeKept(o, METRICS, x) <==> !Disabled(o, x))
    {
      DesignateKept(o, x);
    }
    OneHandler(o, 0);
    if !Disabled(o, "zones") && KeepsNeeded(o, METRICS, Needs) {
      forall n | n in Zones.NAMES
        ensures !Disabled(o, n)
      {
        assert n in Needs(METRICS[0].fn.value);
      }
    }
    forall i: nat, x | FirstKept(o, METRICS, i) && METRICS[i].fn.Some? && x in Needs(METRICS[i].fn.value)
      ensures !Disabled(o, "zones") && x in Zones.NAMES
    {
      OneHandler(o, i);
    }
  }

  /** Collecting designate is safe exactly when some metric is kept and, if "zones" is, the other three are too. */
  lemma DesignateSafeIff(o: Options)
    ensures Safe(Registered(o, None, METRICS), Needs)
       <==> (exists n :: n in Zones.NAMES && !Disabled(o, n))
            && (!Disabled(o, "zones") ==> forall n :: n in Zones.NAMES ==> !Disabled(o, n))
  {
    CollectSafeIff(o, METRICS, Needs);
    DesignateKept(o, "");
    NeededKept(o);
  }

  /** The table that `Collect` then runs `ListZonesAndRecordsets` with is one that is safe for it. */
  lemma SafeMeansZonesSafe(o: Options)
    requires !Disabled(o, "zones")
    ensures var t := Registered(o, None, METRICS);
            t.Some? && (Safe(t, Needs) <==> Zones.NAMES <= t.value.Keys)
  {
    DesignateSafeIff(o);
    DesignateTable(o, "zones");
    forall n | n in Zones.NAMES
      ensures n in Entries(Registered(o, None, METRICS)) <==> !Disabled(o, n)
    {
      DesignateTable(o, n);
    }
  }

  lemma DesignateTable(o: Options, name: string)
    requires name in Zones.NAMES && !Disabled(o, "zones")
    ensures Registered(o, None, METRICS).Some?
    ensures name in Entries(Registered(o, None, METRICS)) <==> !Disabled(o, name)
  {
    RegisteredNames(o, METRICS);
    DesignateKept(o, name);
    assert "zones" in Zones.NAMES;
  }

  /** The failing case: with one status metric disabled some metrics survive, and `Collect` can still dereference nil. */
  lemma DisabledRecordsets()
    ensures var o := Options("designate", ["designate-recordsets"], false, false);
            (exists m :: m in METRICS && Kept(o, m)) && !Safe(Registered(o, None, METRICS), Needs)
  {
    var o := Options("designate", ["designate-recordsets"], false, false);
    assert "designate" + "-" + "recordsets" == o.disabledMetrics[0];
    assert |"designate" + "-" + "zones"| != |o.disabledMetrics[0]|;
    assert Disabled(o, "recordsets") && !Disabled(o, "zones");
    assert Kept(o, METRICS[0]) && METRICS[0] in METRICS;
    DesignateSafeIff(o);
  }
}
