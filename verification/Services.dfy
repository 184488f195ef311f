/**
 Which exporters run: the tri-state resolution at start-up and the per-request selection
 of `main.go`.
 */
module Services {
  import opened Sequences
  import opened Slices
  import opened Strings
  import opened Wrappers

  const SUPPORTED: seq<string> := [
    "network", "compute", "image", "volume", "identity", "object-store", "load-balancer", "container-infra",
    "dns", "baremetal", "gnocchi", "database", "orchestration", "placement", "sharev2"]

  /** The keys of the service catalog table. */
  const CATALOG: set<string> := {
    "network", "compute", "image", "volume", "identity", "object-store", "load-balancer", "container-infra",
    "dns", "baremetal", "gnocchi", "database", "orchestration", "placement", "sharev2"}

  predicate IsExporterNameValid(service: string) { service in CATALOG }

  lemma SupportedIsCatalog(service: string)
    ensures IsExporterNameValid(service) <==> service in SUPPORTED
  {
  }

  lemma SupportedDistinct()
    ensures Distinct(SUPPORTED)
  {
  }

  datatype ServiceState = Auto | Enabled | Disabled

  type States = map<string, ServiceState>

  /** Reading a missing key of the Go map gives its zero value, the automatic state. */
  function Get(m: States, service: string): ServiceState {
    if service in m then m[service] else Auto
  }

  /** The states map, shared by the functions that rewrite it. */
  class ServiceStates {
    var m: States

    constructor (m: States)
      ensures this.m == m
    {
      this.m := m;
    }
  }

  method SetAutoServicesState(states: ServiceStates, state: ServiceState)
    modifies states
    ensures forall k :: Get(states.m, k) == if k in SUPPORTED && Get(old(states.m), k) == Auto then state else Get(old(states.m), k)
  {
    for i := 0 to |SUPPORTED|
      invariant forall k ::
        Get(states.m, k) == if k in SUPPORTED[..i] && Get(old(states.m), k) == Auto then state else Get(old(states.m), k)
    {
      var service := SUPPORTED[i];
      assert SUPPORTED[..i + 1] == SUPPORTED[..i] + [service];
      if Get(states.m, service) == Auto {
        states.m := states.m[service := state];
      }
    }
    assert SUPPORTED[..|SUPPORTED|] == SUPPORTED;
  }

  /** Services that detection found become enabled, other supported ones disabled, unless they were explicit. */
  method ApplyAutodetection(states: ServiceStates, detectedServices: seq<string>)
    modifies states
    ensures forall k ::
              Get(states.m, k) == if Get(old(states.m), k) != Auto then Get(old(states.m), k)
                                  else if k in detectedServices then Enabled
                                  else if k in SUPPORTED then Disabled
                                  else Auto
  {
    for i := 0 to |detectedServices|
      invariant forall k ::
        Get(states.m, k) == if k in detectedServices[..i] && Get(old(states.m), k) == Auto then Enabled else Get(old(states.m), k)
    {
      var service := detectedServices[i];
      assert detectedServices[..i + 1] == detectedServices[..i] + [service];
      if Get(states.m, service) == Auto {
        states.m := states.m[service := Enabled];
      }
    }
    assert detectedServices[..|detectedServices|] == detectedServices;
    SetAutoServicesState(states, Disabled);
  }

  /** The supported services that are enabled, in supported order. */
  function EnabledIn(m: States, supported: seq<string>): seq<string> {
    if supported == [] then []
    else
      EnabledIn(m, supported[..|supported| - 1])
      + if Get(m, supported[|supported| - 1]) == Enabled then [supported[|supported| - 1]] else []
  }

  /** Where the states map says enabled. */
  function EnabledPositions(m: States, supported: seq<string>): set<nat> {
    set i | 0 <= i < |supported| && supported[i] in m && m[supported[i]] == Enabled
  }

  lemma {:induction false} EnabledSelects(m: States, supported: seq<string>)
    ensures Selects(EnabledIn(m, supported), supported, EnabledPositions(m, supported))
    decreases |supported|
  {
    if supported == [] {
      SelectsNone(EnabledIn(m, supported), supported, EnabledPositions(m, supported));
    } else {
      var init, last := supported[..|supported| - 1], supported[|supported| - 1];
      EnabledSelects(m, init);
      assert supported == init + [last];
      assert EnabledPositions(m, supported)
          == EnabledPositions(m, init) + if last in m && m[last] == Enabled then {|init|} else {};
      SelectsSnoc(EnabledIn(m, init), init, EnabledPositions(m, init), last,
                  EnabledIn(m, supported), EnabledPositions(m, supported));
    }
  }

  method GetEnabledServicesFromStates(states: ServiceStates) returns (enabledServices: seq<string>)
    ensures enabledServices == EnabledIn(states.m, SUPPORTED)
    ensures Selects(enabledServices, SUPPORTED, EnabledPositions(states.m, SUPPORTED))
  {
    enabledServices := [];
    for i := 0 to |SUPPORTED|
      invariant enabledServices == EnabledIn(states.m, SUPPORTED[..i])
    {
      assert SUPPORTED[..i + 1][..i] == SUPPORTED[..i];
      if Get(states.m, SUPPORTED[i]) == Enabled {
        enabledServices := enabledServices + [SUPPORTED[i]];
      }
    }
    assert SUPPORTED[..|SUPPORTED|] == SUPPORTED;
    EnabledSelects(states.m, SUPPORTED);
  }

  datatype Resolution = Services(services: seq<string>) | NoServices | DetectionFailed

  /** The table the flags stand for: explicit choices first, otherwise all services in strict mode and the detected ones else. */
  predicate Chosen(m: States, strict: bool, detected: seq<string>, k: string) {
    Get(m, k) == Enabled || (Get(m, k) == Auto && (strict || k in detected))
  }

  /** `detected` is what asking the service catalog answers, `None` an error; strict modes do not ask. */
  method ResolveServiceConfig(isMultiCloud: bool, disableAutodetect: bool, states: ServiceStates, detected: Option<seq<string>>)
    returns (r: Resolution)
    modifies states
    ensures var strict := isMultiCloud || disableAutodetect;
            var answer := if detected.Some? then detected.value else [];
            if !strict && detected.None? then r == DetectionFailed && states.m == old(states.m)
            else
              && (forall k :: Get(old(states.m), k) != Auto ==> Get(states.m, k) == Get(old(states.m), k))
              && (forall k :: k in SUPPORTED ==> Get(states.m, k) != Auto)
              && (forall k :: k in SUPPORTED ==> (Get(states.m, k) == Enabled <==> Chosen(old(states.m), strict, answer, k)))
              && r == if EnabledIn(states.m, SUPPORTED) == [] then NoServices else Services(EnabledIn(states.m, SUPPORTED))
    ensures var strict := isMultiCloud || disableAutodetect;
            r != DetectionFailed ==>
              && (forall k :: k in SUPPORTED ==>
                    && k in states.m
                    && states.m[k] == if k in old(states.m) && old(states.m)[k] != Auto then old(states.m)[k]
                                      else if strict || k in detected.value then Enabled else Disabled)
              && (r.NoServices? <==> EnabledPositions(states.m, SUPPORTED) == {})
              && (r.Services? ==> Selects(r.services, SUPPORTED, EnabledPositions(states.m, SUPPORTED)))
  {
    if isMultiCloud || disableAutodetect {
      SetAutoServicesState(states, Enabled);
    } else if detected.None? {
      return DetectionFailed;
    } else {
      ApplyAutodetection(states, detected.value);
    }
    var enabledServices := GetEnabledServicesFromStates(states);
    SelectsSome(enabledServices, SUPPORTED, EnabledPositions(states.m, SUPPORTED));
    if |enabledServices| == 0 {
      return NoServices;
    }
    return Services(enabledServices);
  }

  lemma {:induction false} EnabledMembers(m: States, supported: seq<string>, k: string)
    ensures k in EnabledIn(m, supported) <==> k in supported && Get(m, k) == Enabled
    decreases |supported|
  {
    if supported != [] {
      EnabledMembers(m, supported[..|supported| - 1], k);
      assert supported == supported[..|supported| - 1] + [supported[|supported| - 1]];
    }
  }

  lemma {:induction false} EnabledInOrder(m: States, supported: seq<string>, i: nat, j: nat)
    requires i < j < |EnabledIn(m, supported)| && Distinct(supported)
    ensures var l := EnabledIn(m, supported);
            l[i] in supported && l[j] in supported && First(supported, l[i]) < First(supported, l[j])
    decreases |supported|
  {
    var init, last, n := supported[..|supported| - 1], supported[|supported| - 1], |supported| - 1;
    var l := EnabledIn(m, supported);
    EnabledMembers(m, supported, l[i]);
    EnabledMembers(m, supported, l[j]);
    assert l[i] in EnabledIn(m, init);
    EnabledMembers(m, init, l[i]);
    FirstUnique(supported, l[i], First(init, l[i])) by {
      assert supported[..First(init, l[i])] == init[..First(init, l[i])];
    }
    if j < |EnabledIn(m, init)| {
      EnabledInOrder(m, init, i, j);
      EnabledMembers(m, init, l[j]);
      FirstUnique(supported, l[j], First(init, l[j])) by {
        assert supported[..First(init, l[j])] == init[..First(init, l[j])];
      }
    } else {
      FirstUnique(supported, last, n) by {
        assert last !in supported[..n];
      }
    }
  }

  /** The enabled list follows the supported order, so no service is in it twice. */
  lemma EnabledOnceInOrder(m: States, i: nat, j: nat)
    requires i < j < |EnabledIn(m, SUPPORTED)|
    ensures var l := EnabledIn(m, SUPPORTED);
            l[i] != l[j] && l[i] in SUPPORTED && l[j] in SUPPORTED && First(SUPPORTED, l[i]) < First(SUPPORTED, l[j])
  {
    SupportedDistinct();
    EnabledInOrder(m, SUPPORTED, i, j);
  }

  /** After resolution the list is empty, and start-up fails, iff the table chooses no supported service. */
  lemma ResolvedEmptyIff(before: States, after: States, strict: bool, detected: seq<string>)
    requires forall k :: k in SUPPORTED ==> (Get(after, k) == Enabled <==> Chosen(before, strict, detected, k))
    ensures EnabledIn(after, SUPPORTED) == [] <==> forall k :: k in SUPPORTED ==> !Chosen(before, strict, detected, k)
  {
    forall k
      ensures k in EnabledIn(after, SUPPORTED) <==> k in SUPPORTED && Chosen(before, strict, detected, k)
    {
      EnabledMembers(after, SUPPORTED, k);
    }
    var l := EnabledIn(after, SUPPORTED);
    assert l != [] ==> l[0] in l;
  }

  /** Detecting more services never disables one. */
  lemma DetectionMonotone(before: States, few: seq<string>, many: seq<string>, after: States, after': States, k: string)
    requires forall s :: s in few ==> s in many
    requires forall s :: s in SUPPORTED ==> (Get(after, s) == Enabled <==> Chosen(before, false, few, s))
    requires forall s :: s in SUPPORTED ==> (Get(after', s) == Enabled <==> Chosen(before, false, many, s))
    ensures k in EnabledIn(after, SUPPORTED) ==> k in EnabledIn(after', SUPPORTED)
  {
    EnabledMembers(after, SUPPORTED, k);
    EnabledMembers(after', SUPPORTED, k);
  }

  /** `unicode.IsSpace`. */
  predicate IsSpace(c: char) {
    || '\t' <= c <= '\r' || c == ' ' || c == '\U{85}' || c == '\U{A0}' || c == '\U{1680}' || '\U{2000}' <= c <= '\U{200A}'
    || c == '\U{2028}' || c == '\U{2029}' || c == '\U{202F}' || c == '\U{205F}' || c == '\U{3000}'
  }

  function TrimLeft(s: string): string {
    if s != "" && IsSpace(s[0]) then TrimLeft(s[1..]) else s
  }

  function TrimRight(s: string): string {
    if s != "" && IsSpace(s[|s| - 1]) then TrimRight(s[..|s| - 1]) else s
  }

  function TrimSpace(s: string): string { TrimRight(TrimLeft(s)) }

  function Trimmed(pieces: seq<string>): seq<string> {
    if pieces == [] then []
    else
      Trimmed(pieces[..|pieces| - 1])
      + if TrimSpace(pieces[|pieces| - 1]) == "" then [] else [TrimSpace(pieces[|pieces| - 1])]
  }

  /** The names a comma-separated list holds, trimmed, without the empty ones. */
  function Names(raw: string): seq<string> {
    if raw == "" then [] else Trimmed(Split(raw, ','))
  }

  /** The pieces between commas, trimmed. */
  function Pieces(raw: string): (ps: seq<string>)
    ensures |ps| == |Split(raw, ',')| && forall i :: 0 <= i < |ps| ==> ps[i] == TrimSpace(Split(raw, ',')[i])
  {
    var split := Split(raw, ',');
    seq(|split|, i requires 0 <= i < |split| => TrimSpace(split[i]))
  }

  function NotEmpty(ps: seq<string>): set<nat> { set i | 0 <= i < |ps| && ps[i] != "" }

  /** A list names a service when the service is one of its pieces, trimmed. */
  predicate Listed(raw: string, service: string) { service != "" && service in Pieces(raw) }

  method ParseServiceList(raw: string) returns (services: seq<string>)
    ensures services == Names(raw)
    ensures Selects(services, Pieces(raw), NotEmpty(Pieces(raw)))
  {
    NamesSelect(raw);
    services := [];
    if raw == "" {
      return;
    }
    var pieces := Split(raw, ',');
    for i := 0 to |pieces|
      invariant services == Trimmed(pieces[..i])
    {
      assert pieces[..i + 1][..i] == pieces[..i];
      var service := TrimSpace(pieces[i]);
      if service == "" {
        continue;
      }
      services := services + [service];
    }
    assert pieces[..|pieces|] == pieces;
  }

  lemma TrimmedSnoc(split: seq<string>)
    requires split != []
    ensures var before, last := Trimmed(split[..|split| - 1]), TrimSpace(split[|split| - 1]);
            Trimmed(split) == if last == "" then before else before + [last]
  {
  }

  lemma NotEmptyMore(names: seq<string>, pieces: seq<string>, last: string, names': seq<string>, pieces': seq<string>)
    requires Selects(names, pieces, NotEmpty(pieces)) && pieces' == pieces + [last]
    requires names' == if last == "" then names else names + [last]
    ensures Selects(names', pieces', NotEmpty(pieces'))
  {
    assert NotEmpty(pieces') == NotEmpty(pieces) + if last == "" then {} else {|pieces|};
    SelectsSnoc(names, pieces, NotEmpty(pieces), last, names', NotEmpty(pieces'));
  }

  lemma {:induction false} TrimmedSelects(split: seq<string>, pieces: seq<string>)
    requires |pieces| == |split| && forall i :: 0 <= i < |pieces| ==> pieces[i] == TrimSpace(split[i])
    ensures Selects(Trimmed(split), pieces, NotEmpty(pieces))
    decreases |split|
  {
    if split == [] {
      SelectsNone(Trimmed(split), pieces, NotEmpty(pieces));
    } else {
      var init, last := pieces[..|pieces| - 1], pieces[|pieces| - 1];
      TrimmedSelects(split[..|split| - 1], init);
      TrimmedSnoc(split);
      NotEmptyMore(Trimmed(split[..|split| - 1]), init, last, Trimmed(split), pieces);
    }
  }

  /** The items of a list are its pieces in order, empty ones left out. */
  lemma NamesSelect(raw: string)
    ensures Selects(Names(raw), Pieces(raw), NotEmpty(Pieces(raw)))
    ensures forall s :: s in Names(raw) <==> Listed(raw, s)
  {
    if raw == "" {
      assert Split(raw, ',') == [""] && TrimSpace("") == "";
      assert Pieces(raw) == [""] && NotEmpty(Pieces(raw)) == {};
      SelectsNone(Names(raw), Pieces(raw), NotEmpty(Pieces(raw)));
    } else {
      TrimmedSelects(Split(raw, ','), Pieces(raw));
    }
    forall s
      ensures s in Names(raw) <==> Listed(raw, s)
    {
      SelectedMembers(Names(raw), Pieces(raw), NotEmpty(Pieces(raw)), s);
    }
  }

  function Invalid(services: seq<string>): seq<string> {
    if services == [] then []
    else
      Invalid(services[..|services| - 1])
      + if IsExporterNameValid(services[|services| - 1]) then [] else [services[|services| - 1]]
  }

  lemma {:induction false} InvalidSelects(services: seq<string>)
    ensures Selects(Invalid(services), services, Outside(services, SUPPORTED))
    decreases |services|
  {
    if services == [] {
      SelectsNone(Invalid(services), services, Outside(services, SUPPORTED));
    } else {
      var init, last := services[..|services| - 1], services[|services| - 1];
      InvalidSelects(init);
      SupportedIsCatalog(last);
      assert services == init + [last];
      assert Outside(services, SUPPORTED) == Outside(init, SUPPORTED) + if last in SUPPORTED then {} else {|init|};
      SelectsSnoc(Invalid(init), init, Outside(init, SUPPORTED), last, Invalid(services), Outside(services, SUPPORTED));
    }
  }

  method InvalidExporterNames(services: seq<string>) returns (invalid: seq<string>)
    ensures invalid == Invalid(services)
    ensures Selects(invalid, services, Outside(services, SUPPORTED))
  {
    invalid := [];
    for i := 0 to |services|
      invariant invalid == Invalid(services[..i])
    {
      assert services[..i + 1][..i] == services[..i];
      if !IsExporterNameValid(services[i]) {
        invalid := invalid + [services[i]];
      }
    }
    assert services[..|services|] == services;
    InvalidSelects(services);
  }

  datatype Selection = Selected(services: seq<string>) | InvalidInclude(names: seq<string>) | InvalidExclude(names: seq<string>)

  /** What a request starts from: its include list if it gives one at all, else the configured services. */
  function BaseList(configured: seq<string>, includes: string): seq<string> {
    if includes != "" then Names(includes) else configured
  }

  /** All items of a list that are not supported, in order. */
  ghost predicate NamesUnsupported(raw: string, wrong: seq<string>) {
    exists names :: Selects(names, Pieces(raw), NotEmpty(Pieces(raw))) && Selects(wrong, names, Outside(names, SUPPORTED))
  }

  /**
   What a request that is not refused gets, in terms of its query text: the services its include
   list names, or the configured ones if there is no such list, without those its exclude list
   names; each once, in the order in which they first occur in that list.
   */
  ghost predicate Answers(configured: seq<string>, includes: string, excludes: string, services: seq<string>) {
    && (forall s :: s in services <==>
          !Listed(excludes, s) && if includes == "" then s in configured else Listed(includes, s))
    && Distinct(services)
    && forall i, j :: 0 <= i < j < |services| ==> FirstBefore(Source(configured, includes), services[i], services[j])
  }

  /** `includes` and `excludes` are the query parameters, empty when absent. */
  method SelectServicesForRequest(configuredServices: seq<string>, includes: string, excludes: string) returns (r: Selection)
    ensures r == if Invalid(Names(includes)) != [] then InvalidInclude(Invalid(Names(includes)))
                 else if Invalid(Names(excludes)) != [] then InvalidExclude(Invalid(Names(excludes)))
                 else Selected(Unique(Without(BaseList(configuredServices, includes), Names(excludes))))
    ensures r.InvalidInclude? <==> exists s :: Listed(includes, s) && s !in SUPPORTED
    ensures r.InvalidExclude? <==>
              (forall s :: Listed(includes, s) ==> s in SUPPORTED) && exists s :: Listed(excludes, s) && s !in SUPPORTED
    ensures r.InvalidInclude? ==> NamesUnsupported(includes, r.names)
    ensures r.InvalidExclude? ==> NamesUnsupported(excludes, r.names)
    ensures r.Selected? ==> Answers(configuredServices, includes, excludes, r.services)
  {
    RefusedListed(includes);
    RefusedListed(excludes);
    WrongNames(includes);
    WrongNames(excludes);
    AnswerMeaning(configuredServices, includes, excludes);
    var enabledServices := configuredServices;
    if includes != "" {
      var includeList := ParseServiceList(includes);
      var invalid := InvalidExporterNames(includeList);
      if |invalid| > 0 {
        return InvalidInclude(invalid);
      }
      enabledServices := includeList;
    }
    var excludeList := ParseServiceList(excludes);
    var invalid := InvalidExporterNames(excludeList);
    if |invalid| > 0 {
      return InvalidExclude(invalid);
    }
    var remaining := RemoveElements(enabledServices, excludeList);
    var unique := UniqueElements(remaining);
    return Selected(unique);
  }

  lemma RefusedListed(raw: string)
    ensures Invalid(Names(raw)) != [] <==> exists s :: Listed(raw, s) && s !in SUPPORTED
  {
    NamesSelect(raw);
    InvalidIff(Names(raw));
  }

  lemma WrongNames(raw: string)
    ensures NamesUnsupported(raw, Invalid(Names(raw)))
  {
    NamesSelect(raw);
    InvalidSelects(Names(raw));
  }

  /** What a request starts from, in terms of its text. */
  function Source(configured: seq<string>, includes: string): seq<string> {
    if includes == "" then configured else Pieces(includes)
  }

  lemma BaseListed(configured: seq<string>, includes: string, s: string)
    ensures s in BaseList(configured, includes) <==> if includes == "" then s in configured else Listed(includes, s)
  {
    NamesSelect(includes);
  }

  lemma AnswerMembers(configured: seq<string>, includes: string, excludes: string, s: string)
    ensures s in Unique(Without(BaseList(configured, includes), Names(excludes)))
       <==> !Listed(excludes, s) && if includes == "" then s in configured else Listed(includes, s)
  {
    UniqueMembers(Without(BaseList(configured, includes), Names(excludes)), s);
    WithoutMembers(BaseList(configured, includes), Names(excludes), s);
    NamesSelect(excludes);
    BaseListed(configured, includes, s);
  }

  lemma AnswerOrder(configured: seq<string>, includes: string, drop: seq<string>, i: nat, j: nat)
    requires i < j < |Unique(Without(BaseList(configured, includes), drop))|
    ensures var list := Unique(Without(BaseList(configured, includes), drop));
            list[i] != list[j] && FirstBefore(Source(configured, includes), list[i], list[j])
  {
    var kept := Without(BaseList(configured, includes), drop);
    UniqueInFirstOrder(kept, i, j);
    WithoutOrder(BaseList(configured, includes), drop, Unique(kept)[i], Unique(kept)[j]);
    OrderInSource(configured, includes, Unique(kept)[i], Unique(kept)[j]);
  }

  lemma AnswerMeaning(configured: seq<string>, includes: string, excludes: string)
    ensures Answers(configured, includes, excludes, Unique(Without(BaseList(configured, includes), Names(excludes))))
  {
    var list := Unique(Without(BaseList(configured, includes), Names(excludes)));
    forall s
      ensures s in list <==> !Listed(excludes, s) && if includes == "" then s in configured else Listed(includes, s)
    {
      AnswerMembers(configured, includes, excludes, s);
    }
    forall i, j | 0 <= i < j < |list|
      ensures list[i] != list[j] && FirstBefore(Source(configured, includes), list[i], list[j])
    {
      AnswerOrder(configured, includes, Names(excludes), i, j);
    }
  }

  lemma OrderInSource(configured: seq<string>, includes: string, x: string, y: string)
    requires FirstBefore(BaseList(configured, includes), x, y)
    ensures FirstBefore(Source(configured, includes), x, y)
  {
    if includes != "" {
      OrderInPieces(Names(includes), Pieces(includes), includes, x, y);
    }
  }

  lemma OrderInPieces(names: seq<string>, pieces: seq<string>, raw: string, x: string, y: string)
    requires names == Names(raw) && pieces == Pieces(raw) && FirstBefore(names, x, y)
    ensures FirstBefore(pieces, x, y)
  {
    NamesSelect(raw);
    OrderNotEmpty(names, pieces, x, y);
  }

  lemma NotEmptyKeeps(names: seq<string>, pieces: seq<string>, x: string)
    requires Selects(names, pieces, NotEmpty(pieces)) && x in names
    ensures KeepsAll(pieces, NotEmpty(pieces), x)
  {
    SelectedMembers(names, pieces, NotEmpty(pieces), x);
  }

  lemma OrderNotEmpty(names: seq<string>, pieces: seq<string>, x: string, y: string)
    requires Selects(names, pieces, NotEmpty(pieces)) && FirstBefore(names, x, y)
    ensures FirstBefore(pieces, x, y)
  {
    NotEmptyKeeps(names, pieces, x);
    NotEmptyKeeps(names, pieces, y);
    FirstOrderSelected(names, pieces, NotEmpty(pieces), x, y);
  }

  lemma {:induction false} InvalidIff(services: seq<string>)
    ensures Invalid(services) == [] <==> forall s :: s in services ==> s in SUPPORTED
    decreases |services|
  {
    if services != [] {
      var init, last := services[..|services| - 1], services[|services| - 1];
      InvalidIff(init);
      SupportedIsCatalog(last);
      assert services == init + [last];
    }
  }

  lemma {:induction false} TrimmedIff(pieces: seq<string>, name: string)
    ensures name in Trimmed(pieces) <==> name != "" && exists p :: p in pieces && TrimSpace(p) == name
    decreases |pieces|
  {
    if pieces != [] {
      var init, last := pieces[..|pieces| - 1], pieces[|pieces| - 1];
      TrimmedIff(init, name);
      assert pieces == init + [last];
    }
  }

  /** A list is refused exactly when one of its comma-separated pieces, once trimmed, is neither empty nor supported. */
  lemma RefusedIff(raw: string)
    ensures Invalid(Names(raw)) != [] <==> exists p :: p in Split(raw, ',') && TrimSpace(p) != "" && TrimSpace(p) !in SUPPORTED
  {
    InvalidIff(Names(raw));
    if raw != "" {
      forall name
        ensures name in Names(raw) <==> name != "" && exists p :: p in Split(raw, ',') && TrimSpace(p) == name
      {
        TrimmedIff(Split(raw, ','), name);
      }
    } else {
      assert TrimSpace("") == "";
    }
  }

  /** Trimming removes white space at both ends and nothing else. */
  lemma TrimSpaceBetween(s: string)
    ensures var t := TrimSpace(s);
            && (t != "" ==> !IsSpace(t[0]) && !IsSpace(t[|t| - 1]))
            && exists i :: 0 <= i <= |s| - |t| && s[i..i + |t|] == t
                 && (forall c :: c in s[..i] ==> IsSpace(c)) && forall c :: c in s[i + |t|..] ==> IsSpace(c)
  {
    var i := TrimLeftSuffix(s);
    var l := TrimLeft(s);
    TrimRightPrefix(l);
    var t := TrimSpace(s);
    assert s[i..i + |t|] == l[..|t|];
    assert s[i + |t|..] == l[|t|..];
  }

  lemma {:induction false} TrimLeftSuffix(s: string) returns (i: nat)
    ensures i <= |s| && TrimLeft(s) == s[i..] && (forall c :: c in s[..i] ==> IsSpace(c))
    ensures TrimLeft(s) != "" ==> !IsSpace(TrimLeft(s)[0])
  {
    if s != "" && IsSpace(s[0]) {
      var k := TrimLeftSuffix(s[1..]);
      i := k + 1;
      assert s[..i] == [s[0]] + s[1..][..k];
    } else {
      i := 0;
    }
  }

  lemma {:induction false} TrimRightPrefix(s: string)
    ensures TrimRight(s) <= s && forall c :: c in s[|TrimRight(s)|..] ==> IsSpace(c)
    ensures TrimRight(s) != "" ==> !IsSpace(TrimRight(s)[|TrimRight(s)| - 1])
    decreases |s|
  {
    if s != "" && IsSpace(s[|s| - 1]) {
      var init, n := s[..|s| - 1], |TrimRight(s)|;
      TrimRightPrefix(init);
      assert s[n..] == init[n..] + [s[|s| - 1]];
    }
  }

  /**
   A request is refused exactly when it names something unsupported. Otherwise it gets the
   base list minus the exclude list, each service once, in order of first occurrence.
   */
  lemma RequestMeaning(configured: seq<string>, includes: string, excludes: string)
    ensures var list := Unique(Without(BaseList(configured, includes), Names(excludes)));
            && (forall s :: s in list <==> s in BaseList(configured, includes) && s !in Names(excludes))
            && Distinct(list)
            && list == Without(Unique(BaseList(configured, includes)), Names(excludes))
    ensures Invalid(Names(includes)) != [] || Invalid(Names(excludes)) != []
       <==> exists p :: (p in Split(includes, ',') || p in Split(excludes, ',')) && TrimSpace(p) != "" && TrimSpace(p) !in SUPPORTED
  {
    var kept := Without(BaseList(configured, includes), Names(excludes));
    forall s
      ensures s in Unique(kept) <==> s in BaseList(configured, includes) && s !in Names(excludes)
    {
      UniqueMembers(kept, s);
      WithoutMembers(BaseList(configured, includes), Names(excludes), s);
    }
    forall i, j | 0 <= i < j < |Unique(kept)|
      ensures Unique(kept)[i] != Unique(kept)[j]
    {
      UniqueInFirstOrder(kept, i, j);
    }
    UniqueWithoutCommute(BaseList(configured, includes), Names(excludes));
    RefusedIff(includes);
    RefusedIff(excludes);
  }
}
