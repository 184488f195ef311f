/** `LabelMappingFlag` of `utils/kingpin_parser.go`: a cumulative flag that maps metadata keys to labels. */
module LabelFlag {
  import opened LabelNames
  import opened Sequences
  import opened Strings

  datatype Mapping = Mapping(labels: seq<string>, keys: seq<string>)

  datatype SetError = NoError | DuplicateLabel(name: string) | BadLabelName(name: string)

  datatype SetResult = SetResult(mapping: Mapping, error: SetError)

  function LabelOf(kv: string): string { Cut(kv, '=').before }

  /** Without "=" the key is the label. */
  function KeyOf(kv: string): string {
    var r := Cut(kv, '=');
    if r.found then r.after else r.before
  }

  /** Takes the items in order and stops at the first bad one, keeping those before it. */
  function AddAll(f: Mapping, kvs: seq<string>): SetResult
    decreases |kvs|
  {
    if kvs == [] then SetResult(f, NoError)
    else if LabelOf(kvs[0]) in f.labels then SetResult(f, DuplicateLabel(LabelOf(kvs[0])))
    else if !IsLabelName(LabelOf(kvs[0])) then SetResult(f, BadLabelName(LabelOf(kvs[0])))
    else AddAll(Mapping(f.labels + [LabelOf(kvs[0])], f.keys + [KeyOf(kvs[0])]), kvs[1..])
  }

  /** One `Set` call on a mapping. */
  function SetTo(f: Mapping, value: string): SetResult {
    if value == "" then SetResult(f, NoError) else AddAll(f, Split(value, ','))
  }

  function Item(lbl: string, key: string): string {
    if lbl != key then lbl + ['='] + key else lbl
  }

  function Items(f: Mapping): (buf: seq<string>)
    requires |f.labels| == |f.keys|
    ensures |buf| == |f.labels| && forall i :: 0 <= i < |buf| ==> buf[i] == Item(f.labels[i], f.keys[i])
  {
    seq(|f.labels|, i requires 0 <= i < |f.labels| => Item(f.labels[i], f.keys[i]))
  }

  /** The flag printed back. */
  function Printed(f: Mapping): string
    requires |f.labels| == |f.keys|
  {
    Join(Items(f), ',')
  }

  /** An item is "label=key", cut at its first "=", or a label that is its own key. */
  predicate Reads(item: string, lbl: string, key: string) {
    '=' !in lbl && (item == lbl + ['='] + key || ('=' !in item && item == lbl == key))
  }

  /** The first `n` items have been appended: each gives a label that is a name and not there yet, and its key. */
  predicate Appended(items: seq<string>, n: nat, before: Mapping, after: Mapping) {
    && n <= |items|
    && before.labels <= after.labels && |after.labels| == |before.labels| + n
    && before.keys <= after.keys && |after.keys| == |before.keys| + n
    && forall i :: 0 <= i < n ==> Taken(items[i], after, |before.labels| + i, |before.keys| + i)
  }

  /** The label and key at these positions come from the item, and the label is a new name. */
  predicate Taken(item: string, f: Mapping, at: nat, keyAt: nat) {
    && at < |f.labels| && keyAt < |f.keys|
    && Reads(item, f.labels[at], f.keys[keyAt])
    && IsLabelName(f.labels[at]) && f.labels[at] !in f.labels[..at]
  }

  /** Why an item is refused: its label is there already, or else is not a name. */
  ghost predicate Refuses(item: string, f: Mapping, err: SetError) {
    exists lbl, key :: Reads(item, lbl, key)
      && ((err == DuplicateLabel(lbl) && lbl in f.labels) || (err == BadLabelName(lbl) && lbl !in f.labels && !IsLabelName(lbl)))
  }

  /** The items are taken in order up to the first one that is refused, or all of them. */
  ghost predicate SetOutcome(items: seq<string>, before: Mapping, after: Mapping, err: SetError) {
    exists n: nat :: Appended(items, n, before, after) && if n == |items| then err == NoError else Refuses(items[n], after, err)
  }

  lemma ItemReads(kv: string)
    ensures Reads(kv, LabelOf(kv), KeyOf(kv))
  {
    CutBefore(kv, '=');
    CutRejoins(kv, '=');
  }

  lemma AppendedFirst(f: Mapping, kvs: seq<string>, lbl: string, key: string, n: nat, after: Mapping)
    requires kvs != [] && Reads(kvs[0], lbl, key) && IsLabelName(lbl) && lbl !in f.labels
    requires Appended(kvs[1..], n, Mapping(f.labels + [lbl], f.keys + [key]), after)
    ensures Appended(kvs, n + 1, f, after)
  {
    var g := Mapping(f.labels + [lbl], f.keys + [key]);
    assert after.labels[..|f.labels|] == g.labels[..|f.labels|] == f.labels;
    assert after.labels[|f.labels|] == g.labels[|f.labels|] == lbl && after.keys[|f.keys|] == g.keys[|f.keys|] == key;
    assert f.labels <= after.labels && f.keys <= after.keys;
    assert Taken(kvs[0], after, |f.labels|, |f.keys|);
    forall i | 0 <= i < n + 1
      ensures Taken(kvs[i], after, |f.labels| + i, |f.keys| + i)
    {
      if i > 0 {
        assert Taken(kvs[1..][i - 1], after, |g.labels| + (i - 1), |g.keys| + (i - 1));
      }
    }
  }

  lemma {:induction false} AddAllMeaning(f: Mapping, kvs: seq<string>) returns (n: nat)
    ensures var r := AddAll(f, kvs);
            Appended(kvs, n, f, r.mapping) && if n == |kvs| then r.error == NoError else Refuses(kvs[n], r.mapping, r.error)
    decreases |kvs|
  {
    n := 0;
    if kvs != [] {
      var lbl, key := LabelOf(kvs[0]), KeyOf(kvs[0]);
      ItemReads(kvs[0]);
      if lbl !in f.labels && IsLabelName(lbl) {
        var more := AddAllMeaning(Mapping(f.labels + [lbl], f.keys + [key]), kvs[1..]);
        AppendedFirst(f, kvs, lbl, key, more, AddAll(f, kvs).mapping);
        n := more + 1;
      }
    }
  }

  lemma SetMeaning(f: Mapping, value: string)
    requires value != ""
    ensures SetOutcome(Split(value, ','), f, SetTo(f, value).mapping, SetTo(f, value).error)
  {
    var n := AddAllMeaning(f, Split(value, ','));
  }

  lemma JoinPair(lbl: string, key: string)
    ensures Join([lbl, key], '=') == lbl + ['='] + key
  {
    assert [lbl, key][1..] == [key];
    assert Join([key], '=') == key;
  }

  class LabelMappingFlag {
    var Labels: seq<string>
    var Keys: seq<string>

    function Value(): Mapping
      reads this
    {
      Mapping(Labels, Keys)
    }

    constructor ()
      ensures Value() == Mapping([], [])
    {
      Labels, Keys := [], [];
    }

    method Set(value: string) returns (err: SetError)
      modifies this
      ensures SetResult(Value(), err) == SetTo(old(Value()), value)
      ensures if value == "" then Value() == old(Value()) && err == NoError
              else SetOutcome(Split(value, ','), old(Value()), Value(), err)
    {
      if value != "" {
        SetMeaning(Value(), value);
      }
      if |value| == 0 {
        return NoError;
      }
      var kvs := Split(value, ',');
      for i := 0 to |kvs|
        invariant AddAll(Value(), kvs[i..]) == AddAll(old(Value()), kvs)
      {
        assert kvs[i..][0] == kvs[i] && kvs[i..][1..] == kvs[i + 1..];
        var cut := Cut(kvs[i], '=');
        var lbl, key := cut.before, cut.after;
        if !cut.found {
          key := lbl;
        }
        if lbl in Labels {
          return DuplicateLabel(lbl);
        }
        if !IsLabelName(lbl) {
          return BadLabelName(lbl);
        }
        Labels := Labels + [lbl];
        Keys := Keys + [key];
      }
      return NoError;
    }

    method String() returns (s: string)
      requires |Labels| == |Keys|
      ensures s == Printed(Value())
    {
      var buf := [];
      for i := 0 to |Labels|
        invariant |buf| == i && forall j :: 0 <= j < i ==> buf[j] == Item(Labels[j], Keys[j])
      {
        var lbl, key := Labels[i], Keys[i];
        if lbl != key {
          JoinPair(lbl, key);
          buf := buf + [Join([lbl, key], '=')];
        } else {
          buf := buf + [lbl];
        }
      }
      assert buf == Items(Value());
      s := Join(buf, ',');
    }

    /** The metadata value of every key, in order; a missing key gives "". */
    method Extract(m: map<string, string>) returns (ret: seq<string>)
      ensures |ret| == |Keys|
      ensures forall i :: 0 <= i < |ret| ==> ret[i] == if Keys[i] in m then m[Keys[i]] else ""
    {
      ret := [];
      for i := 0 to |Keys|
        invariant |ret| == i
        invariant forall j :: 0 <= j < i ==> ret[j] == if Keys[j] in m then m[Keys[j]] else ""
      {
        ret := ret + [if Keys[i] in m then m[Keys[i]] else ""];
      }
    }
  }

  /** What every `Set` call keeps, failing or not. */
  ghost predicate Valid(f: Mapping) {
    && |f.labels| == |f.keys|
    && Distinct(f.labels)
    && (forall l :: l in f.labels ==> IsLabelName(l) && ',' !in l && '=' !in l)
    && (forall k :: k in f.keys ==> ',' !in k)
  }

  lemma ItemParts(kv: string)
    ensures '=' !in LabelOf(kv)
    ensures ',' !in kv ==> ',' !in LabelOf(kv) && ',' !in KeyOf(kv)
  {
    CutBefore(kv, '=');
    CutRejoins(kv, '=');
  }

  lemma {:induction false} AddAllKeeps(f: Mapping, kvs: seq<string>)
    requires Valid(f) && forall kv :: kv in kvs ==> ',' !in kv
    ensures var g := AddAll(f, kvs).mapping;
            Valid(g) && f.labels <= g.labels && f.keys <= g.keys
    decreases |kvs|
  {
    if kvs != [] && LabelOf(kvs[0]) !in f.labels && IsLabelName(LabelOf(kvs[0])) {
      ItemParts(kvs[0]);
      AddAllKeeps(Mapping(f.labels + [LabelOf(kvs[0])], f.keys + [KeyOf(kvs[0])]), kvs[1..]);
    }
  }

  /** Every `Set` call, also a failing one, only appends, and keeps the mapping valid. */
  lemma SetKeeps(f: Mapping, value: string)
    requires Valid(f)
    ensures var g := SetTo(f, value).mapping;
            Valid(g) && f.labels <= g.labels && f.keys <= g.keys
  {
    if value != "" {
      SplitPieces(value, ',');
      AddAllKeeps(f, Split(value, ','));
    }
  }

  /** The mapping after a sequence of `Set` calls on a fresh flag, whatever each of them returned. */
  function AfterSets(values: seq<string>): Mapping {
    if values == [] then Mapping([], [])
    else SetTo(AfterSets(values[..|values| - 1]), values[|values| - 1]).mapping
  }

  lemma {:induction false} ReachableValid(values: seq<string>)
    ensures Valid(AfterSets(values))
    decreases |values|
  {
    if values != [] {
      ReachableValid(values[..|values| - 1]);
      SetKeeps(AfterSets(values[..|values| - 1]), values[|values| - 1]);
    }
  }

  lemma ItemParses(lbl: string, key: string)
    requires '=' !in lbl
    ensures LabelOf(Item(lbl, key)) == lbl && KeyOf(Item(lbl, key)) == key
  {
    CutAt(lbl, '=', key);
  }

  function Prefix(f: Mapping, n: nat): Mapping
    requires n <= |f.labels| == |f.keys|
  {
    Mapping(f.labels[..n], f.keys[..n])
  }

  lemma PrefixSnoc(f: Mapping, n: nat)
    requires n < |f.labels| == |f.keys|
    ensures Prefix(f, n + 1) == Mapping(f.labels[..n] + [f.labels[n]], f.keys[..n] + [f.keys[n]])
    ensures Distinct(f.labels) ==> f.labels[n] !in Prefix(f, n).labels
  {
  }

  lemma ReadOne(g: Mapping, lbl: string, key: string, rest: seq<string>)
    requires '=' !in lbl && IsLabelName(lbl) && lbl !in g.labels
    ensures AddAll(g, [Item(lbl, key)] + rest) == AddAll(Mapping(g.labels + [lbl], g.keys + [key]), rest)
  {
    ItemParses(lbl, key);
    assert ([Item(lbl, key)] + rest)[1..] == rest;
  }

  lemma NextItem(f: Mapping, n: nat)
    requires Valid(f) && n < |f.labels|
    ensures Items(f)[n..] == [Item(f.labels[n], f.keys[n])] + Items(f)[n + 1..]
    ensures '=' !in f.labels[n] && IsLabelName(f.labels[n]) && f.labels[n] !in Prefix(f, n).labels
  {
    assert f.labels[n] in f.labels;
  }

  lemma {:induction false} ReadBack(f: Mapping, n: nat)
    requires Valid(f) && n <= |f.labels|
    ensures AddAll(Prefix(f, n), Items(f)[n..]) == SetResult(f, NoError)
    decreases |f.labels| - n
  {
    if n == |f.labels| {
      assert Prefix(f, n) == f;
    } else {
      ReadBack(f, n + 1);
      PrefixSnoc(f, n);
      NextItem(f, n);
      ReadOne(Prefix(f, n), f.labels[n], f.keys[n], Items(f)[n + 1..]);
    }
  }

  /** What the printed form says: one piece per label, "label=key", or the label alone where it is its own key. */
  lemma PrintedItems(f: Mapping)
    requires Valid(f)
    ensures f.labels == [] ==> Printed(f) == ""
    ensures f.labels != [] ==>
              var pieces := Split(Printed(f), ',');
              |pieces| == |f.labels|
              && forall i :: 0 <= i < |pieces| ==>
                   pieces[i] == if f.labels[i] == f.keys[i] then f.labels[i] else f.labels[i] + ['='] + f.keys[i]
  {
    if f.labels != [] {
      PrintedSplits(f);
    }
  }

  lemma PrintedSplits(f: Mapping)
    requires Valid(f) && f.labels != []
    ensures Split(Printed(f), ',') == Items(f)
  {
    forall p | p in Items(f)
      ensures ',' !in p
    {
      var i :| 0 <= i < |Items(f)| && Items(f)[i] == p;
      assert f.labels[i] in f.labels && f.keys[i] in f.keys;
    }
    SplitJoin(Items(f), ',');
  }

  /** Whatever calls built a flag, setting a fresh one to its printed form rebuilds it. */
  lemma PrintedParses(values: seq<string>)
    ensures var f := AfterSets(values);
            |f.labels| == |f.keys| && SetTo(Mapping([], []), Printed(f)) == SetResult(f, NoError)
  {
    var f := AfterSets(values);
    ReachableValid(values);
    if f.labels != [] {
      PrintedSplits(f);
      ReadBack(f, 0);
      NotEmpty(f);
      assert Prefix(f, 0) == Mapping([], []) && Items(f)[0..] == Items(f);
    }
  }

  /** No label is empty, so a mapping with labels never prints as the empty string that `Set` ignores. */
  lemma NotEmpty(f: Mapping)
    requires Valid(f) && f.labels != []
    ensures Printed(f) != ""
  {
    assert f.labels[0] in f.labels;
    assert Items(f)[0] == Item(f.labels[0], f.keys[0]);
  }

  lemma {:induction false} AddAllConcat(f: Mapping, kvs: seq<string>, more: seq<string>)
    ensures AddAll(f, kvs + more)
         == if AddAll(f, kvs).error == NoError then AddAll(AddAll(f, kvs).mapping, more) else AddAll(f, kvs)
    decreases |kvs|
  {
    if kvs == [] {
      assert kvs + more == more;
    } else {
      assert (kvs + more)[0] == kvs[0] && (kvs + more)[1..] == kvs[1..] + more;
      AddAllConcat(Mapping(f.labels + [LabelOf(kvs[0])], f.keys + [KeyOf(kvs[0])]), kvs[1..], more);
    }
  }

  /** Two calls in a row do what one call with both values joined by a comma does, as long as the first succeeds. */
  lemma SetIsCumulative(f: Mapping, a: string, b: string)
    requires a != "" && b != "" && SetTo(f, a).error == NoError
    ensures SetTo(SetTo(f, a).mapping, b) == SetTo(f, a + [','] + b)
  {
    SplitAtSeparator(a, ',', b);
    AddAllConcat(f, Split(a, ','), Split(b, ','));
  }

  function LabelsOf(kvs: seq<string>): (ls: seq<string>)
    ensures |ls| == |kvs| && forall i :: 0 <= i < |ls| ==> ls[i] == LabelOf(kvs[i])
  {
    seq(|kvs|, i requires 0 <= i < |kvs| => LabelOf(kvs[i]))
  }

  predicate AllNames(kvs: seq<string>) {
    kvs != [] ==> IsLabelName(LabelOf(kvs[0])) && AllNames(kvs[1..])
  }

  /** A call succeeds exactly when all its labels are names, and differ from each other and from those set before. */
  lemma {:induction false} AddAllOkIff(f: Mapping, kvs: seq<string>)
    requires Distinct(f.labels)
    ensures AddAll(f, kvs).error == NoError
       <==> AllNames(kvs) && Distinct(f.labels + LabelsOf(kvs))
    ensures AddAll(f, kvs).error == NoError ==> AddAll(f, kvs).mapping.labels == f.labels + LabelsOf(kvs)
    decreases |kvs|
  {
    if kvs == [] {
      assert f.labels + LabelsOf(kvs) == f.labels;
    } else {
      var lbl, rest := LabelOf(kvs[0]), kvs[1..];
      assert f.labels + LabelsOf(kvs) == (f.labels + [lbl]) + LabelsOf(rest);
      if lbl in f.labels {
        RepeatNotDistinct(f.labels, lbl, LabelsOf(rest));
      } else if IsLabelName(lbl) {
        assert Distinct(f.labels + [lbl]);
        AddAllOkIff(Mapping(f.labels + [lbl], f.keys + [KeyOf(kvs[0])]), rest);
      }
    }
  }

  lemma RepeatNotDistinct(ls: seq<string>, l: string, more: seq<string>)
    requires l in ls
    ensures !Distinct((ls + [l]) + more)
  {
    var all := (ls + [l]) + more;
    var i :| 0 <= i < |ls| && ls[i] == l;
    assert all[i] == all[|ls|];
  }
}
