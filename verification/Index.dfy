/** The two lookup indexes and the labels they are built from (internal/common/indexer/indexer.go,
    UpdateSelectorLabels and createSelectorLabelsMap). */
module Index {
  import opened Labels
  import opened Entities

  const DEVICE_BY_WORKLOAD_INDEX_KEY := "device-by-workload"

  function CreateWorkloadIndexKey(name: string, value: string): string {
    var suffix := TrimPrefix(name, SELECTOR_LABEL_PREFIX);
    if suffix == DEVICE_NAME_LABEL then value else suffix
  }

  function CreateDeviceIndexKey(name: string): string {
    TrimPrefix(name, WORKLOAD_LABEL_PREFIX)
  }

  // ---------- Workloads by device ----------

  function ExpressionKey(r: Requirement): string {
    if r.op == DoesNotExist then DOES_NOT_EXIST_LABEL else r.key
  }

  function ExpressionKeys(rs: seq<Requirement>): set<string> {
    set r | r in rs :: ExpressionKey(r)
  }

  function SelectorKeys(s: Selector): set<string> {
    s.matchLabels.Keys + ExpressionKeys(s.matchExpressions)
  }

  function AllTrue(keys: set<string>): map<string, string> {
    map k | k in keys :: "true"
  }

  function SelectorLabelNames(keys: set<string>): set<string> {
    set k | k in keys :: CreateSelectorLabel(k)
  }

  /** The selector labels that a specification asks for. */
  function DerivedLabels(w: Workload): map<string, string> {
    if w.device != "" then map[CreateSelectorLabel(DEVICE_NAME_LABEL) := w.device]
    else if w.selector.Some? then AllTrue(SelectorLabelNames(SelectorKeys(w.selector.value)))
    else map[]
  }

  function OwnLabels(labels: map<string, string>): map<string, string> {
    map k | k in labels && !IsSelectorLabel(k) :: labels[k]
  }

  /** The labels that UpdateSelectorLabels gives a workload. */
  function SelectorLabels(w: Workload): map<string, string> {
    OwnLabels(w.labels) + DerivedLabels(w)
  }

  ghost predicate InSync(w: Workload) {
    w.labels == SelectorLabels(w)
  }

  lemma DerivedAreSelectorLabels(w: Workload)
    ensures forall l :: l in DerivedLabels(w) ==> IsSelectorLabel(l)
  {
    forall l | l in DerivedLabels(w) ensures IsSelectorLabel(l) {
      if w.device != "" {
        SelectorLabelsDistinct(DEVICE_NAME_LABEL, DEVICE_NAME_LABEL);
      } else {
        var k :| k in SelectorKeys(w.selector.value) && l == CreateSelectorLabel(k);
        SelectorLabelsDistinct(k, k);
      }
    }
  }

  /** The selector has a pair or a requirement with this key; DoesNotExist has a key of its own. */
  ghost predicate AsksFor(s: Selector, k: string) {
    || k in s.matchLabels
    || (exists r :: r in s.matchExpressions && r.op != DoesNotExist && r.key == k)
    || (k == "doesnotexist" && exists r :: r in s.matchExpressions && r.op == DoesNotExist)
  }

  lemma AsksExactly(s: Selector, k: string)
    ensures AsksFor(s, k) <==> k in SelectorKeys(s)
  {
    forall r | r in s.matchExpressions ensures ExpressionKey(r) in ExpressionKeys(s.matchExpressions) {
    }
  }

  /** The selector label `l` with this value is one that the specification asks for. */
  ghost predicate AskedFor(w: Workload, l: string, value: string) {
    if w.device != "" then l == "selector/devicename" && value == w.device
    else w.selector.Some? && value == "true" && exists k :: AsksFor(w.selector.value, k) && l == "selector/" + k
  }

  lemma DerivedExactly(w: Workload, l: string, value: string)
    ensures l in DerivedLabels(w) && DerivedLabels(w)[l] == value <==> AskedFor(w, l, value)
  {
    assert CreateSelectorLabel(DEVICE_NAME_LABEL) == "selector/devicename";
    if w.device == "" && w.selector.Some? {
      var s := w.selector.value;
      if l in DerivedLabels(w) {
        var k :| k in SelectorKeys(s) && l == CreateSelectorLabel(k);
        AsksExactly(s, k);
        assert l == "selector/" + k;
      }
      if k :| AsksFor(s, k) && l == "selector/" + k {
        AsksExactly(s, k);
        assert l == CreateSelectorLabel(k);
      }
    }
  }

  /** Label by label: others stay as they were, and the selector labels are exactly those asked for. */
  lemma SelectorLabelsExactly(w: Workload)
    ensures SameOwnLabels(w.labels, SelectorLabels(w))
    ensures forall l, value :: IsSelectorLabel(l) ==>
      (l in SelectorLabels(w) && SelectorLabels(w)[l] == value <==> AskedFor(w, l, value))
  {
    DerivedAreSelectorLabels(w);
    forall l, value | IsSelectorLabel(l)
      ensures l in SelectorLabels(w) && SelectorLabels(w)[l] == value <==> AskedFor(w, l, value)
    {
      assert l !in OwnLabels(w.labels);
      DerivedExactly(w, l, value);
    }
  }

  method ClearSelectorLabels(given: map<string, string>) returns (labels: map<string, string>)
    ensures labels == OwnLabels(given)
  {
    labels := given;
    var keys := given.Keys;
    while keys != {}
      invariant keys <= given.Keys
      invariant labels == map k | k in given && (k in keys || !IsSelectorLabel(k)) :: given[k]
      decreases keys
    {
      var k :| k in keys;
      if IsSelectorLabel(k) {
        labels := labels - {k};
      }
      keys := keys - {k};
    }
  }

  lemma OneMoreLabel(own: map<string, string>, keys: set<string>, k: string)
    ensures (own + AllTrue(SelectorLabelNames(keys)))[CreateSelectorLabel(k) := "true"]
         == own + AllTrue(SelectorLabelNames(keys + {k}))
  {
    assert SelectorLabelNames(keys + {k}) == SelectorLabelNames(keys) + {CreateSelectorLabel(k)};
  }

  /** UpdateSelectorLabels on one workload: the stale selector labels go, those of the specification come. */
  method UpdateSelectorLabels(w: Workload) returns (labels: map<string, string>)
    ensures labels == SelectorLabels(w)
    ensures forall k :: !IsSelectorLabel(k) ==> (k in labels <==> k in w.labels) && (k in labels ==> labels[k] == w.labels[k])
    ensures forall l, value :: IsSelectorLabel(l) ==> (l in labels && labels[l] == value <==> AskedFor(w, l, value))
  {
    SelectorLabelsExactly(w);
    labels := ClearSelectorLabels(w.labels);
    if w.device != "" {
      labels := labels[CreateSelectorLabel(DEVICE_NAME_LABEL) := w.device];
    } else if w.selector.Some? {
      var s := w.selector.value;
      ghost var done: set<string> := {};
      var rest := s.matchLabels.Keys;
      while rest != {}
        invariant rest <= s.matchLabels.Keys && done == s.matchLabels.Keys - rest
        invariant labels == OwnLabels(w.labels) + AllTrue(SelectorLabelNames(done))
        decreases rest
      {
        var k :| k in rest;
        OneMoreLabel(OwnLabels(w.labels), done, k);
        labels := labels[CreateSelectorLabel(k) := "true"];
        done := done + {k};
        rest := rest - {k};
      }
      ghost var first := s.matchLabels.Keys;
      assert done == first;
      for i := 0 to |s.matchExpressions|
        invariant done == first + ExpressionKeys(s.matchExpressions[..i])
        invariant labels == OwnLabels(w.labels) + AllTrue(SelectorLabelNames(done))
      {
        var r := s.matchExpressions[i];
        OneMoreLabel(OwnLabels(w.labels), done, ExpressionKey(r));
        if r.op == DoesNotExist {
          labels := labels[CreateSelectorLabel(DOES_NOT_EXIST_LABEL) := "true"];
        } else {
          labels := labels[CreateSelectorLabel(r.key) := "true"];
        }
        assert s.matchExpressions[..i + 1] == s.matchExpressions[..i] + [r];
        done := done + {ExpressionKey(r)};
      }
      assert s.matchExpressions[..|s.matchExpressions|] == s.matchExpressions;
      assert done == SelectorKeys(s);
    }
  }

  /** Only the specification and the other labels decide: selector labels that were there play no part,
      so a second update changes nothing. */
  lemma StaleSelectorLabelsIgnored(w: Workload, labels: map<string, string>)
    requires SameOwnLabels(w.labels, labels)
    ensures SelectorLabels(w.(labels := labels)) == SelectorLabels(w)
    ensures InSync(w.(labels := SelectorLabels(w)))
    ensures SameOwnLabels(w.labels, SelectorLabels(w))
  {
    SelectorLabelsExactly(w);
    var updated := SelectorLabels(w);
    assert OwnLabels(labels) == OwnLabels(w.labels);
    assert forall k :: k in OwnLabels(updated) <==> k in OwnLabels(w.labels);
    assert OwnLabels(updated) == OwnLabels(w.labels);
    assert DerivedLabels(w.(labels := updated)) == DerivedLabels(w) == DerivedLabels(w.(labels := labels));
  }

  function IndexKeysAmong(labels: map<string, string>, names: set<string>): set<string> {
    set l | l in names && l in labels && IsSelectorLabel(l) :: CreateWorkloadIndexKey(l, labels[l])
  }

  /** The keys under which WorkloadByDeviceIndexFunc files a workload. */
  function WorkloadIndexKeys(w: Workload): set<string> {
    if w.deleting then {}
    else IndexKeysAmong(w.labels, w.labels.Keys)
  }

  function Elements(keys: seq<string>): set<string> {
    set k | k in keys
  }

  lemma OneMoreKey(keys: seq<string>, k: string)
    ensures Elements(keys + [k]) == Elements(keys) + {k}
  {
  }

  method WorkloadByDeviceIndexFunc(w: Workload) returns (keys: seq<string>)
    ensures Elements(keys) == WorkloadIndexKeys(w)
  {
    keys := [];
    if w.deleting {
      return;
    }
    var rest := w.labels.Keys;
    ghost var done: set<string> := {};
    while rest != {}
      invariant rest <= w.labels.Keys && done == w.labels.Keys - rest
      invariant Elements(keys) == IndexKeysAmong(w.labels, done)
      decreases rest
    {
      var l :| l in rest;
      if IsSelectorLabel(l) {
        OneMoreKey(keys, CreateWorkloadIndexKey(l, w.labels[l]));
        assert IndexKeysAmong(w.labels, done + {l}) == IndexKeysAmong(w.labels, done) + {CreateWorkloadIndexKey(l, w.labels[l])};
        keys := keys + [CreateWorkloadIndexKey(l, w.labels[l])];
      } else {
        assert IndexKeysAmong(w.labels, done + {l}) == IndexKeysAmong(w.labels, done);
      }
      done := done + {l};
      rest := rest - {l};
    }
    assert done == w.labels.Keys;
  }

  // ---------- Devices by workload ----------

  function WorkloadsAmong(names: set<string>): set<string> {
    set l | l in names && IsWorkloadLabel(l) :: CreateDeviceIndexKey(l)
  }

  function DeviceIndexKeys(d: Device): set<string> {
    WorkloadsAmong(d.labels.Keys)
  }

  method DeviceByWorkloadIndexFunc(d: Device) returns (keys: seq<string>)
    ensures Elements(keys) == DeviceIndexKeys(d)
  {
    keys := [];
    var rest := d.labels.Keys;
    ghost var done: set<string> := {};
    while rest != {}
      invariant rest <= d.labels.Keys && done == d.labels.Keys - rest
      invariant Elements(keys) == WorkloadsAmong(done)
      decreases rest
    {
      var l :| l in rest;
      if IsWorkloadLabel(l) {
        OneMoreKey(keys, CreateDeviceIndexKey(l));
        assert WorkloadsAmong(done + {l}) == WorkloadsAmong(done) + {CreateDeviceIndexKey(l)};
        keys := keys + [CreateDeviceIndexKey(l)];
      } else {
        assert WorkloadsAmong(done + {l}) == WorkloadsAmong(done);
      }
      done := done + {l};
      rest := rest - {l};
    }
    assert done == d.labels.Keys;
  }

  /** The device index files a device under exactly the workloads whose placement label it carries. */
  lemma DeviceIndexIsLabel(d: Device, name: string)
    ensures name in DeviceIndexKeys(d) <==> Labelled(d, name)
  {
    PrefixRoundTrip(WORKLOAD_LABEL_PREFIX, name);
    if name in DeviceIndexKeys(d) {
      var l :| l in d.labels && IsWorkloadLabel(l) && CreateDeviceIndexKey(l) == name;
      assert l == WORKLOAD_LABEL_PREFIX + l[|WORKLOAD_LABEL_PREFIX|..];
    }
  }

  // ---------- Candidates for a device ----------

  function UserLabels(names: set<string>): set<string> {
    set l | l in names && !IsWorkloadLabel(l)
  }

  /** createSelectorLabelsMap as a value: the queries with which a device looks for its workloads.
      A device label `devicename` takes the place of the query by the device's own name. */
  function Queries(d: Device): map<string, string> {
    map[CreateSelectorLabel(DEVICE_NAME_LABEL) := d.name, CreateSelectorLabel(DOES_NOT_EXIST_LABEL) := "true"]
    + AllTrue(SelectorLabelNames(UserLabels(d.labels.Keys)))
  }

  method CreateSelectorLabelsMap(d: Device) returns (result: map<string, string>)
    ensures result == Queries(d)
  {
    result := map[CreateSelectorLabel(DEVICE_NAME_LABEL) := d.name, CreateSelectorLabel(DOES_NOT_EXIST_LABEL) := "true"];
    ghost var base := result;
    var rest := d.labels.Keys;
    ghost var done: set<string> := {};
    while rest != {}
      invariant rest <= d.labels.Keys && done == d.labels.Keys - rest
      invariant result == base + AllTrue(SelectorLabelNames(UserLabels(done)))
      decreases rest
    {
      var l :| l in rest;
      rest := rest - {l};
      ghost var before := UserLabels(done);
      done := done + {l};
      if IsWorkloadLabel(l) {
        assert UserLabels(done) == before;
        continue;
      }
      assert UserLabels(done) == before + {l};
      OneMoreLabel(base, before, l);
      result := result[CreateSelectorLabel(l) := "true"];
    }
    assert done == d.labels.Keys;
  }

  /** ListByLabel on some query of the device returns the workload. */
  predicate Hit(w: Workload, d: Device) {
    exists q | q in Queries(d) :: CreateWorkloadIndexKey(q, Queries(d)[q]) in WorkloadIndexKeys(w)
  }

  /** The index keys a device asks for, read off its name and labels. */
  function DeviceAsks(d: Device): set<string> {
    {if DEVICE_NAME_LABEL in d.labels then "true" else d.name, DOES_NOT_EXIST_LABEL}
    + set l | l in d.labels && !IsWorkloadLabel(l) && l != DEVICE_NAME_LABEL
  }

  /** The index keys a synchronised workload is filed under, read off its specification. */
  function SpecAnswers(w: Workload): set<string> {
    if w.device != "" then {w.device}
    else if w.selector.Some? then
      set k | k in SelectorKeys(w.selector.value) :: if k == DEVICE_NAME_LABEL then "true" else k
    else {}
  }

  lemma KeyOfSelectorLabel(k: string, value: string)
    ensures CreateWorkloadIndexKey(CreateSelectorLabel(k), value) == if k == DEVICE_NAME_LABEL then value else k
  {
    SelectorLabelsDistinct(k, k);
  }

  /** Some query of the device looks under this key. */
  ghost predicate Asked(d: Device, key: string) {
    exists q :: q in Queries(d) && CreateWorkloadIndexKey(q, Queries(d)[q]) == key
  }

  /** A device label `devicename` changes what the query by name asks for. */
  lemma NameQuery(d: Device)
    ensures Queries(d)[CreateSelectorLabel(DEVICE_NAME_LABEL)] == if DEVICE_NAME_LABEL in d.labels then "true" else d.name
  {
    var byName := CreateSelectorLabel(DEVICE_NAME_LABEL);
    SelectorLabelsDistinct(DEVICE_NAME_LABEL, DOES_NOT_EXIST_LABEL);
    assert DEVICE_NAME_LABEL != DOES_NOT_EXIST_LABEL && !IsWorkloadLabel(DEVICE_NAME_LABEL) by {
      assert DEVICE_NAME_LABEL[1] != DOES_NOT_EXIST_LABEL[1];
      assert DEVICE_NAME_LABEL[0] != WORKLOAD_LABEL_PREFIX[0];
    }
    forall l | CreateSelectorLabel(l) == byName ensures l == DEVICE_NAME_LABEL {
      SelectorLabelsDistinct(l, DEVICE_NAME_LABEL);
    }
  }

  lemma QueryKey(d: Device, q: string)
    requires q in Queries(d)
    ensures CreateWorkloadIndexKey(q, Queries(d)[q]) in DeviceAsks(d)
  {
    var byName, byAbsence := CreateSelectorLabel(DEVICE_NAME_LABEL), CreateSelectorLabel(DOES_NOT_EXIST_LABEL);
    KeyOfSelectorLabel(DOES_NOT_EXIST_LABEL, Queries(d)[byAbsence]);
    if q == byName {
      NameQuery(d);
      KeyOfSelectorLabel(DEVICE_NAME_LABEL, Queries(d)[byName]);
    } else if q != byAbsence {
      var l :| l in d.labels && !IsWorkloadLabel(l) && q == CreateSelectorLabel(l);
      KeyOfSelectorLabel(l, "true");
    }
  }

  lemma QueryFor(d: Device, key: string) returns (q: string)
    requires key in DeviceAsks(d)
    ensures q in Queries(d) && CreateWorkloadIndexKey(q, Queries(d)[q]) == key
  {
    if key == DOES_NOT_EXIST_LABEL {
      q := CreateSelectorLabel(DOES_NOT_EXIST_LABEL);
      assert DOES_NOT_EXIST_LABEL[1] != DEVICE_NAME_LABEL[1];
      KeyOfSelectorLabel(DOES_NOT_EXIST_LABEL, Queries(d)[q]);
    } else if key in d.labels && !IsWorkloadLabel(key) && key != DEVICE_NAME_LABEL {
      q := CreateSelectorLabel(key);
      KeyOfSelectorLabel(key, Queries(d)[q]);
    } else {
      q := CreateSelectorLabel(DEVICE_NAME_LABEL);
      NameQuery(d);
      KeyOfSelectorLabel(DEVICE_NAME_LABEL, Queries(d)[q]);
    }
  }

  lemma AskedKeys(d: Device, key: string)
    ensures Asked(d, key) <==> key in DeviceAsks(d)
  {
    if Asked(d, key) {
      var q :| q in Queries(d) && CreateWorkloadIndexKey(q, Queries(d)[q]) == key;
      QueryKey(d, q);
    }
    if key in DeviceAsks(d) {
      var q := QueryFor(d, key);
    }
  }

  lemma AnsweredKeys(w: Workload, key: string)
    requires !w.deleting && InSync(w)
    ensures key in WorkloadIndexKeys(w) <==> key in SpecAnswers(w)
  {
    DerivedAreSelectorLabels(w);
    forall l ensures l in w.labels && IsSelectorLabel(l) <==> l in DerivedLabels(w) {
      assert l in OwnLabels(w.labels) ==> !IsSelectorLabel(l);
    }
    if w.device != "" {
      KeyOfSelectorLabel(DEVICE_NAME_LABEL, w.device);
      var l := CreateSelectorLabel(DEVICE_NAME_LABEL);
      assert l in w.labels && IsSelectorLabel(l) && w.labels[l] == w.device;
    } else if w.selector.Some? {
      var keys := SelectorKeys(w.selector.value);
      if key in WorkloadIndexKeys(w) {
        var l :| l in w.labels && IsSelectorLabel(l) && CreateWorkloadIndexKey(l, w.labels[l]) == key;
        assert l in DerivedLabels(w);
        var k :| k in keys && l == CreateSelectorLabel(k);
        KeyOfSelectorLabel(k, "true");
      }
      if key in SpecAnswers(w) {
        var k :| k in keys && key == if k == DEVICE_NAME_LABEL then "true" else k;
        KeyOfSelectorLabel(k, "true");
        var l := CreateSelectorLabel(k);
        assert l in DerivedLabels(w);
        assert l in w.labels && IsSelectorLabel(l) && w.labels[l] == "true";
      }
    }
  }

  /** When the index finds a workload for a device, exactly: for every live synchronised workload. */
  lemma HitExactly(w: Workload, d: Device)
    requires !w.deleting && InSync(w)
    ensures Hit(w, d) <==> DeviceAsks(d) * SpecAnswers(w) != {}
  {
    if Hit(w, d) {
      var q :| q in Queries(d) && CreateWorkloadIndexKey(q, Queries(d)[q]) in WorkloadIndexKeys(w);
      var key := CreateWorkloadIndexKey(q, Queries(d)[q]);
      AskedKeys(d, key);
      AnsweredKeys(w, key);
      assert key in DeviceAsks(d) * SpecAnswers(w);
    }
    if DeviceAsks(d) * SpecAnswers(w) != {} {
      var key :| key in DeviceAsks(d) * SpecAnswers(w);
      AskedKeys(d, key);
      AnsweredKeys(w, key);
    }
  }

  /** The selector has a requirement that a matching device can be found by. A NotIn requirement is none:
      it also holds of a device without the label, which does not ask for it. */
  predicate Anchored(s: Selector) {
    s.matchLabels != map[] || exists r | r in s.matchExpressions :: r.op == In || r.op == Exists || r.op == DoesNotExist
  }

  predicate WellFormedTarget(w: Workload) {
    OneTarget(w) && Plain(w) && (w.selector.Some? ==> Anchored(w.selector.value))
  }

  /** Index completeness: no matching device misses a workload whose selector labels are up to date. */
  lemma IndexComplete(w: Workload, d: Device)
    requires !w.deleting && InSync(w) && WellFormedTarget(w)
    requires DEVICE_NAME_LABEL !in d.labels
    requires Selects(w, d)
    ensures Hit(w, d)
  {
    HitExactly(w, d);
    var key := w.device;
    if w.device == "" {
      var s := w.selector.value;
      if s.matchLabels != map[] {
        key :| key in s.matchLabels;
        assert key in SelectorKeys(s) && key in d.labels;
      } else {
        var r :| r in s.matchExpressions && (r.op == In || r.op == Exists || r.op == DoesNotExist);
        assert RequirementMatches(r, d.labels);
        key := if r.op == DoesNotExist then DOES_NOT_EXIST_LABEL else r.key;
        assert key in SelectorKeys(s);
      }
    }
    assert key in DeviceAsks(d) * SpecAnswers(w);
  }

  /** Placement labels play no part in what a device asks for. */
  lemma HitStable(w: Workload, d: Device, d': Device)
    requires d'.name == d.name && SameUserLabels(d.labels, d'.labels)
    ensures Hit(w, d') == Hit(w, d)
  {
    assert UserLabels(d'.labels.Keys) == UserLabels(d.labels.Keys);
    assert Queries(d') == Queries(d);
  }

  function Synced(device: string, selector: Option<Selector>): Workload {
    var w := Workload("w", map[], [], false, device, selector);
    w.(labels := SelectorLabels(w))
  }

  lemma MissedBy(device: string, selector: Option<Selector>, d: Device)
    requires DeviceAsks(d) !! SpecAnswers(Synced(device, selector))
    ensures !Hit(Synced(device, selector), d)
  {
    StaleSelectorLabelsIgnored(Workload("w", map[], [], false, device, selector), map[]);
    HitExactly(Synced(device, selector), d);
  }

  lemma MissByPlacementLabel()
    ensures var w, d := Synced("", Some(Selector(map["workload/v" := "true"], []))), Device("d", map["workload/v" := "true"], [], false);
            Selects(w, d) && !Hit(w, d)
  {
    assert IsWorkloadLabel("workload/v");
    MissedBy("", Some(Selector(map["workload/v" := "true"], [])), Device("d", map["workload/v" := "true"], [], false));
  }

  lemma MissByNotIn()
    ensures var w, d := Synced("", Some(Selector(map[], [Requirement("k", NotIn, ["v"])]))), Device("d", map[], [], false);
            Selects(w, d) && !Hit(w, d)
  {
    var r := Requirement("k", NotIn, ["v"]);
    var s := Selector(map[], [r]);
    assert ExpressionKeys([r]) == {ExpressionKey(r)} by {
      assert r in [r];
    }
    MissedBy("", Some(s), Device("d", map[], [], false));
  }

  /** Each condition of IndexComplete is needed: a NotIn requirement alone, an empty selector, a selector on a
      placement label, and a device label `devicename` each hide a matching device from the index. */
  lemma IndexMisses()
    ensures var w, d := Synced("", Some(Selector(map[], [Requirement("k", NotIn, ["v"])]))), Device("d", map[], [], false);
            Selects(w, d) && !Hit(w, d)
    ensures var w, d := Synced("", Some(Selector(map[], []))), Device("d", map[], [], false);
            Selects(w, d) && !Hit(w, d)
    ensures var w, d := Synced("", Some(Selector(map["workload/v" := "true"], []))), Device("d", map["workload/v" := "true"], [], false);
            Selects(w, d) && !Hit(w, d)
    ensures var w, d := Synced("d", None), Device("d", map["devicename" := "x"], [], false);
            Selects(w, d) && !Hit(w, d)
  {
    MissByNotIn();
    MissedBy("", Some(Selector(map[], [])), Device("d", map[], [], false));
    MissByPlacementLabel();
    MissedBy("d", None, Device("d", map["devicename" := "x"], [], false));
  }
}
