/** The custom resources of the operator, reduced to the fields the reconcilers read or write. */
module Entities {
  import opened Labels

  datatype Option<+T> = None | Some(value: T)

  const DEPLOYING := "Deploying"

  /** An entry of `EdgeDevice.Status.Workloads`. */
  datatype Placement = Placement(name: string, phase: string)

  /** An EdgeDevice. A nil label map and an empty one are the same value: the API server stores neither. */
  datatype Device = Device(name: string, labels: map<string, string>, workloads: seq<Placement>, deleting: bool)

  datatype Operator = In | NotIn | Exists | DoesNotExist | Unsupported

  datatype Requirement = Requirement(key: string, op: Operator, values: seq<string>)

  datatype Selector = Selector(matchLabels: map<string, string>, matchExpressions: seq<Requirement>)

  /** An EdgeWorkload. `device` is empty when the specification names no device. */
  datatype Workload = Workload(
    name: string,
    labels: map<string, string>,
    finalizers: seq<string>,
    deleting: bool,
    device: string,
    selector: Option<Selector>)

  /** The requests a reconcile can see fail; a set of them is the environment's choice for one reconcile. */
  datatype Call =
    | ReadWorkload
    | ReadDevice
    | ListHolders
    | ListMatching
    | ListByLabel(query: string)
    | PatchWorkload
    | RemoveFinalizer
    | PatchStatus(device: string)
    | PatchLabels(device: string)

  /** One namespace of the API server's store. */
  datatype State = State(devices: map<string, Device>, workloads: map<string, Workload>)

  // ---------- Placement, stored twice ----------

  ghost predicate ListedIn(ps: seq<Placement>, name: string) {
    exists i :: 0 <= i < |ps| && ps[i].name == name
  }

  ghost predicate Lists(d: Device, name: string) {
    ListedIn(d.workloads, name)
  }

  predicate Labelled(d: Device, name: string) {
    WorkloadLabel(name) in d.labels
  }

  ghost predicate DistinctNames(ps: seq<Placement>) {
    forall i, j :: 0 <= i < j < |ps| ==> ps[i].name != ps[j].name
  }

  /** `after` holds entries of `before` as they were and in their order, those at `positions`, and then new ones as
      Deploying. */
  ghost predicate ReworkedAt(before: seq<Placement>, after: seq<Placement>, positions: seq<nat>) {
    && |positions| <= |after|
    && (forall i, j :: 0 <= i < j < |positions| ==> positions[i] < positions[j])
    && (forall i :: 0 <= i < |positions| ==> positions[i] < |before| && after[i] == before[positions[i]])
    && (forall i :: |positions| <= i < |after| ==> after[i].phase == "Deploying" && !ListedIn(before, after[i].name))
  }

  ghost predicate Reworked(before: seq<Placement>, after: seq<Placement>) {
    exists positions :: ReworkedAt(before, after, positions)
  }

  lemma ReworkedSame(ps: seq<Placement>)
    ensures Reworked(ps, ps)
  {
    var positions: seq<nat> := seq(|ps|, i => i);
    assert ReworkedAt(ps, ps, positions);
  }

  /** One more entry in front of `before`, kept or not. */
  lemma ReworkedCons(before: seq<Placement>, kept: seq<Placement>, rest: seq<nat>, keep: bool) returns (positions: seq<nat>)
    requires before != [] && |rest| == |kept| && ReworkedAt(before[1..], kept, rest)
    ensures var after := (if keep then [before[0]] else []) + kept;
            |positions| == |after| && ReworkedAt(before, after, positions)
  {
    var later: seq<nat> := seq(|rest|, i requires 0 <= i < |rest| => rest[i] + 1);
    positions := (if keep then [0] else []) + later;
    var after := (if keep then [before[0]] else []) + kept;
    var shift := if keep then 1 else 0;
    forall i | 0 <= i < |positions| ensures positions[i] < |before| && after[i] == before[positions[i]] {
      if i >= shift {
        assert positions[i] == rest[i - shift] + 1;
        assert after[i] == kept[i - shift] == before[1..][rest[i - shift]];
      }
    }
    forall i, j | 0 <= i < j < |positions| ensures positions[i] < positions[j] {
      assert positions[j] == rest[j - shift] + 1;
      if i >= shift {
        assert positions[i] == rest[i - shift] + 1;
      }
    }
  }

  /** An entry that stays keeps its phase. */
  lemma ReworkedKeeps(before: seq<Placement>, after: seq<Placement>, p: Placement)
    requires Reworked(before, after) && DistinctNames(before) && p in before && ListedIn(after, p.name)
    ensures p in after
  {
    var positions :| ReworkedAt(before, after, positions);
    var i :| 0 <= i < |after| && after[i].name == p.name;
    var k :| 0 <= k < |before| && before[k] == p;
    if i < |positions| {
      assert before[positions[i]].name == before[k].name;
    } else {
      assert ListedIn(before, after[i].name);
    }
  }

  // ---------- Lists of devices ----------

  ghost predicate DistinctDevices(ds: seq<Device>) {
    forall i, j :: 0 <= i < j < |ds| ==> ds[i].name != ds[j].name
  }

  ghost predicate NamedByKey(devices: map<string, Device>) {
    forall n :: n in devices ==> devices[n].name == n
  }

  /** `ds` lists the devices of `names` as they are stored, each once. */
  ghost predicate ExactListing(ds: seq<Device>, names: set<string>, devices: map<string, Device>) {
    && DistinctDevices(ds)
    && (forall k :: 0 <= k < |ds| ==> ds[k].name in names && ds[k].name in devices && devices[ds[k].name] == ds[k])
    && (forall n :: n in names ==> exists k :: 0 <= k < |ds| && ds[k].name == n)
  }

  // ---------- Selectors ----------

  predicate RequirementValid(r: Requirement) {
    match r.op
    case In => r.values != []
    case NotIn => r.values != []
    case Exists => r.values == []
    case DoesNotExist => r.values == []
    case Unsupported => false
  }

  /** False when turning the selector into a matcher reports an error. */
  predicate SelectorValid(s: Selector) {
    forall r | r in s.matchExpressions :: RequirementValid(r)
  }

  predicate RequirementMatches(r: Requirement, labels: map<string, string>) {
    match r.op
    case In => r.key in labels && labels[r.key] in r.values
    case NotIn => r.key in labels ==> labels[r.key] !in r.values
    case Exists => r.key in labels
    case DoesNotExist => r.key !in labels
    case Unsupported => false
  }

  predicate SelectorMatches(s: Selector, labels: map<string, string>) {
    && (forall k | k in s.matchLabels :: k in labels && labels[k] == s.matchLabels[k])
    && (forall r | r in s.matchExpressions :: RequirementMatches(r, labels))
  }

  /** A matchLabels pair asks for its very value, and is the requirement In with this one value. */
  lemma PairIsIn(k: string, v: string, labels: map<string, string>)
    ensures SelectorMatches(Selector(map[k := v], []), labels) <==> k in labels && labels[k] == v
    ensures RequirementMatches(Requirement(k, In, [v]), labels) <==> k in labels && labels[k] == v
  {
    assert k in map[k := v];
  }

  /** In is the disjunction over its values; NotIn and DoesNotExist are complements; Exists asks for the key only. */
  lemma OperatorLaws(k: string, vs: seq<string>, ws: seq<string>, labels: map<string, string>)
    ensures RequirementMatches(Requirement(k, In, vs + ws), labels) <==>
            RequirementMatches(Requirement(k, In, vs), labels) || RequirementMatches(Requirement(k, In, ws), labels)
    ensures !RequirementMatches(Requirement(k, In, []), labels)
    ensures RequirementMatches(Requirement(k, NotIn, vs), labels) <==> !RequirementMatches(Requirement(k, In, vs), labels)
    ensures RequirementMatches(Requirement(k, Exists, vs), labels) <==> k in labels
    ensures RequirementMatches(Requirement(k, DoesNotExist, vs), labels) <==> k !in labels
  {
  }

  /** A selector is the conjunction of its pairs and requirements; so the empty one matches everything. */
  lemma SelectorIsConjunction(s: Selector, labels: map<string, string>)
    ensures SelectorMatches(s, labels) <==>
      && (forall k :: k in s.matchLabels ==> SelectorMatches(Selector(map[k := s.matchLabels[k]], []), labels))
      && (forall r :: r in s.matchExpressions ==> SelectorMatches(Selector(map[], [r]), labels))
    ensures SelectorMatches(Selector(map[], []), labels)
  {
    forall k | k in s.matchLabels
      ensures SelectorMatches(Selector(map[k := s.matchLabels[k]], []), labels) <==> k in labels && labels[k] == s.matchLabels[k]
    {
      PairIsIn(k, s.matchLabels[k], labels);
    }
    forall r | r in s.matchExpressions
      ensures SelectorMatches(Selector(map[], [r]), labels) <==> RequirementMatches(r, labels)
    {
      assert r in [r];
    }
  }

  /** An unknown operator, In or NotIn without values, or Exists or DoesNotExist with values. */
  predicate Malformed(r: Requirement) {
    || r.op == Unsupported
    || (r.op in {In, NotIn} && |r.values| == 0)
    || (r.op in {Exists, DoesNotExist} && |r.values| > 0)
  }

  /** A selector is rejected exactly for a malformed requirement. */
  lemma InvalidExactly(s: Selector)
    ensures !SelectorValid(s) <==> exists r :: r in s.matchExpressions && Malformed(r)
  {
    forall r | r in s.matchExpressions ensures RequirementValid(r) <==> !Malformed(r) {
      assert |r.values| == 0 <==> r.values == [];
    }
  }

  /** The device is one that getMatchingEdgeDevices returns for the workload. */
  predicate Selects(w: Workload, d: Device) {
    if w.device != "" then d.name == w.device
    else w.selector.Some? && SelectorValid(w.selector.value) && SelectorMatches(w.selector.value, d.labels)
  }

  /** isWorkloadMatchDevice, the test of the device reconciler; None is its error return. */
  function IsWorkloadMatchDevice(w: Workload, d: Device): Option<bool> {
    if w.device == d.name then Some(true)
    else if w.selector.Some? then
      if SelectorValid(w.selector.value) then Some(SelectorMatches(w.selector.value, d.labels)) else None
    else Some(false)
  }

  /** At most one of the two ways of choosing devices is used. */
  predicate OneTarget(w: Workload) {
    w.device == "" || w.selector.None?
  }

  /** The two reconcilers test a device alike, except that the device reconciler still consults the
      selector of a workload that names another device. */
  lemma MatchersAgree(w: Workload, d: Device)
    requires d.name != ""
    ensures (IsWorkloadMatchDevice(w, d) == Some(true)) != Selects(w, d)
       <==> (w.device != "" && w.device != d.name && w.selector.Some?
             && SelectorValid(w.selector.value) && SelectorMatches(w.selector.value, d.labels))
    ensures IsWorkloadMatchDevice(w, d).None? <==> w.device != d.name && w.selector.Some? && !SelectorValid(w.selector.value)
  {
  }

  // ---------- Labels a reconcile never touches ----------

  /** The labels that are no selector labels are the same. */
  ghost predicate SameOwnLabels(a: map<string, string>, b: map<string, string>) {
    forall k :: !IsSelectorLabel(k) ==> (k in a <==> k in b) && (k in a ==> a[k] == b[k])
  }

  ghost predicate SameUserLabels(a: map<string, string>, b: map<string, string>) {
    forall k :: !IsWorkloadLabel(k) ==> (k in a <==> k in b) && (k in a ==> a[k] == b[k])
  }

  predicate PlainKeys(s: Selector) {
    && (forall k | k in s.matchLabels :: !IsWorkloadLabel(k))
    && (forall r | r in s.matchExpressions :: !IsWorkloadLabel(r.key))
  }

  /** The selector of the workload has no placement label as a key. */
  predicate Plain(w: Workload) {
    w.selector.Some? ==> PlainKeys(w.selector.value)
  }

  lemma MatchStable(s: Selector, a: map<string, string>, b: map<string, string>)
    requires PlainKeys(s) && SameUserLabels(a, b)
    ensures SelectorMatches(s, b) == SelectorMatches(s, a)
  {
    assert forall k | k in s.matchLabels :: !IsWorkloadLabel(k);
    forall r | r in s.matchExpressions
      ensures RequirementMatches(r, b) == RequirementMatches(r, a)
    {
      assert !IsWorkloadLabel(r.key);
    }
  }

  /** Writing or removing placement labels does not change which workloads select or match a device. */
  lemma SelectionStable(w: Workload, d: Device, d': Device)
    requires Plain(w)
    requires d'.name == d.name && SameUserLabels(d.labels, d'.labels)
    ensures Selects(w, d') == Selects(w, d)
    ensures IsWorkloadMatchDevice(w, d') == IsWorkloadMatchDevice(w, d)
  {
    if w.selector.Some? {
      MatchStable(w.selector.value, d.labels, d'.labels);
    }
  }

  // ---------- Patches ----------

  predicate Differs(from: map<string, string>, to: map<string, string>, k: string) {
    (k in from) != (k in to) || (k in to && from[k] != to[k])
  }

  /** Section 2 of RFC 7396 on a flat object: the difference from `from` to `to`, applied to `current`. */
  function MergePatch(current: map<string, string>, from: map<string, string>, to: map<string, string>): map<string, string> {
    map k | k in current.Keys + to.Keys && (if Differs(from, to, k) then k in to else k in current) ::
      if Differs(from, to, k) then to[k] else current[k]
  }

  /** A patch moves only what differs between its two versions, whatever else was stored meanwhile. */
  lemma MergePatchAt(current: map<string, string>, from: map<string, string>, to: map<string, string>, k: string)
    ensures var r := MergePatch(current, from, to);
      if (k in from && k in to && from[k] == to[k]) || (k !in from && k !in to)
      then (k in r <==> k in current) && (k in r ==> r[k] == current[k])
      else (k in r <==> k in to) && (k in r ==> r[k] == to[k])
  {
  }

  /** A patch computed against the stored labels stores exactly the wanted labels. */
  lemma MergePatchOfCurrent(from: map<string, string>, to: map<string, string>)
    ensures MergePatch(from, from, to) == to
  {
    var r := MergePatch(from, from, to);
    forall k ensures k in r <==> k in to {
      assert k in r <==> k in from.Keys + to.Keys && (if Differs(from, to, k) then k in to else k in from);
    }
  }
}
