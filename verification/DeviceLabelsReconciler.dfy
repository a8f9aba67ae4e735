/** The reconciler that works device by device (controllers/edgedevicelabels_controller.go). */
module DeviceLabelsReconciler {
  import opened Labels
  import opened Entities
  import opened Index
  import opened FanOut
  import opened ClusterStore

  // ---------- Which workloads belong on the device ----------

  /** The workloads that the queries `qs` of the device return. */
  function CandidatesOf(workloads: map<string, Workload>, d: Device, qs: set<string>): set<string> {
    set n | n in workloads && exists q | q in qs ::
      q in Queries(d) && CreateWorkloadIndexKey(q, Queries(d)[q]) in WorkloadIndexKeys(workloads[n])
  }

  /** What one query returns. */
  function Answers(workloads: map<string, Workload>, d: Device, q: string): set<string>
    requires q in Queries(d)
  {
    set n | n in workloads && CreateWorkloadIndexKey(q, Queries(d)[q]) in WorkloadIndexKeys(workloads[n])
  }

  function Candidates(s: State, d: Device): set<string> {
    CandidatesOf(s.workloads, d, Queries(d).Keys)
  }

  predicate LookupFails(s: State, d: Device, faults: set<Call>) {
    || (exists q | q in Queries(d) :: ListByLabel(q) in faults)
    || (exists n | n in Candidates(s, d) :: n in s.workloads && IsWorkloadMatchDevice(s.workloads[n], d).None?)
  }

  /** The candidates that pass the direct test. */
  function Matched(s: State, d: Device): set<string> {
    set n | n in Candidates(s, d) && n in s.workloads && IsWorkloadMatchDevice(s.workloads[n], d) == Some(true)
  }

  // ---------- The device's new list ----------

  ghost function NamesIn(ps: seq<Placement>): set<string> {
    set p | p in ps :: p.name
  }

  /** The entries kept: each wanted name once. */
  function Kept(ps: seq<Placement>, wanted: set<string>): seq<Placement> {
    if ps == [] then []
    else if ps[0].name in wanted then [ps[0]] + Kept(ps[1..], wanted - {ps[0].name})
    else Kept(ps[1..], wanted)
  }

  /** The labels of the entries dropped. */
  function DroppedLabels(ps: seq<Placement>, wanted: set<string>): set<string> {
    if ps == [] then {}
    else if ps[0].name in wanted then DroppedLabels(ps[1..], wanted - {ps[0].name})
    else {WorkloadLabel(ps[0].name)} + DroppedLabels(ps[1..], wanted)
  }

  function Deployments(names: seq<string>): seq<Placement> {
    seq(|names|, i requires 0 <= i < |names| => Placement(names[i], DEPLOYING))
  }

  ghost predicate Enumerates(names: seq<string>, elements: set<string>) {
    && (forall i :: 0 <= i < |names| ==> names[i] in elements)
    && (forall i, j :: 0 <= i < j < |names| ==> names[i] != names[j])
    && (forall n :: n in elements ==> n in names)
  }

  function WithLabels(labels: map<string, string>, names: seq<string>): map<string, string> {
    if names == [] then labels
    else WithLabels(labels, names[..|names| - 1])[WorkloadLabel(names[|names| - 1]) := "true"]
  }

  /** `updated` is what createUpdatedDevice returns when its map iteration adds `added` in that order. */
  ghost predicate IsUpdate(wanted: set<string>, d: Device, updated: Option<Device>, added: seq<string>) {
    var kept := Kept(d.workloads, wanted);
    && Enumerates(added, wanted - NamesIn(d.workloads))
    && updated == if |kept| == |d.workloads| && added == [] then None
                  else Some(d.(workloads := kept + Deployments(added),
                               labels := WithLabels(d.labels - DroppedLabels(d.workloads, wanted), added)))
  }

  ghost function Wanted(selected: map<string, bool>): set<string> {
    set n | n in selected && selected[n]
  }

  lemma KeptStep(ps: seq<Placement>, i: nat, wanted: set<string>)
    requires i < |ps|
    ensures var left := wanted - NamesIn(ps[..i]);
            && Kept(ps[..i + 1], wanted) == Kept(ps[..i], wanted) + (if ps[i].name in left then [ps[i]] else [])
            && DroppedLabels(ps[..i + 1], wanted)
               == DroppedLabels(ps[..i], wanted) + (if ps[i].name in left then {} else {WorkloadLabel(ps[i].name)})
    decreases i
  {
    var a, b := ps[..i], ps[..i + 1];
    if i == 0 {
      assert b == [ps[0]];
      assert b[1..] == [];
      assert a == [];
    } else {
      assert b[1..] == ps[1..][..i] && a[1..] == ps[1..][..i - 1];
      assert b[0] == ps[0] == a[0] && ps[1..][i - 1] == ps[i];
      var rest := if ps[0].name in wanted then wanted - {ps[0].name} else wanted;
      KeptStep(ps[1..], i - 1, rest);
      assert NamesIn(a) == {ps[0].name} + NamesIn(a[1..]) by {
        assert forall p :: p in a <==> p == ps[0] || p in a[1..];
      }
      assert (ps[i].name in wanted - NamesIn(a)) <==> (ps[i].name in rest - NamesIn(a[1..]));
    }
  }

  lemma NamesStep(ps: seq<Placement>, i: nat)
    requires i < |ps|
    ensures NamesIn(ps[..i + 1]) == NamesIn(ps[..i]) + {ps[i].name}
  {
    assert ps[..i + 1] == ps[..i] + [ps[i]];
    assert forall p :: p in ps[..i + 1] <==> p in ps[..i] || p == ps[i];
  }

  lemma WantedLess(selected: map<string, bool>, name: string)
    ensures Wanted(selected - {name}) == Wanted(selected) - {name}
  {
  }

  /** The first loop of createUpdatedDevice: goes over the entries of the device. */
  method KeepSelected(selectedWorkloads: map<string, bool>, device: Device)
    returns (workloads: seq<Placement>, labels: map<string, string>, selected: map<string, bool>, deviceUpdated: bool)
    ensures deviceUpdated <==> |workloads| < |device.workloads|
    ensures workloads == Kept(device.workloads, Wanted(selectedWorkloads)) && |workloads| <= |device.workloads|
    ensures labels == device.labels - DroppedLabels(device.workloads, Wanted(selectedWorkloads))
    ensures Wanted(selected) == Wanted(selectedWorkloads) - NamesIn(device.workloads)
  {
    ghost var wanted := Wanted(selectedWorkloads);
    var ps := device.workloads;
    workloads, labels, selected, deviceUpdated := [], device.labels, selectedWorkloads, false;
    for i := 0 to |ps|
      invariant Wanted(selected) == wanted - NamesIn(ps[..i])
      invariant workloads == Kept(ps[..i], wanted) && |workloads| <= i && (deviceUpdated <==> |workloads| < i)
      invariant labels == device.labels - DroppedLabels(ps[..i], wanted)
    {
      KeptStep(ps, i, wanted);
      NamesStep(ps, i);
      if ps[i].name in selected && selected[ps[i].name] {
        workloads := workloads + [ps[i]];
        WantedLess(selected, ps[i].name);
        selected := selected - {ps[i].name};
      } else {
        assert ps[i].name !in Wanted(selected);
        labels := labels - {WorkloadLabel(ps[i].name)};
        deviceUpdated := true;
      }
    }
    assert ps[..|ps|] == ps;
  }

  /** The list and the labels after the workloads `added`, in that order. */
  ghost predicate Extended(kept: seq<Placement>, base: map<string, string>, added: seq<string>,
                           workloads: seq<Placement>, labels: map<string, string>) {
    workloads == kept + Deployments(added) && labels == WithLabels(base, added)
  }

  lemma ExtendedMore(kept: seq<Placement>, base: map<string, string>, added: seq<string>,
                     workloads: seq<Placement>, labels: map<string, string>, name: string)
    requires Extended(kept, base, added, workloads, labels)
    ensures Extended(kept, base, added + [name], workloads + [Placement(name, DEPLOYING)], labels[WorkloadLabel(name) := "true"])
  {
    assert Deployments(added + [name]) == Deployments(added) + [Placement(name, DEPLOYING)];
    assert (added + [name])[..|added|] == added;
  }

  lemma WantedRest(selected: map<string, bool>, rest: set<string>, name: string)
    requires name in rest && name in selected
    ensures Wanted(selected) - (rest - {name}) == Wanted(selected) - rest + (if selected[name] then {name} else {})
  {
  }

  lemma EnumeratesEmpty(added: seq<string>, elements: set<string>)
    requires Enumerates(added, elements)
    ensures added == [] <==> elements == {}
  {
    if added != [] {
      assert added[0] in elements;
    }
  }

  lemma EnumeratesMore(names: seq<string>, elements: set<string>, name: string)
    requires Enumerates(names, elements) && name !in elements
    ensures Enumerates(names + [name], elements + {name})
  {
  }

  /** The second loop: goes over what is left of the map, in any order. */
  method AddSelected(selected: map<string, bool>, kept: seq<Placement>, base: map<string, string>)
    returns (workloads: seq<Placement>, labels: map<string, string>, deviceUpdated: bool)
    ensures deviceUpdated <==> Wanted(selected) != {}
    ensures exists added :: Extended(kept, base, added, workloads, labels) && Enumerates(added, Wanted(selected))
  {
    workloads, labels, deviceUpdated := kept, base, false;
    var rest := selected.Keys;
    ghost var added: seq<string> := [];
    while rest != {}
      invariant rest <= selected.Keys
      invariant Enumerates(added, Wanted(selected) - rest)
      invariant Extended(kept, base, added, workloads, labels)
      invariant deviceUpdated <==> added != []
      decreases rest
    {
      var name :| name in rest;
      WantedRest(selected, rest, name);
      if selected[name] {
        deviceUpdated := true;
        ExtendedMore(kept, base, added, workloads, labels, name);
        EnumeratesMore(added, Wanted(selected) - rest, name);
        workloads := workloads + [Placement(name, DEPLOYING)];
        labels := labels[WorkloadLabel(name) := "true"];
        added := added + [name];
      }
      rest := rest - {name};
    }
    assert Wanted(selected) - rest == Wanted(selected);
    EnumeratesEmpty(added, Wanted(selected));
  }

  /** The new entries come in the order in which the map was iterated. */
  method CreateUpdatedDevice(selectedWorkloads: map<string, bool>, device: Device) returns (updated: Option<Device>)
    ensures exists added :: IsUpdate(Wanted(selectedWorkloads), device, updated, added)
  {
    var kept, base, selected, dropped := KeepSelected(selectedWorkloads, device);
    var workloads, labels, deployed := AddSelected(selected, kept, base);
    ghost var added :| Extended(kept, base, added, workloads, labels) && Enumerates(added, Wanted(selected));
    EnumeratesEmpty(added, Wanted(selected));
    updated := if dropped || deployed then Some(device.(workloads := workloads, labels := labels)) else None;
    assert IsUpdate(Wanted(selectedWorkloads), device, updated, added);
  }

  // ---------- What the new list means ----------

  lemma ListedName(ps: seq<Placement>, name: string)
    ensures ListedIn(ps, name) <==> name in NamesIn(ps)
  {
    if ListedIn(ps, name) {
      var i :| 0 <= i < |ps| && ps[i].name == name;
      assert ps[i] in ps;
    }
    if name in NamesIn(ps) {
      var p :| p in ps && p.name == name;
      var i :| 0 <= i < |ps| && ps[i] == p;
    }
  }

  /** The wanted entries of `ps`, in order. */
  function Restrict(ps: seq<Placement>, wanted: set<string>): seq<Placement> {
    if ps == [] then []
    else (if ps[0].name in wanted then [ps[0]] else []) + Restrict(ps[1..], wanted)
  }

  lemma RestrictIgnores(ps: seq<Placement>, wanted: set<string>, name: string)
    requires !ListedIn(ps, name)
    ensures Restrict(ps, wanted - {name}) == Restrict(ps, wanted)
  {
    if ps != [] {
      assert ps[0].name != name;
      assert forall i :: 0 <= i < |ps[1..]| ==> ps[1..][i] == ps[i + 1];
      RestrictIgnores(ps[1..], wanted, name);
    }
  }

  lemma {:induction false} KeptOfDistinct(ps: seq<Placement>, wanted: set<string>)
    requires DistinctNames(ps)
    ensures Kept(ps, wanted) == Restrict(ps, wanted)
    ensures forall l :: l in DroppedLabels(ps, wanted) <==> exists n :: n in NamesIn(ps) - wanted && l == WorkloadLabel(n)
    decreases |ps|
  {
    if ps != [] {
      var p, rest := ps[0], ps[1..];
      var left := if p.name in wanted then wanted - {p.name} else wanted;
      assert !ListedIn(rest, p.name) by {
        assert forall i :: 0 <= i < |rest| ==> rest[i] == ps[i + 1];
      }
      ListedName(rest, p.name);
      KeptOfDistinct(rest, left);
      if p.name in wanted {
        RestrictIgnores(rest, wanted, p.name);
      }
      assert NamesIn(ps) == {p.name} + NamesIn(rest) by {
        assert forall q :: q in ps <==> q == p || q in rest;
      }
      assert NamesIn(rest) - left == NamesIn(rest) - wanted;
      forall l ensures l in DroppedLabels(ps, wanted) <==> exists n :: n in NamesIn(ps) - wanted && l == WorkloadLabel(n) {
        if l in DroppedLabels(rest, left) {
          var n :| n in NamesIn(rest) - left && l == WorkloadLabel(n);
          assert n in NamesIn(ps) - wanted;
        }
        if p.name !in wanted && l == WorkloadLabel(p.name) {
          assert p.name in NamesIn(ps) - wanted;
        }
        if n :| n in NamesIn(ps) - wanted && l == WorkloadLabel(n) {
          assert n == p.name || n in NamesIn(rest) - left;
        }
      }
    }
  }

  lemma {:induction false} RestrictListed(ps: seq<Placement>, wanted: set<string>, name: string)
    ensures ListedIn(Restrict(ps, wanted), name) <==> name in wanted && ListedIn(ps, name)
    decreases |ps|
  {
    if ps != [] {
      var rest := Restrict(ps[1..], wanted);
      RestrictListed(ps[1..], wanted, name);
      assert ps == [ps[0]] + ps[1..];
      ListedConcat([ps[0]], ps[1..], name);
      ListedConcat([ps[0]], rest, name);
      ListedOne(ps[0], name);
      assert [] + rest == rest;
    }
  }

  lemma {:induction false} RestrictDistinct(ps: seq<Placement>, wanted: set<string>)
    requires DistinctNames(ps)
    ensures DistinctNames(Restrict(ps, wanted))
    decreases |ps|
  {
    if ps != [] {
      RestrictDistinct(ps[1..], wanted);
      RestrictListed(ps[1..], wanted, ps[0].name);
      assert !ListedIn(ps[1..], ps[0].name);
    }
  }

  lemma {:induction false} RestrictLength(ps: seq<Placement>, wanted: set<string>)
    ensures |Restrict(ps, wanted)| <= |ps|
    ensures |Restrict(ps, wanted)| == |ps| <==> NamesIn(ps) <= wanted
    decreases |ps|
  {
    if ps != [] {
      RestrictLength(ps[1..], wanted);
      assert NamesIn(ps) == {ps[0].name} + NamesIn(ps[1..]) by {
        assert forall q :: q in ps <==> q == ps[0] || q in ps[1..];
      }
    }
  }

  /** Exactly the wanted entries remain, as they were and in their order. */
  lemma {:induction false} RestrictExactly(ps: seq<Placement>, wanted: set<string>) returns (positions: seq<nat>)
    ensures |positions| == |Restrict(ps, wanted)| && ReworkedAt(ps, Restrict(ps, wanted), positions)
    ensures forall p :: p in Restrict(ps, wanted) <==> p in ps && p.name in wanted
    decreases |ps|
  {
    if ps == [] {
      positions := [];
    } else {
      var kept := Restrict(ps[1..], wanted);
      var rest := RestrictExactly(ps[1..], wanted);
      positions := ReworkedCons(ps, kept, rest, ps[0].name in wanted);
      assert forall p :: p in ps <==> p == ps[0] || p in ps[1..];
    }
  }

  lemma RestrictThenDeploy(ps: seq<Placement>, wanted: set<string>, added: seq<string>)
    requires forall n :: n in added ==> !ListedIn(ps, n)
    ensures Reworked(ps, Restrict(ps, wanted) + Deployments(added))
  {
    var positions := RestrictExactly(ps, wanted);
    var kept, after := Restrict(ps, wanted), Restrict(ps, wanted) + Deployments(added);
    forall i | |positions| <= i < |after| ensures after[i].phase == "Deploying" && !ListedIn(ps, after[i].name) {
      assert after[i] == Deployments(added)[i - |kept|];
      assert added[i - |kept|] in added;
    }
    assert ReworkedAt(ps, after, positions);
  }

  lemma DeploymentsListed(names: seq<string>, name: string)
    ensures ListedIn(Deployments(names), name) <==> name in names
  {
    if name in names {
      var i :| 0 <= i < |names| && names[i] == name;
      assert Deployments(names)[i].name == name;
    }
  }

  lemma {:induction false} WithLabelsKeys(labels: map<string, string>, names: seq<string>, k: string)
    ensures k in WithLabels(labels, names) <==> k in labels || exists n :: n in names && k == WorkloadLabel(n)
    ensures k in labels && (forall n :: n in names ==> k != WorkloadLabel(n)) ==> WithLabels(labels, names)[k] == labels[k]
    ensures (exists n :: n in names && k == WorkloadLabel(n)) ==> WithLabels(labels, names)[k] == "true"
    decreases |names|
  {
    if names != [] {
      var front, last := names[..|names| - 1], names[|names| - 1];
      WithLabelsKeys(labels, front, k);
      assert forall n :: n in names <==> n in front || n == last;
      if n :| n in front && k == WorkloadLabel(n) {
        assert n in names;
      }
      if n :| n in names && k == WorkloadLabel(n) {
        assert n in front || n == last;
      }
      if k == WorkloadLabel(last) {
        assert last in names;
      }
    }
  }

  /** Whatever the order in which the map was iterated, the device returned lists exactly the wanted workloads, each
      once: first the kept entries, unchanged and in their old order, then the new ones as Deploying. */
  lemma UpdateIsExact(wanted: set<string>, d: Device, updated: Option<Device>, added: seq<string>)
    requires DistinctNames(d.workloads) && IsUpdate(wanted, d, updated, added)
    ensures updated.None? <==> NamesIn(d.workloads) == wanted
    ensures updated.Some? ==>
              && updated.value.name == d.name && updated.value.deleting == d.deleting
              && DistinctNames(updated.value.workloads)
              && (forall n :: Lists(updated.value, n) <==> n in wanted)
              && updated.value.workloads == Restrict(d.workloads, wanted) + Deployments(added)
              && Reworked(d.workloads, updated.value.workloads)
              && (forall n :: n in added <==> n in wanted && !Lists(d, n))
  {
    var ps := d.workloads;
    KeptOfDistinct(ps, wanted);
    RestrictLength(ps, wanted);
    RestrictDistinct(ps, wanted);
    assert added == [] <==> wanted <= NamesIn(ps) by {
      if added != [] {
        assert added[0] in wanted - NamesIn(ps);
      } else {
        forall n | n in wanted ensures n in NamesIn(ps) {
          assert n in wanted - NamesIn(ps) ==> n in added;
        }
      }
    }
    if updated.Some? {
      var kept, deployed := Restrict(ps, wanted), Deployments(added);
      forall n
        ensures Lists(updated.value, n) <==> n in wanted
        ensures n in added <==> n in wanted && !Lists(d, n)
      {
        ListedConcat(kept, deployed, n);
        RestrictListed(ps, wanted, n);
        DeploymentsListed(added, n);
        ListedName(ps, n);
      }
      forall i, j | 0 <= i < |kept| && 0 <= j < |deployed| ensures kept[i].name != deployed[j].name {
        RestrictListed(ps, wanted, kept[i].name);
        ListedName(ps, kept[i].name);
        assert ListedIn(kept, kept[i].name);
        assert added[j] in added;
      }
      assert DistinctNames(kept + deployed);
      RestrictThenDeploy(ps, wanted, added);
    }
  }

  /** The labels of the device returned: those of other kinds are untouched, a dropped entry's placement label
      goes, a new entry's comes, and every other placement label stays as it was. */
  lemma UpdateOfLabels(wanted: set<string>, d: Device, updated: Option<Device>, added: seq<string>)
    requires DistinctNames(d.workloads) && IsUpdate(wanted, d, updated, added) && updated.Some?
    ensures SameUserLabels(d.labels, updated.value.labels)
    ensures forall n :: Labelled(updated.value, n) <==>
              (n in wanted && !Lists(d, n)) || (Labelled(d, n) && (n in wanted || !Lists(d, n)))
  {
    KeptOfDistinct(d.workloads, wanted);
    UpdateIsExact(wanted, d, updated, added);
    var base := d.labels - DroppedLabels(d.workloads, wanted);
    forall k | !IsWorkloadLabel(k)
      ensures (k in d.labels <==> k in updated.value.labels) && (k in d.labels ==> d.labels[k] == updated.value.labels[k])
    {
      forall n ensures k != WorkloadLabel(n) {
        WorkloadLabelsDistinct(n, n);
      }
      WithLabelsKeys(base, added, k);
    }
    forall n
      ensures Labelled(updated.value, n) <==>
              (n in wanted && !Lists(d, n)) || (Labelled(d, n) && (n in wanted || !Lists(d, n)))
    {
      WithLabelsKeys(base, added, WorkloadLabel(n));
      ListedName(d.workloads, n);
      forall m | WorkloadLabel(m) == WorkloadLabel(n) ensures m == n {
        WorkloadLabelsDistinct(m, n);
      }
    }
  }

  /** A new placement label has the value "true", and one that stays keeps its value. */
  lemma UpdateOfLabelValues(wanted: set<string>, d: Device, updated: Option<Device>, added: seq<string>, n: string)
    requires DistinctNames(d.workloads) && IsUpdate(wanted, d, updated, added) && updated.Some?
    requires ("workload/" + n) in updated.value.labels
    ensures n in wanted && !Lists(d, n) ==> updated.value.labels["workload/" + n] == "true"
    ensures !(n in wanted && !Lists(d, n)) ==>
      ("workload/" + n) in d.labels && updated.value.labels["workload/" + n] == d.labels["workload/" + n]
  {
    UpdateIsExact(wanted, d, updated, added);
    var base := d.labels - DroppedLabels(d.workloads, wanted);
    WithLabelsKeys(base, added, WorkloadLabel(n));
    forall m | WorkloadLabel(m) == WorkloadLabel(n) ensures m == n {
      WorkloadLabelsDistinct(m, n);
    }
  }

  ghost predicate Agreement(d: Device) {
    forall n :: Lists(d, n) <==> Labelled(d, n)
  }

  /** The returned device agrees in status and labels if the given one did, and needs no further update. */
  lemma UpdateIsStable(wanted: set<string>, d: Device, updated: Option<Device>, added: seq<string>,
                       again: Option<Device>, added': seq<string>)
    requires DistinctNames(d.workloads) && IsUpdate(wanted, d, updated, added) && updated.Some?
    requires IsUpdate(wanted, updated.value, again, added')
    ensures again.None?
    ensures Agreement(d) ==> Agreement(updated.value)
  {
    UpdateIsExact(wanted, d, updated, added);
    UpdateOfLabels(wanted, d, updated, added);
    UpdateIsExact(wanted, updated.value, again, added');
    forall n ensures n in NamesIn(updated.value.workloads) <==> n in wanted {
      ListedName(updated.value.workloads, n);
    }
    assert NamesIn(updated.value.workloads) == wanted;
  }

  // ---------- The reconciler ----------

  /** The stored labels after the second patch of updateWorkloads. The status patch before it may have replaced the
      object in memory by the server's answer, as the vendored client does
      (vendor/sigs.k8s.io/controller-runtime/pkg/client/apiutil/apimachinery.go:184-196); the labels to be
      written are then the stored ones. */
  function LabelsToWrite(writeBack: bool, stored: Device, updated: Device): map<string, string> {
    if writeBack then stored.labels else updated.labels
  }

  /** The store and the outcome after the patches of updateWorkloads. */
  ghost predicate Patched(writeBack: bool, s: State, d: Device, updated: Option<Device>, faults: set<Call>, s': State, ok: bool) {
    match updated
    case None => s' == s && ok
    case Some(u) =>
      var d1 := d.(workloads := u.workloads);
      if PatchStatus(d.name) in faults then s' == s && !ok
      else if PatchLabels(d.name) in faults then s' == s.(devices := s.devices[d.name := d1]) && !ok
      else
        var d2 := d1.(labels := MergePatch(d.labels, d.labels, LabelsToWrite(writeBack, d, u)));
        s' == s.(devices := s.devices[d.name := d2]) && ok
  }

  /** What one reconcile of the device `name` may do to the store, and whether it returns no error. */
  ghost predicate Reconciles(writeBack: bool, s: State, name: string, faults: set<Call>, s': State, ok: bool) {
    if ReadDevice in faults then s' == s && !ok
    else if name !in s.devices || s.devices[name].deleting then s' == s && ok
    else if LookupFails(s, s.devices[name], faults) then s' == s && !ok
    else
      var d := s.devices[name];
      exists updated, added :: IsUpdate(Matched(s, d), d, updated, added) && Patched(writeBack, s, d, updated, faults, s', ok)
  }

  /** Each workload of the map was matched against the device, with the result it holds. */
  ghost predicate Decides(s: State, d: Device, selected: map<string, bool>) {
    forall n :: n in selected ==> n in s.workloads && IsWorkloadMatchDevice(s.workloads[n], d) == Some(selected[n])
  }

  lemma UndecidedCandidate(s: State, d: Device, q: string, n: string, faults: set<Call>)
    requires q in Queries(d) && n in Answers(s.workloads, d, q) && IsWorkloadMatchDevice(s.workloads[n], d).None?
    ensures LookupFails(s, d, faults)
  {
    assert n in Candidates(s, d);
  }

  ghost predicate NoneFails(qs: set<string>, faults: set<Call>) {
    forall q :: q in qs ==> ListByLabel(q) !in faults
  }

  lemma AllDecided(s: State, d: Device, faults: set<Call>, selected: map<string, bool>)
    requires Decides(s, d, selected) && selected.Keys == Candidates(s, d) && NoneFails(Queries(d).Keys, faults)
    ensures Wanted(selected) == Matched(s, d) && !LookupFails(s, d, faults)
  {
  }

  lemma OneMoreQuery(workloads: map<string, Workload>, d: Device, done: set<string>, q: string)
    requires q in Queries(d)
    ensures CandidatesOf(workloads, d, done + {q}) == CandidatesOf(workloads, d, done) + Answers(workloads, d, q)
  {
  }

  class EdgeDeviceLabelsReconciler {
    const cluster: Cluster
    const writeBack: bool

    constructor (cluster: Cluster, writeBack: bool)
      ensures this.cluster == cluster && this.writeBack == writeBack
    {
      this.cluster, this.writeBack := cluster, writeBack;
    }

    /** Matches the workloads of one query against the device, except those it has matched before. */
    method TestAll(workloads: set<string>, d: Device, selected0: map<string, bool>) returns (ok: bool, selected: map<string, bool>)
      requires workloads <= cluster.workloads.Keys && selected0.Keys <= cluster.workloads.Keys
      requires Decides(cluster.Snapshot(), d, selected0)
      ensures ok ==> selected.Keys == selected0.Keys + workloads && Decides(cluster.Snapshot(), d, selected)
      ensures !ok ==> exists n :: n in workloads && IsWorkloadMatchDevice(cluster.workloads[n], d).None?
    {
      selected := selected0;
      var rest := workloads;
      while rest != {}
        invariant rest <= workloads
        invariant selected.Keys == selected0.Keys + (workloads - rest)
        invariant Decides(cluster.Snapshot(), d, selected)
        decreases rest
      {
        var n :| n in rest;
        rest := rest - {n};
        if n in selected {
          continue;
        }
        var matches := IsWorkloadMatchDevice(cluster.workloads[n], d);
        if matches.None? {
          return false, map[];
        }
        selected := selected[n := matches.value];
      }
      ok := true;
    }

    /** One query of updateWorkloads. */
    method SelectByQuery(q: string, d: Device, faults: set<Call>, selected0: map<string, bool>)
      returns (ok: bool, selected: map<string, bool>)
      requires q in Queries(d) && Decides(cluster.Snapshot(), d, selected0)
      ensures ok ==> ListByLabel(q) !in faults && Decides(cluster.Snapshot(), d, selected)
      ensures ok ==> selected.Keys == selected0.Keys + Answers(cluster.workloads, d, q)
      ensures !ok ==> LookupFails(cluster.Snapshot(), d, faults)
    {
      if ListByLabel(q) in faults {
        return false, map[];
      }
      ok, selected := TestAll(Answers(cluster.workloads, d, q), d, selected0);
      if !ok {
        ghost var n :| n in Answers(cluster.workloads, d, q) && IsWorkloadMatchDevice(cluster.workloads[n], d).None?;
        UndecidedCandidate(cluster.Snapshot(), d, q, n, faults);
      }
    }

    /** The lookup of updateWorkloads, query by query in any order. */
    method SelectWorkloads(d: Device, faults: set<Call>) returns (ok: bool, selected: map<string, bool>)
      ensures ok == !LookupFails(cluster.Snapshot(), d, faults)
      ensures ok ==> Wanted(selected) == Matched(cluster.Snapshot(), d)
    {
      var selectorLabels := CreateSelectorLabelsMap(d);
      ghost var done: set<string> := {};
      var rest := selectorLabels.Keys;
      selected := map[];
      while rest != {}
        invariant rest <= selectorLabels.Keys && done == selectorLabels.Keys - rest
        invariant NoneFails(done, faults) && Decides(cluster.Snapshot(), d, selected)
        invariant selected.Keys == CandidatesOf(cluster.workloads, d, done)
        decreases rest
      {
        var q :| q in rest;
        OneMoreQuery(cluster.workloads, d, done, q);
        ok, selected := SelectByQuery(q, d, faults, selected);
        if !ok {
          return false, map[];
        }
        done := done + {q};
        rest := rest - {q};
      }
      assert done == Queries(d).Keys;
      AllDecided(cluster.Snapshot(), d, faults, selected);
      ok := true;
    }

    /** The status patch, then the label patch. */
    method PatchUpdated(device: Device, updated: Option<Device>, faults: set<Call>) returns (ok: bool)
      requires device.name in cluster.devices && cluster.devices[device.name] == device
      modifies cluster
      ensures Patched(writeBack, old(cluster.Snapshot()), device, updated, faults, cluster.Snapshot(), ok)
    {
      if updated.None? {
        return true;
      }
      ok := cluster.PatchStatus(device, updated.value.workloads, faults);
      if ok {
        ok := cluster.PatchLabels(device, LabelsToWrite(writeBack, device, updated.value), faults);
      }
    }

    /** One reconcile. */
    method Reconcile(name: string, faults: set<Call>) returns (ok: bool)
      requires NamedByKey(cluster.devices)
      modifies cluster
      ensures Reconciles(writeBack, old(cluster.Snapshot()), name, faults, cluster.Snapshot(), ok)
    {
      if ReadDevice in faults {
        return false;
      }
      if name !in cluster.devices || cluster.devices[name].deleting {
        return true;
      }
      var device := cluster.devices[name];
      var found, selected := SelectWorkloads(device, faults);
      if !found {
        return false;
      }
      var updated := CreateUpdatedDevice(selected, device);
      ghost var added :| IsUpdate(Wanted(selected), device, updated, added);
      ok := PatchUpdated(device, updated, faults);
    }
  }

  /** The device reconciler's verdict on a workload: some query finds it, and it matches. */
  predicate Finds(w: Workload, d: Device) {
    !w.deleting && Hit(w, d) && IsWorkloadMatchDevice(w, d) == Some(true)
  }

  /** The matched workloads are those found; with one way of choosing devices, those hit and selected. */
  lemma MatchedExactly(s: State, d: Device, n: string)
    ensures n in Matched(s, d) <==> n in s.workloads && Finds(s.workloads[n], d)
    ensures d.name != "" && n in s.workloads && OneTarget(s.workloads[n]) ==>
      (Finds(s.workloads[n], d) <==> !s.workloads[n].deleting && Hit(s.workloads[n], d) && Selects(s.workloads[n], d))
  {
    if n in s.workloads {
      var w := s.workloads[n];
      if d.name != "" {
        MatchersAgree(w, d);
      }
      assert n in Candidates(s, d) <==> Hit(w, d);
      assert w.deleting ==> WorkloadIndexKeys(w) == {};
    }
  }

  /** With a well-formed target and without a device label `devicename` they agree. */
  lemma VerdictsAgree(w: Workload, d: Device)
    requires !w.deleting && InSync(w) && WellFormedTarget(w)
    requires d.name != "" && DEVICE_NAME_LABEL !in d.labels
    ensures Finds(w, d) <==> Selects(w, d)
  {
    MatchersAgree(w, d);
    if Selects(w, d) {
      IndexComplete(w, d);
    }
  }

  /** Index-then-filter finds what testing every live workload directly would find. */
  lemma IndexThenFilter(s: State, d: Device)
    requires d.name != "" && DEVICE_NAME_LABEL !in d.labels
    requires forall n :: n in s.workloads && !s.workloads[n].deleting ==> InSync(s.workloads[n]) && WellFormedTarget(s.workloads[n])
    ensures Matched(s, d) == set n | n in s.workloads && !s.workloads[n].deleting && Selects(s.workloads[n], d)
  {
    forall n | n in s.workloads
      ensures n in Matched(s, d) <==> !s.workloads[n].deleting && Selects(s.workloads[n], d)
    {
      MatchedExactly(s, d, n);
      if !s.workloads[n].deleting {
        VerdictsAgree(s.workloads[n], d);
      }
    }
  }

  lemma HitDisjoint(w: Workload, d: Device)
    requires !w.deleting && InSync(w)
    ensures Hit(w, d) <==> !(DeviceAsks(d) !! SpecAnswers(w))
  {
    HitExactly(w, d);
    var common := DeviceAsks(d) * SpecAnswers(w);
    if key :| key in common {
      assert key in DeviceAsks(d) && key in SpecAnswers(w);
    }
    if key :| key in DeviceAsks(d) && key in SpecAnswers(w) {
      assert key in common;
    }
  }

  /** The device is not the one that the workload names, and matches its selector all the same. */
  predicate MatchesElsewhere(w: Workload, d: Device) {
    && w.device != "" && w.device != d.name && w.selector.Some?
    && SelectorValid(w.selector.value) && SelectorMatches(w.selector.value, d.labels)
  }

  /** Exactly when the two reconcilers disagree about a live synchronised workload on a device: the device is selected
      and asks for no key of the workload, or it matches elsewhere and asks for one. */
  lemma VerdictsDifferExactly(w: Workload, d: Device)
    requires !w.deleting && InSync(w) && d.name != ""
    ensures Finds(w, d) != Selects(w, d) <==>
      || (Selects(w, d) && DeviceAsks(d) !! SpecAnswers(w))
      || (MatchesElsewhere(w, d) && !(DeviceAsks(d) !! SpecAnswers(w)))
  {
    HitDisjoint(w, d);
    MatchersAgree(w, d);
    var matches := IsWorkloadMatchDevice(w, d) == Some(true);
    assert matches != Selects(w, d) <==> MatchesElsewhere(w, d);
    assert MatchesElsewhere(w, d) ==> !Selects(w, d);
    assert Finds(w, d) <==> Hit(w, d) && matches;
  }

  /** Placement labels play no part in either verdict. */
  lemma VerdictsStable(w: Workload, d: Device, d': Device)
    requires Plain(w) && d'.name == d.name && SameUserLabels(d.labels, d'.labels)
    ensures Finds(w, d') == Finds(w, d) && Selects(w, d') == Selects(w, d)
  {
    SelectionStable(w, d, d');
    HitStable(w, d, d');
  }
}
