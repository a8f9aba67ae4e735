/** With nothing failing and nothing else changing, the workload reconciler comes to rest; where everything is right, so do
    both reconcilers. */
module Quiescence {
  import opened Labels
  import opened Entities
  import opened Index
  import opened FanOut
  import opened WorkloadReconciler
  import opened DeviceLabelsReconciler
  import opened PlacementRuns

  /** The device lacks an entry or a label it should have, or is found as a holder and should not hold. */
  ghost predicate Misplaced(lookup: Lookup, s: State, n: string, dn: string)
    requires n in s.workloads && dn in s.devices
  {
    if Selects(s.workloads[n], s.devices[dn]) then !Lists(s.devices[dn], n) || !Labelled(s.devices[dn], n)
    else Holds(lookup, s.devices[dn], n)
  }

  /** How far the workload is from rest. */
  ghost function Stage(lookup: Lookup, s: State, n: string): nat
    requires n in s.workloads
  {
    if FINALIZER !in s.workloads[n].finalizers then 3
    else if !InSync(s.workloads[n]) then 2
    else if exists dn :: dn in s.devices && Misplaced(lookup, s, n, dn) then 1
    else 0
  }

  /** An eviction takes the device off the holders: always with the index; a label query finds it again. */
  ghost predicate CanRest(lookup: Lookup, s: State, n: string)
    requires n in s.workloads
  {
    lookup == FieldIndex
    || forall dn :: dn in s.devices && Holds(lookup, s.devices[dn], n) ==> Selects(s.workloads[n], s.devices[dn])
  }

  /** A live workload whose devices can be looked up. */
  ghost predicate Live(s: State, n: string) {
    && n in s.workloads && !s.workloads[n].deleting
    && (s.workloads[n].device != "" || s.workloads[n].selector.None? || SelectorValid(s.workloads[n].selector.value))
  }

  lemma MetadataOnly(s: State, n: string, to: Workload)
    requires WellFormed(s) && n in s.workloads && !s.workloads[n].deleting
    requires to == s.workloads[n].(labels := to.labels, finalizers := to.finalizers)
    ensures WithWorkload(s, s.workloads[n], to) == s.(workloads := s.workloads[n := to])
  {
    MergePatchOfCurrent(s.workloads[n].labels, to.labels);
  }

  lemma NoFaults(job: Job, d: Device)
    ensures DeviceErrors(job, d, {}) == []
  {
  }

  lemma WritesExactly(lookup: Lookup, s: State, n: string, placed: map<string, Device>)
    requires WellFormed(s) && Live(s, n) && placed.Keys == s.devices.Keys
    requires forall dn :: dn in Matching(s, s.workloads[n]) ==>
      (NewStatus(Place(n), s.devices[dn]).Some? || NewLabels(Place(n), s.devices[dn]).Some? <==> Misplaced(lookup, s, n, dn))
    requires var matching := Matching(s, s.workloads[n]);
      forall dn :: dn in Holders(lookup, s, n) ==>
        && (NewStatus(Evict(n, matching), placed[dn]).Some? <==> dn !in matching)
        && (NewLabels(Evict(n, matching), placed[dn]).Some? ==> dn !in matching)
    ensures var matching := Matching(s, s.workloads[n]);
      JobWrites(Place(n), matching, s.devices) || JobWrites(Evict(n, matching), Holders(lookup, s, n), placed)
      <==> exists dn :: dn in s.devices && Misplaced(lookup, s, n, dn)
  {
    var matching, holders := Matching(s, s.workloads[n]), Holders(lookup, s, n);
    if dn :| dn in s.devices && Misplaced(lookup, s, n, dn) {
      if dn in matching {
        assert JobWrites(Place(n), matching, s.devices);
      } else {
        assert dn in holders && NewStatus(Evict(n, matching), placed[dn]).Some?;
      }
    }
  }

  /** A failure-free reconcile of a synchronised workload sends nothing exactly when no device is misplaced. */
  lemma RestExactly(lookup: Lookup, s: State, n: string)
    requires WellFormed(s) && Live(s, n) && Reaches(s, n)
    ensures !Reconciled(lookup, s, n, {}).wrote <==> forall dn :: dn in s.devices ==> !Misplaced(lookup, s, n, dn)
  {
    var w := s.workloads[n];
    var matching, holders := Matching(s, w), Holders(lookup, s, n);
    var placed := OnDevices(Place(n), matching, {}, s.devices);
    forall dn | dn in matching
      ensures NewStatus(Place(n), s.devices[dn]).Some? || NewLabels(Place(n), s.devices[dn]).Some? <==> Misplaced(lookup, s, n, dn)
    {
    }
    PlacedElsewhere(n, matching, {}, s.devices);
    forall dn | dn in holders
      ensures NewStatus(Evict(n, matching), placed[dn]).Some? <==> dn !in matching
      ensures NewLabels(Evict(n, matching), placed[dn]).Some? ==> dn !in matching
    {
      assert placed[dn].name == dn;
    }
    assert !JobFails(Place(n), matching, {}, s.devices) by {
      forall dn | dn in matching ensures DeviceErrors(Place(n), s.devices[dn], {}) == [] {
        NoFaults(Place(n), s.devices[dn]);
      }
    }
    assert Reconciled(lookup, s, n, {}).wrote
       <==> JobWrites(Place(n), matching, s.devices) || JobWrites(Evict(n, matching), holders, placed);
    WritesExactly(lookup, s, n, placed);
  }

  lemma KeepsAll(s: State, n: string, matching: set<string>, holders: set<string>, faults: set<Call>)
    requires NamedByKey(s.devices) && holders <= matching
    ensures var job := Evict(n, matching);
      && OnDevices(job, holders, faults, s.devices) == s.devices
      && !JobFails(job, holders, faults, s.devices) && !JobWrites(job, holders, s.devices)
  {
  }

  /** Where no device is misplaced, a reconcile sends nothing and leaves the store alone, even if calls fail. */
  lemma NothingSentAtRest(lookup: Lookup, s: State, n: string, faults: set<Call>)
    requires WellFormed(s) && n in s.workloads && !s.workloads[n].deleting && Reaches(s, n)
    requires forall dn :: dn in s.devices ==> !Misplaced(lookup, s, n, dn)
    ensures var r := Reconciled(lookup, s, n, faults);
            r.state == s && !r.wrote && (Live(s, n) && faults == {} ==> r.ok && !r.requeue)
  {
    var w := s.workloads[n];
    var matching, holders := Matching(s, w), Holders(lookup, s, n);
    forall dn | dn in s.devices
      ensures OnDevices(Place(n), matching, faults, s.devices)[dn] == s.devices[dn]
      ensures dn in matching ==> DeviceErrors(Place(n), s.devices[dn], faults) == [] && !Sends(Place(n), s.devices[dn])
    {
      assert !Misplaced(lookup, s, n, dn);
    }
    assert OnDevices(Place(n), matching, faults, s.devices) == s.devices;
    assert !JobFails(Place(n), matching, faults, s.devices) && !JobWrites(Place(n), matching, s.devices);
    forall dn | dn in holders ensures dn in matching {
      assert !Misplaced(lookup, s, n, dn);
    }
    KeepsAll(s, n, matching, holders, faults);
  }

  lemma HoldingUnchanged(d: Device, d': Device, n: string)
    requires SameUserLabels(d.labels, d'.labels)
    ensures Holds(LabelQuery, d', n) == Holds(LabelQuery, d, n)
  {
    assert !IsWorkloadLabel(DEVICE_BY_WORKLOAD_INDEX_KEY) by {
      assert DEVICE_BY_WORKLOAD_INDEX_KEY[0] != WORKLOAD_LABEL_PREFIX[0];
    }
  }

  lemma AllSucceed(lookup: Lookup, s: State, n: string)
    requires WellFormed(s) && Live(s, n) && Reaches(s, n)
    ensures var r := Reconciled(lookup, s, n, {});
      r.ok && r.state.workloads == s.workloads && r.state.devices.Keys == s.devices.Keys
  {
    WorkloadRunKeys(lookup, s, n, {});
    forall job: Job, d { NoFaults(job, d); }
  }

  lemma RightAfterwards(lookup: Lookup, s: State, n: string, dn: string)
    requires WellFormed(s) && Live(s, n) && PlainIn(s, n) && Reaches(s, n) && dn in s.devices
    requires lookup == FieldIndex || (Holds(lookup, s.devices[dn], n) ==> Selects(s.workloads[n], s.devices[dn]))
    ensures var s' := Reconciled(lookup, s, n, {}).state;
      s'.workloads == s.workloads && dn in s'.devices && !Misplaced(lookup, s', n, dn)
  {
    var d := s.devices[dn];
    AllSucceed(lookup, s, n);
    WorkloadRunMoves(lookup, s, n, {}, dn);
    var d' := Reconciled(lookup, s, n, {}).state.devices[dn];
    WorkloadRunSettles(lookup, s, n, {}, dn);
    SelectionStable(s.workloads[n], d, d');
    if lookup == FieldIndex {
      DeviceIndexIsLabel(d, n);
      DeviceIndexIsLabel(d', n);
    } else {
      HoldingUnchanged(d, d', n);
    }
  }

  /** A reconcile of the last stage puts every device right. */
  lemma PlacementDone(lookup: Lookup, s: State, n: string)
    requires WellFormed(s) && Live(s, n) && PlainIn(s, n) && Reaches(s, n) && CanRest(lookup, s, n)
    ensures var r := Reconciled(lookup, s, n, {});
            r.ok && r.state.workloads == s.workloads && Stage(lookup, r.state, n) == 0 && CanRest(lookup, r.state, n)
  {
    AllSucceed(lookup, s, n);
    var s' := Reconciled(lookup, s, n, {}).state;
    forall dn | dn in s.devices ensures !Misplaced(lookup, s', n, dn) {
      RightAfterwards(lookup, s, n, dn);
    }
    forall dn | dn in s'.devices && Holds(lookup, s'.devices[dn], n) ensures Selects(s'.workloads[n], s'.devices[dn]) {
      assert !Misplaced(lookup, s', n, dn);
    }
  }

  /** Every failure-free reconcile of a live workload that is not at rest brings it closer; at rest it sends nothing. */
  lemma ReconcileProgress(lookup: Lookup, s: State, n: string)
    requires WellFormed(s) && Live(s, n) && PlainIn(s, n) && CanRest(lookup, s, n)
    ensures var r := Reconciled(lookup, s, n, {});
            && r.ok && WellFormed(r.state) && Live(r.state, n) && PlainIn(r.state, n) && CanRest(lookup, r.state, n)
            && (Stage(lookup, s, n) > 0 ==> Stage(lookup, r.state, n) < Stage(lookup, s, n))
            && (Stage(lookup, s, n) == 0 ==> r.state == s && !r.wrote && !r.requeue)
  {
    var w := s.workloads[n];
    var r := Reconciled(lookup, s, n, {});
    StepKeepsWellFormed(Config(lookup, true), s, WorkloadRun(n, {}, r.ok), r.state);
    if FINALIZER !in w.finalizers {
      MetadataOnly(s, n, w.(finalizers := [FINALIZER]));
    } else if !InSync(w) {
      MetadataOnly(s, n, w.(labels := SelectorLabels(w)));
      StaleSelectorLabelsIgnored(w, w.labels);
      assert r.state.workloads[n] == w.(labels := SelectorLabels(w));
    } else if Stage(lookup, s, n) == 0 {
      NothingSentAtRest(lookup, s, n, {});
    } else {
      PlacementDone(lookup, s, n);
    }
  }

  /** Each state is what a reconcile of the workload without failures leaves of the one before. */
  ghost predicate Repeats(lookup: Lookup, n: string, trace: seq<State>) {
    forall i :: 0 < i < |trace| && WellFormed(trace[i - 1]) ==> trace[i] == Reconciled(lookup, trace[i - 1], n, {}).state
  }

  lemma {:induction false} RepeatsKeep(lookup: Lookup, n: string, trace: seq<State>, k: nat)
    requires Repeats(lookup, n, trace) && k < |trace| && WellFormed(trace[0])
    ensures WellFormed(trace[k]) && trace[k].devices.Keys == trace[0].devices.Keys
    ensures Inv(trace[0], n) ==> Inv(trace[k], n)
    decreases k
  {
    if k > 0 {
      RepeatsKeep(lookup, n, trace, k - 1);
      var s := trace[k - 1];
      var e := WorkloadRun(n, {}, Reconciled(lookup, s, n, {}).ok);
      StepKeepsWellFormed(Config(lookup, true), s, e, trace[k]);
      if Inv(s, n) {
        StepKeepsBacked(Config(lookup, true), s, e, trace[k], n);
      }
    }
  }

  /** The workload can come to rest, and is at most `stage` reconciles away from it. */
  ghost predicate Nearing(lookup: Lookup, s: State, n: string, stage: nat) {
    WellFormed(s) && Live(s, n) && PlainIn(s, n) && CanRest(lookup, s, n) && Stage(lookup, s, n) <= stage
  }

  lemma {:induction false} StageAfter(lookup: Lookup, trace: seq<State>, n: string, k: nat)
    requires Repeats(lookup, n, trace) && k < |trace| && Nearing(lookup, trace[0], n, 3)
    ensures Nearing(lookup, trace[k], n, if k < 3 then 3 - k else 0)
    decreases k
  {
    if k > 0 {
      StageAfter(lookup, trace, n, k - 1);
      ReconcileProgress(lookup, trace[k - 1], n);
    }
  }

  /** Three reconciles suffice: every later one changes and sends nothing, every matching device then lists the
      workload and carries its label, and with the index entry and label are right on every device. */
  lemma AtMostThreeReconciles(lookup: Lookup, trace: seq<State>, n: string, dn: string, k: nat)
    requires Repeats(lookup, n, trace) && 3 <= k < |trace|
    requires WellFormed(trace[0]) && Live(trace[0], n) && PlainIn(trace[0], n) && CanRest(lookup, trace[0], n)
    ensures WellFormed(trace[k])
    ensures var r := Reconciled(lookup, trace[k], n, {});
            r.state == trace[k] && r.ok && !r.requeue && !r.wrote
    ensures dn in trace[0].devices ==>
      && dn in trace[k].devices
      && (Target(trace[k], n, dn) ==> Lists(trace[k].devices[dn], n) && Labelled(trace[k].devices[dn], n))
      && (lookup == FieldIndex && Inv(trace[0], n) ==> Right(trace[k], n, dn))
  {
    StageAfter(lookup, trace, n, k);
    RepeatsKeep(lookup, n, trace, k);
    var end := trace[k];
    ReconcileProgress(lookup, end, n);
    if dn in end.devices {
      assert !Misplaced(lookup, end, n, dn);
      DeviceIndexIsLabel(end.devices[dn], n);
    }
  }

  /** The label query returns a device that the workload does not match. */
  ghost predicate Stuck(s: State, n: string, dn: string) {
    && WellFormed(s) && Live(s, n) && PlainIn(s, n)
    && dn in s.devices && Holds(LabelQuery, s.devices[dn], n) && !Selects(s.workloads[n], s.devices[dn])
  }

  /** How many patches of the workload's own metadata are still to come. */
  ghost function MetadataLeft(w: Workload): nat {
    if FINALIZER !in w.finalizers then 2 else if !InSync(w) then 1 else 0
  }

  lemma MetadataProgress(lookup: Lookup, s: State, n: string)
    requires WellFormed(s) && Live(s, n)
    ensures var s' := Reconciled(lookup, s, n, {}).state;
      && WellFormed(s') && Live(s', n)
      && s'.workloads[n] == s.workloads[n].(labels := s'.workloads[n].labels, finalizers := s'.workloads[n].finalizers)
      && (MetadataLeft(s.workloads[n]) > 0 ==> MetadataLeft(s'.workloads[n]) < MetadataLeft(s.workloads[n]))
      && (MetadataLeft(s.workloads[n]) == 0 ==> s'.workloads == s.workloads)
  {
    var w := s.workloads[n];
    var r := Reconciled(lookup, s, n, {});
    StepKeepsWellFormed(Config(lookup, true), s, WorkloadRun(n, {}, r.ok), r.state);
    if FINALIZER !in w.finalizers {
      MetadataOnly(s, n, w.(finalizers := [FINALIZER]));
    } else if !InSync(w) {
      MetadataOnly(s, n, w.(labels := SelectorLabels(w)));
      StaleSelectorLabelsIgnored(w, w.labels);
    } else {
      AllSucceed(lookup, s, n);
    }
  }

  lemma StuckStays(s: State, n: string, dn: string)
    requires Stuck(s, n, dn)
    ensures Stuck(Reconciled(LabelQuery, s, n, {}).state, n, dn)
  {
    var s' := Reconciled(LabelQuery, s, n, {}).state;
    MetadataProgress(LabelQuery, s, n);
    WorkloadRunMoves(LabelQuery, s, n, {}, dn);
    HoldingUnchanged(s.devices[dn], s'.devices[dn], n);
    SelectionStable(s.workloads[n], s.devices[dn], s'.devices[dn]);
    assert Selects(s'.workloads[n], s'.devices[dn]) == Selects(s.workloads[n], s'.devices[dn]);
  }

  /** Such a device is patched by every reconcile, for ever, once the workload's own metadata is written. */
  lemma {:induction false} LabelQueryNeverRests(trace: seq<State>, n: string, dn: string, k: nat)
    requires Repeats(LabelQuery, n, trace) && k < |trace| && Stuck(trace[0], n, dn)
    ensures Stuck(trace[k], n, dn) && MetadataLeft(trace[k].workloads[n]) <= if k < 2 then 2 - k else 0
    ensures Reconciled(LabelQuery, trace[k], n, {}).wrote
    decreases k
  {
    if k > 0 {
      LabelQueryNeverRests(trace, n, dn, k - 1);
      StuckStays(trace[k - 1], n, dn);
      MetadataProgress(LabelQuery, trace[k - 1], n);
    }
    if Reaches(trace[k], n) {
      RestExactly(LabelQuery, trace[k], n);
      assert Misplaced(LabelQuery, trace[k], n, dn);
    }
  }

  /** Whether a live workload ever comes to rest can be told from the first state, for either lookup: from the fourth
      reconcile on none sends anything, if it can rest, and each sends something, if it cannot. */
  lemma RestsIffItCan(lookup: Lookup, trace: seq<State>, n: string, k: nat)
    requires Repeats(lookup, n, trace) && 3 <= k < |trace| && WellFormed(trace[0]) && Live(trace[0], n) && PlainIn(trace[0], n)
    ensures WellFormed(trace[k])
    ensures !Reconciled(lookup, trace[k], n, {}).wrote <==> CanRest(lookup, trace[0], n)
  {
    RepeatsKeep(lookup, n, trace, k);
    if CanRest(lookup, trace[0], n) {
      AtMostThreeReconciles(lookup, trace, n, "", k);
    } else {
      var dn :| dn in trace[0].devices && Holds(lookup, trace[0].devices[dn], n)
        && !Selects(trace[0].workloads[n], trace[0].devices[dn]);
      LabelQueryNeverRests(trace, n, dn, k);
    }
  }

  // ---------- Both reconcilers at rest ----------

  /** Every workload is live, has its finalizer and its selector labels, and is settled and right on every device. */
  ghost predicate AllRight(s: State) {
    && WellFormed(s)
    && (forall n :: n in s.workloads ==> !s.workloads[n].deleting && Reaches(s, n))
    && (forall n, dn :: dn in s.devices ==> Settled(s, n, dn) && Right(s, n, dn))
  }

  lemma RightIsNotMisplaced(s: State, n: string, dn: string)
    requires n in s.workloads && !s.workloads[n].deleting && dn in s.devices && Right(s, n, dn)
    ensures !Misplaced(FieldIndex, s, n, dn)
  {
    DeviceIndexIsLabel(s.devices[dn], n);
  }

  lemma NothingToUpdate(s: State, dn: string)
    requires AllRight(s) && dn in s.devices
    ensures NamesIn(s.devices[dn].workloads) == Matched(s, s.devices[dn])
  {
    var d := s.devices[dn];
    forall n ensures n in NamesIn(d.workloads) <==> n in Matched(s, d) {
      ListedName(d.workloads, n);
      assert Settled(s, n, dn) && Right(s, n, dn);
      MatchedIsTarget(s, dn, n);
    }
  }

  lemma DeviceRunOfExact(writeBack: bool, s: State, dn: string, faults: set<Call>, s': State, ok: bool)
    requires WellFormed(s) && dn in s.devices && NamesIn(s.devices[dn].workloads) == Matched(s, s.devices[dn])
    requires Reconciles(writeBack, s, dn, faults, s', ok)
    ensures s' == s
  {
    var d, wanted := s.devices[dn], Matched(s, s.devices[dn]);
    if s' != s {
      var updated, added :| IsUpdate(wanted, d, updated, added) && Patched(writeBack, s, d, updated, faults, s', ok);
      UpdateIsExact(wanted, d, updated, added);
    }
  }

  /** Where all is right, no reconcile of either kind changes anything, whichever calls fail in it, and one of a workload
      sends nothing. */
  lemma AllRightIsRest(writeBack: bool, s: State, e: Event, s': State)
    requires AllRight(s) && Next(Config(FieldIndex, writeBack), s, e, s') && !e.DeletionRequested?
    ensures s' == s
    ensures e.WorkloadRun? ==> !Reconciled(FieldIndex, s, e.workload, e.faults).wrote
  {
    match e {
      case WorkloadRun(n, faults, _) =>
        if n in s.workloads {
          forall dn | dn in s.devices ensures !Misplaced(FieldIndex, s, n, dn) {
            RightIsNotMisplaced(s, n, dn);
          }
          NothingSentAtRest(FieldIndex, s, n, faults);
        }
      case DeviceRun(dn, faults, ok) =>
        if dn in s.devices {
          NothingToUpdate(s, dn);
          DeviceRunOfExact(writeBack, s, dn, faults, s', ok);
        }
    }
  }

  /** So every run without deletions stays in such a store. */
  lemma {:induction false} AllRightStays(writeBack: bool, trace: seq<State>, events: seq<Event>, k: nat)
    requires Run(Config(FieldIndex, writeBack), trace, events) && k < |trace| && AllRight(trace[0])
    requires forall i :: 0 <= i < |events| ==> !events[i].DeletionRequested?
    ensures trace[k] == trace[0]
    decreases k
  {
    if k > 0 {
      AllRightStays(writeBack, trace, events, k - 1);
      AllRightIsRest(writeBack, trace[k - 1], events[k - 1], trace[k]);
    }
  }

  // ---------- Labels written by the device reconciler ----------

  /** The device with the wanted list, but the labels of a device whose entries and labels agreed. */
  lemma OldLabelsAgree(d: Device, d': Device, wanted: set<string>)
    requires Agreement(d) && d'.labels == d.labels && forall n :: Lists(d', n) <==> n in wanted
    ensures Agreement(d') <==> NamesIn(d.workloads) == wanted
  {
    forall n ensures n in NamesIn(d.workloads) <==> Lists(d, n) {
      ListedName(d.workloads, n);
    }
    forall n ensures Labelled(d', n) <==> n in NamesIn(d.workloads) {
    }
    if NamesIn(d.workloads) != wanted {
      var n :| (n in NamesIn(d.workloads)) != (n in wanted);
      assert Lists(d', n) != Labelled(d', n);
    }
  }

  lemma NewLabelsAgree(d: Device, updated: Device, d': Device, wanted: set<string>, added: seq<string>)
    requires DistinctNames(d.workloads) && IsUpdate(wanted, d, Some(updated), added) && Agreement(d)
    requires d'.labels == updated.labels && forall n :: Lists(d', n) <==> n in wanted
    ensures Agreement(d')
  {
    UpdateOfLabels(wanted, d, Some(updated), added);
    forall n ensures Lists(d', n) <==> Labelled(d', n) {
      assert Labelled(d', n) <==> Labelled(updated, n);
    }
  }

  /** A successful device reconcile of a device whose entries and labels agree keeps them in agreement exactly when it
      had nothing to change, or when the client leaves the object it patches alone. */
  lemma DeviceRunLabels(writeBack: bool, s: State, dn: string, faults: set<Call>, s': State)
    requires WellFormed(s) && dn in s.devices && !s.devices[dn].deleting && Agreement(s.devices[dn])
    requires Reconciles(writeBack, s, dn, faults, s', true)
    ensures dn in s'.devices
    ensures Agreement(s'.devices[dn]) <==> (!writeBack || NamesIn(s.devices[dn].workloads) == Matched(s, s.devices[dn]))
  {
    var d, wanted := s.devices[dn], Matched(s, s.devices[dn]);
    var updated, added :| IsUpdate(wanted, d, updated, added) && Patched(writeBack, s, d, updated, faults, s', true);
    UpdateIsExact(wanted, d, updated, added);
    if updated.Some? {
      MergePatchOfCurrent(d.labels, LabelsToWrite(writeBack, d, updated.value));
      var d' := s'.devices[dn];
      assert d'.workloads == updated.value.workloads;
      assert forall n :: Lists(d', n) <==> Lists(updated.value, n);
      if writeBack {
        OldLabelsAgree(d, d', wanted);
      } else {
        NewLabelsAgree(d, updated.value, d', wanted, added);
      }
    }
  }
}
